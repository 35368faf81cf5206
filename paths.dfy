/** Path handling of the sitemap generator: which files the directory walk
    reaches (`isHidden`, `shouldExclude`), which of those the walk callback
    treats as pages, and how a page's relative path becomes the URL path the
    sitemap lists (`toUrlPath`). `sep` is the platform separator, `path.sep`. */
module Paths {
  import opened Wrappers
  import opened Strings

  /** A directory entry whose name starts with a dot is skipped. */
  predicate IsHidden(name: string) {
    StartsWith(name, ".")
  }

  /** `shouldExclude`: some piece of `rel` between separators is an excluded
      name. */
  predicate ShouldExclude(rel: string, sep: char, exclude: seq<string>) {
    exists ex :: ex in exclude && ex in Split(rel, sep)
  }

  /** `shouldExclude(rel)` holds exactly when some whole segment of `rel`
      is on the exclusion list. */
  lemma {:induction false} ShouldExcludeIff(rel: string, sep: char, exclude: seq<string>)
    ensures ShouldExclude(rel, sep, exclude) <==>
            exists i, j :: IsSegment(rel, sep, i, j) && rel[i..j] in exclude
  {
    if ShouldExclude(rel, sep, exclude) {
      var ex :| ex in exclude && ex in Split(rel, sep);
      var i, j := SplitPieceIsSegment(rel, sep, ex);
    }
    if exists i, j :: IsSegment(rel, sep, i, j) && rel[i..j] in exclude {
      var i, j :| IsSegment(rel, sep, i, j) && rel[i..j] in exclude;
      SegmentIsSplitPiece(rel, sep, i, j);
    }
  }

  /** The relative path of the `k`-th entry met on the way down to a file
      whose path has the segments `names`. */
  function EntryPath(names: seq<string>, k: nat, sep: char): string
    requires k < |names|
  {
    Join(names[..k + 1], sep)
  }

  /** Whether `walkDir` reaches the file at `rel`: on the way down, each
      entry (every directory, then the file itself) has a name that is not
      hidden and a relative path that `shouldExclude` does not reject. */
  predicate WalkVisits(rel: string, sep: char, exclude: seq<string>) {
    var names := Split(rel, sep);
    forall k :: 0 <= k < |names| ==>
      !IsHidden(names[k]) && !ShouldExclude(EntryPath(names, k, sep), sep, exclude)
  }

  /** An entry's path is excluded exactly when one of its own segments is on
      the list. */
  lemma {:induction false} EntryPathExcluded(names: seq<string>, k: nat, sep: char, exclude: seq<string>)
    requires k < |names|
    requires forall i :: 0 <= i < |names| ==> sep !in names[i]
    ensures ShouldExclude(EntryPath(names, k, sep), sep, exclude) <==>
            exists ex :: ex in exclude && ex in names[..k + 1]
  {
    JoinSplit(names[..k + 1], sep);
  }

  /** The walk reaches a file exactly when no segment of its path is hidden
      and its whole path is not excluded: an excluded or hidden directory
      hides its entire subtree, wherever it is. */
  lemma {:induction false} WalkVisitsIff(rel: string, sep: char, exclude: seq<string>)
    ensures WalkVisits(rel, sep, exclude) <==>
            (forall k :: 0 <= k < |Split(rel, sep)| ==> !IsHidden(Split(rel, sep)[k]))
            && !ShouldExclude(rel, sep, exclude)
  {
    var names := Split(rel, sep);
    var last := |names| - 1;
    SplitJoin(rel, sep);
    SplitPiecesFree(rel, sep);
    assert forall i :: 0 <= i < |names| ==> sep !in names[i];
    assert names[..last + 1] == names;
    assert EntryPath(names, last, sep) == rel;
    forall k | 0 <= k < |names|
      ensures ShouldExclude(EntryPath(names, k, sep), sep, exclude) ==> ShouldExclude(rel, sep, exclude)
    {
      EntryPathExcluded(names, k, sep, exclude);
      if ShouldExclude(EntryPath(names, k, sep), sep, exclude) {
        var ex :| ex in exclude && ex in names[..k + 1];
        assert ex in names;
      }
    }
  }

  /** The last segment of `rel`: `path.basename`. It holds no separator. */
  function Basename(rel: string, sep: char): (name: string)
    ensures sep !in name
  {
    var names := Split(rel, sep);
    SplitPiecesFree(rel, sep);
    names[|names| - 1]
  }

  /** Node's `path.extname` of a file name: from its last dot to its end;
      empty when it has no dot, when that dot is its first character, or when
      the name is `..`. */
  function Extname(name: string): (ext: string)
    ensures ext == "" || (EndsWith(name, ext) && |ext| < |name| && ext[0] == '.' && '.' !in ext[1..])
  {
    match LastIndex(name, '.')
    case None => ""
    case Some(d) =>
      if d == 0 || name == ".." then ""
      else
        assert forall l :: 0 <= l < |name| - d - 1 ==> name[d..][1..][l] == name[d + 1 + l];
        name[d..]
  }

  /** The walk callback's filter: the file's extension, lower-cased, is
      `.html` and its lower-cased name starts with neither `_` nor `.`. */
  predicate IsPage(rel: string, sep: char) {
    var name := Basename(rel, sep);
    && ToLower(Extname(name)) == ".html"
    && !StartsWith(ToLower(name), "_")
    && !StartsWith(ToLower(name), ".")
  }

  /** A file is a page exactly when its name is longer than `.html`, ends in
      `.html` in any letter case, and starts with neither `_` nor `.`. */
  lemma {:induction false} IsPageIff(rel: string, sep: char)
    ensures var name := Basename(rel, sep);
            IsPage(rel, sep) <==>
              && |name| > 5
              && ToLower(name[|name| - 5..]) == ".html"
              && name[0] != '_' && name[0] != '.'
  {
    var name := Basename(rel, sep);
    if |name| > 0 {
      assert ToLower(name)[..1] == [LowerChar(name[0])];
    }
    var ext := Extname(name);
    if ToLower(ext) == ".html" {
      var d := LastIndex(name, '.').value;
      assert ext == name[d..];
    }
    if |name| > 5 && ToLower(name[|name| - 5..]) == ".html" {
      var tail := name[|name| - 5..];
      forall i | 0 <= i < 5 ensures LowerChar(tail[i]) == ".html"[i] {
        assert ToLower(tail)[i] == LowerChar(tail[i]);
      }
      assert tail[0] == '.';
      assert forall i | 1 <= i < 5 :: tail[i] != '.';
      assert '.' !in name[|name| - 4..];
      var d := LastIndex(name, '.');
      assert d == Some(|name| - 5);
    }
  }

  /** The query/fragment strip, `p.split('?')[0].split('#')[0]`: a prefix
      of `p` that holds neither `?` nor `#`. */
  function StripQuery(p: string): (r: string)
    ensures '?' !in r && '#' !in r
    ensures StartsWith(p, r)
  {
    var h := Split(p, '?')[0];
    SplitHeadFree(p, '?');
    SplitHeadFree(h, '#');
    var r := Split(h, '#')[0];
    assert r == h[..|r|];
    assert forall l :: 0 <= l < |r| ==> r[l] == h[l];
    r
  }

  /** The path `toUrlPath` classifies: separators turned into `/`, then
      everything from the first `?` or `#` dropped. */
  function Normalised(rel: string, sep: char): string {
    StripQuery(Join(Split(rel, sep), '/'))
  }

  /** `if (!p.startsWith('/')) p = '/' + p`. */
  function WithLeadingSlash(p: string): (r: string)
    ensures |r| >= 1 && r[0] == '/'
  {
    if StartsWith(p, "/") then p else "/" + p
  }

  /** `if (!p.endsWith('/')) p = p + '/'`. */
  function WithTrailingSlash(p: string): (r: string)
    ensures |r| >= 1 && r[|r| - 1] == '/'
    ensures |p| >= 1 && p[0] == '/' ==> r[0] == '/'
  {
    if EndsWith(p, "/") then p else p + "/"
  }

  /** How `toUrlPath` turns the normalised path `p` into a URL path:
      a trailing `index.html` becomes its directory with a trailing slash,
      another `.html` file keeps its name, anything else is treated as a
      directory. */
  function UrlForPath(p: string): (url: string)
    ensures |url| >= 1 && url[0] == '/'
  {
    if EndsWith(p, "index.html") then
      var dir := WithTrailingSlash(WithLeadingSlash(p[..|p| - 10]));
      if dir == "//" then "/" else dir
    else if EndsWith(p, ".html") then
      WithLeadingSlash(p)
    else
      WithTrailingSlash(WithLeadingSlash(p))
  }

  /** `toUrlPath`: the URL path a page at `rel` is listed under. */
  function ToUrlPath(rel: string, sep: char): (url: string)
    ensures |url| >= 1 && url[0] == '/'
  {
    UrlForPath(Normalised(rel, sep))
  }

  /** Turning separators into `/` first is what `toUrlPath` does itself:
      its result does not depend on which separator the platform uses. */
  lemma NormalisedReplaces(rel: string, sep: char)
    ensures Normalised(rel, sep) == StripQuery(Replace(rel, sep, '/'))
  {
    SplitJoinReplaces(rel, sep, '/');
  }

  lemma {:induction false} ToUrlPathSeparator(rel: string, sep: char)
    ensures ToUrlPath(rel, sep) == ToUrlPath(Replace(rel, sep, '/'), '/')
  {
    var r := Replace(rel, sep, '/');
    NormalisedReplaces(rel, sep);
    NormalisedReplaces(r, '/');
    assert Replace(r, '/', '/') == r;
  }

  /** What follows the first `?` or `#` is dropped. */
  lemma {:induction false} StripQueryCut(a: string, x: char, b: string)
    requires x == '?' || x == '#'
    ensures StripQuery(a + [x] + b) == StripQuery(a)
  {
    var s := a + [x] + b;
    assert s == a + ([x] + b);
    if x == '?' || '?' in a {
      SplitHeadExtend(a, [x] + b, '?');
    } else {
      SplitHeadPrefix(a, [x] + b, '?');
      var rest := Split([x] + b, '?')[0];
      NextSepUnique(a, '?', 0, |a|);
      assert Split(a, '?')[0] == a;
      assert NextSep([x] + b, '?', 0) >= 1;
      assert rest == [x] + rest[1..];
      assert a + rest == a + ([x] + rest[1..]);
      SplitHeadExtend(a, [x] + rest[1..], '#');
    }
  }

  /** A relative path with a `?` or `#` in it is listed under the URL of
      the part before it. */
  lemma {:induction false} ToUrlPathIgnoresQuery(rel: string, x: char, t: string, sep: char)
    requires x == '?' || x == '#'
    requires x != sep
    ensures ToUrlPath(rel + [x] + t, sep) == ToUrlPath(rel, sep)
  {
    NormalisedReplaces(rel + [x] + t, sep);
    NormalisedReplaces(rel, sep);
    ReplaceAppend(rel + [x], t, sep, '/');
    ReplaceAppend(rel, [x], sep, '/');
    assert Replace([x], sep, '/') == [x];
    StripQueryCut(Replace(rel, sep, '/'), x, Replace(t, sep, '/'));
  }

  /** A URL path never carries a query or a fragment. */
  lemma {:induction false} UrlHasNoQuery(rel: string, sep: char)
    ensures '?' !in ToUrlPath(rel, sep) && '#' !in ToUrlPath(rel, sep)
  {
    UrlForPathChars(Normalised(rel, sep));
  }

  /** The URL ends in `/` unless the file is an `.html` page that is not an
      `index.html`: directories and index pages get a trailing slash, other
      pages keep their file name. */
  lemma {:induction false} UrlForPathTrailingSlash(p: string)
    ensures EndsWith(UrlForPath(p), "/") <==>
              !(EndsWith(p, ".html") && !EndsWith(p, "index.html"))
  {
    var url := UrlForPath(p);
    if EndsWith(p, ".html") && !EndsWith(p, "index.html") {
      assert url[|url| - 1] == p[|p| - 1] == 'l';
    }
  }

  lemma ToUrlPathTrailingSlash(rel: string, sep: char)
    ensures var p := Normalised(rel, sep);
            EndsWith(ToUrlPath(rel, sep), "/") <==>
              !(EndsWith(p, ".html") && !EndsWith(p, "index.html"))
  {
    UrlForPathTrailingSlash(Normalised(rel, sep));
  }

  /** The file a static server looks up for a URL path: a path ending in `/`
      names that directory's `index.html`. */
  function FileForUrl(url: string): (file: string)
    requires |url| >= 1
    ensures EndsWith(url, "/") ==> EndsWith(file, "index.html")
  {
    if EndsWith(url, "/") then url[1..] + "index.html" else url[1..]
  }

  /** Serving a page's URL finds the page again, for every `.html` page
      except one whose name merely ends in `index.html` (`myindex.html`):
      that one is listed under the URL of its directory's index. */
  lemma {:induction false} UrlForPathRoundTrip(p: string)
    requires EndsWith(p, ".html") && !StartsWith(p, "/")
    ensures FileForUrl(UrlForPath(p)) == p <==>
              (!EndsWith(p, "index.html") || p == "index.html" || EndsWith(p, "/index.html"))
  {
    if EndsWith(p, "index.html") {
      var q := p[..|p| - 10];
      EndsWithParts(p, "index.html");
      if q == "" {
        RoundTripIndex(q);
      } else {
        assert q[0] == p[0];
        EndsWithSlashIndex(q);
        if q[|q| - 1] == '/' {
          RoundTripIndex(q);
        } else {
          RoundTripMisnamed(q);
        }
      }
    } else {
      RoundTripPlain(p);
    }
  }

  lemma {:induction false} RoundTripPlain(p: string)
    requires EndsWith(p, ".html") && !EndsWith(p, "index.html") && !StartsWith(p, "/")
    ensures FileForUrl(UrlForPath(p)) == p
  {
    UrlForPlainPage(p);
    assert ("/" + p)[|p|] == p[|p| - 1] == 'l';
    assert ("/" + p)[1..] == p;
  }

  lemma {:induction false} RoundTripIndex(q: string)
    requires q == "" || (q[0] != '/' && q[|q| - 1] == '/')
    ensures FileForUrl(UrlForPath(q + "index.html")) == q + "index.html"
  {
    UrlForIndexPage(q);
    if q != "" {
      assert ("/" + q)[|q|] == q[|q| - 1];
    }
    assert ("/" + q)[1..] == q;
  }

  lemma {:induction false} RoundTripMisnamed(q: string)
    requires |q| > 0 && q[0] != '/' && q[|q| - 1] != '/'
    ensures FileForUrl(UrlForPath(q + "index.html")) != q + "index.html"
  {
    UrlForMisnamedIndex(q);
    var url := "/" + q + "/";
    assert url[|url| - 1] == '/';
    assert |FileForUrl(url)| == |q| + 11;
  }

  /** `q + "index.html"` ends in `/index.html` exactly when `q` ends in
      `/`. */
  lemma {:induction false} EndsWithSlashIndex(q: string)
    ensures EndsWith(q + "index.html", "/index.html") <==> |q| > 0 && q[|q| - 1] == '/'
  {
    var p := q + "index.html";
    if |q| > 0 {
      assert p[|p| - 11] == q[|q| - 1];
      assert p[|p| - 10..] == "index.html";
      if q[|q| - 1] == '/' {
        assert p[|p| - 11..] == "/" + "index.html";
      }
    } else {
      assert |p| < 11;
    }
  }

  lemma ToUrlPathRoundTrip(rel: string, sep: char)
    requires var p := Normalised(rel, sep);
             EndsWith(p, ".html") && !StartsWith(p, "/")
    ensures var p := Normalised(rel, sep);
            FileForUrl(ToUrlPath(rel, sep)) == p <==>
              (!EndsWith(p, "index.html") || p == "index.html" || EndsWith(p, "/index.html"))
  {
    UrlForPathRoundTrip(Normalised(rel, sep));
  }

  /** Without a `?` or `#`, normalising only turns separators into `/`. */
  lemma {:induction false} NormalisedPlain(rel: string, sep: char)
    requires '?' !in rel && '#' !in rel
    ensures Normalised(rel, sep) == Replace(rel, sep, '/')
  {
    var r := Replace(rel, sep, '/');
    NormalisedReplaces(rel, sep);
    assert forall l :: 0 <= l < |r| ==> r[l] == '/' || r[l] == rel[l];
    NextSepUnique(r, '?', 0, |r|);
    assert Split(r, '?')[0] == r;
    NextSepUnique(r, '#', 0, |r|);
    assert Split(r, '#')[0] == r;
  }

  /** An `index.html` page is listed under its directory, with one leading
      and one trailing slash; the top-level one under `/`. */
  lemma {:induction false} UrlForIndexPage(dir: string)
    requires dir == "" || (dir[0] != '/' && dir[|dir| - 1] == '/')
    ensures UrlForPath(dir + "index.html") == "/" + dir
  {
    var p := dir + "index.html";
    assert p[..|p| - 10] == dir;
    assert p[|p| - 10..] == "index.html";
  }

  /** Any other `.html` page is listed under its own path. */
  lemma {:induction false} UrlForPlainPage(p: string)
    requires EndsWith(p, ".html") && !EndsWith(p, "index.html") && !StartsWith(p, "/")
    ensures UrlForPath(p) == "/" + p
  {
  }

  /** With `/` as the separator, a path without `?` or `#` is already
      normalised. */
  lemma NormalisedSlash(rel: string)
    requires '?' !in rel && '#' !in rel
    ensures Normalised(rel, '/') == rel
  {
    NormalisedPlain(rel, '/');
    assert Replace(rel, '/', '/') == rel;
  }

  /** `index.html` in a directory is listed as the directory itself,
      `index.html` at the top as `/`. */
  lemma {:induction false} ToUrlPathIndexPage(dir: string)
    requires '?' !in dir && '#' !in dir
    requires dir == "" || (dir[0] != '/' && dir[|dir| - 1] == '/')
    ensures ToUrlPath(dir + "index.html", '/') == "/" + dir
  {
    assert '?' !in "index.html" && '#' !in "index.html";
    NormalisedSlash(dir + "index.html");
    UrlForIndexPage(dir);
  }

  /** Any other page is listed under its own path with a leading slash. */
  lemma {:induction false} ToUrlPathPlainPage(rel: string)
    requires '?' !in rel && '#' !in rel && !StartsWith(rel, "/")
    requires EndsWith(rel, ".html") && !EndsWith(rel, "index.html")
    ensures ToUrlPath(rel, '/') == "/" + rel
  {
    NormalisedSlash(rel);
    UrlForPlainPage(rel);
  }

  /** Any other file is listed as a directory: the `.html` test here is
      case-sensitive, so a page `Foo.HTML`, which the walk callback accepts,
      is listed as `/Foo.HTML/`. */
  lemma {:induction false} ToUrlPathOtherFile(rel: string)
    requires '?' !in rel && '#' !in rel && !StartsWith(rel, "/")
    requires rel != "" && !EndsWith(rel, ".html") && !EndsWith(rel, "/")
    ensures ToUrlPath(rel, '/') == "/" + rel + "/"
  {
    NormalisedSlash(rel);
    UrlForOtherPath(rel);
  }

  lemma {:induction false} UrlForOtherPath(p: string)
    requires p != "" && !StartsWith(p, "/") && !EndsWith(p, ".html") && !EndsWith(p, "/")
    ensures UrlForPath(p) == "/" + p + "/"
  {
    if |p| >= 10 {
      assert p[|p| - 5..] == p[|p| - 10..][5..];
    }
    assert !EndsWith(p, "index.html");
    var q := "/" + p;
    assert q[|q| - 1] == p[|p| - 1];
  }

  /** A name that merely ends in `index.html` loses that ending and is
      listed as a directory: `blog/myindex.html` becomes `/blog/my/`. */
  lemma {:induction false} UrlForMisnamedIndex(q: string)
    requires |q| > 0 && q[0] != '/' && q[|q| - 1] != '/'
    ensures UrlForPath(q + "index.html") == "/" + q + "/"
  {
    var p := q + "index.html";
    assert p[..|p| - 10] == q;
    assert p[|p| - 10..] == "index.html";
    assert ("/" + q)[|q|] == q[|q| - 1];
  }

  /** `toUrlPath` only adds slashes: every other character of a URL path
      comes from the file's relative path. */
  lemma {:induction false} ToUrlPathChars(rel: string, sep: char)
    ensures forall ch :: ch in ToUrlPath(rel, sep) ==> ch == '/' || ch in rel
  {
    var r := Replace(rel, sep, '/');
    var p := StripQuery(r);
    NormalisedReplaces(rel, sep);
    UrlForPathChars(p);
    forall ch | ch in ToUrlPath(rel, sep) ensures ch == '/' || ch in rel {
      if ch in p && ch != '/' {
        var l :| 0 <= l < |p| && p[l] == ch;
        assert r[l] == ch;
      }
    }
  }

  lemma {:induction false} UrlForPathChars(p: string)
    ensures forall ch :: ch in UrlForPath(p) ==> ch == '/' || ch in p
  {
    if EndsWith(p, "index.html") {
      var q := p[..|p| - 10];
      assert forall l :: 0 <= l < |q| ==> q[l] == p[l];
    }
  }
}
