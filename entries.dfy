/** The walk callback of the sitemap generator: which of the files the
    directory walk reaches become sitemap entries, and with what location,
    timestamp, change frequency and priority; and the list of entries the
    walk collects, in walk order. */
module Entries {
  import opened Wrappers
  import opened Strings
  import opened Paths
  import opened Heuristics

  /** A file under the scanned directory, in the order the depth-first walk
      lists it: its path relative to that directory, and the ISO timestamp
      of its last modification, absent when the file could not be read. */
  datatype WalkedFile = WalkedFile(rel: string, lastmod: Option<string>)

  /** The options the generator runs with: the site's domain, the platform
      path separator, the excluded directory names and the overrides read
      from the configuration file, keyed by URL path. */
  datatype Config = Config(domain: string, sep: char, exclude: seq<string>, overrides: map<string, Override>)

  /** One sitemap entry; `file` is the page's path relative to the scanned
      directory. */
  datatype Entry = Entry(loc: string, lastmod: Option<string>, changefreq: string, priority: string, file: string)

  /** The domain with one trailing slash removed, if it has one. */
  function TrimDomain(domain: string): (d: string)
    ensures domain == d || domain == d + "/"
    ensures EndsWith(domain, "/") <==> domain == d + "/"
  {
    if EndsWith(domain, "/") then domain[..|domain| - 1] else domain
  }

  /** Whether the walk callback pushes an entry for a file: the walk
      reaches it and it is a page. */
  predicate Listed(f: WalkedFile, cfg: Config) {
    WalkVisits(f.rel, cfg.sep, cfg.exclude) && IsPage(f.rel, cfg.sep)
  }

  /** The entry the walk callback builds for a page: its location is the
      trimmed domain followed by the page's URL path, so it has exactly one
      slash after the domain's name and no query or fragment; its change
      frequency and priority are those resolved for that URL path; its
      timestamp and path are the file's. */
  function PageEntry(f: WalkedFile, cfg: Config): (e: Entry)
    ensures var d := TrimDomain(cfg.domain);
            && StartsWith(e.loc, d + "/")
            && e.loc[|d|..] == ToUrlPath(f.rel, cfg.sep)
            && '?' !in e.loc[|d|..] && '#' !in e.loc[|d|..]
            && Meta(e.changefreq, e.priority) == Resolve(e.loc[|d|..], cfg.overrides)
    ensures e.file == f.rel && e.lastmod == f.lastmod
  {
    var url := ToUrlPath(f.rel, cfg.sep);
    var m := Resolve(url, cfg.overrides);
    LocParts(TrimDomain(cfg.domain), url);
    UrlHasNoQuery(f.rel, cfg.sep);
    Entry(TrimDomain(cfg.domain) + url, f.lastmod, m.changefreq, m.priority, f.rel)
  }

  /** The entry the walk callback pushes for a file, if any: one exactly
      when no name on the file's path is hidden, no segment of the path is
      excluded, and its name is longer than `.html`, ends in `.html` in any
      letter case and starts with neither `_` nor `.`. */
  function EntryFor(f: WalkedFile, cfg: Config): (e: Option<Entry>)
    ensures var names, name := Split(f.rel, cfg.sep), Basename(f.rel, cfg.sep);
            e.Some? <==>
              && (forall k :: 0 <= k < |names| ==> !IsHidden(names[k]))
              && !ShouldExclude(f.rel, cfg.sep, cfg.exclude)
              && |name| > 5 && ToLower(name[|name| - 5..]) == ".html"
              && name[0] != '_' && name[0] != '.'
    ensures e.Some? <==> Listed(f, cfg)
    ensures e.Some? ==> e.value == PageEntry(f, cfg)
  {
    WalkVisitsIff(f.rel, cfg.sep, cfg.exclude);
    IsPageIff(f.rel, cfg.sep);
    if Listed(f, cfg) then Some(PageEntry(f, cfg)) else None
  }

  /** A location joins the domain and a URL path that starts with `/`. */
  lemma LocParts(d: string, url: string)
    requires |url| >= 1 && url[0] == '/'
    ensures StartsWith(d + url, d + "/") && (d + url)[|d|..] == url
  {
    assert (d + url)[..|d| + 1] == d + "/";
  }

  /** A file inside an excluded directory, or named as one, is never
      listed, however deep it lies. */
  lemma {:induction false} ExcludedNotListed(f: WalkedFile, cfg: Config, i: int, j: int)
    requires IsSegment(f.rel, cfg.sep, i, j) && f.rel[i..j] in cfg.exclude
    ensures !Listed(f, cfg)
  {
    ShouldExcludeIff(f.rel, cfg.sep, cfg.exclude);
    WalkVisitsIff(f.rel, cfg.sep, cfg.exclude);
  }

  /** A file in a hidden directory, or itself hidden, is never listed. */
  lemma {:induction false} HiddenNotListed(f: WalkedFile, cfg: Config, k: nat)
    requires k < |Split(f.rel, cfg.sep)| && IsHidden(Split(f.rel, cfg.sep)[k])
    ensures !Listed(f, cfg)
  {
  }

  /** What the walk callback makes of each file the walk lists. */
  function Candidates(files: seq<WalkedFile>, cfg: Config): (os: seq<Option<Entry>>)
    ensures |os| == |files|
  {
    MapSeq(f => EntryFor(f, cfg), files)
  }

  /** The entries the walk collects, in walk order. */
  function Pages(files: seq<WalkedFile>, cfg: Config): (urls: seq<Entry>)
    ensures |urls| <= |files|
  {
    Somes(Candidates(files, cfg))
  }

  /** Every collected entry is the entry of one listed file, and every
      listed file contributes its entry. */
  lemma {:induction false} PagesMembers(files: seq<WalkedFile>, cfg: Config, e: Entry)
    ensures e in Pages(files, cfg) <==>
            exists i :: 0 <= i < |files| && Listed(files[i], cfg) && e == PageEntry(files[i], cfg)
  {
    var os := Candidates(files, cfg);
    if e in Pages(files, cfg) {
      var i := SomesSource(os, e);
    }
    if exists i :: 0 <= i < |files| && Listed(files[i], cfg) && e == PageEntry(files[i], cfg) {
      var i :| 0 <= i < |files| && Listed(files[i], cfg) && e == PageEntry(files[i], cfg);
      SomesComplete(os, i);
    }
  }

  /** One more file adds its entry, if any, at the end. */
  lemma PagesSnoc(files: seq<WalkedFile>, f: WalkedFile, cfg: Config)
    ensures Pages(files + [f], cfg) == Pages(files, cfg) + EntryFor(f, cfg).ToSeq()
  {
    MapSeqSnoc(g => EntryFor(g, cfg), files, f);
    SomesSnoc(Candidates(files, cfg), EntryFor(f, cfg));
  }

  /** The walk callback run over every file the walk lists. */
  method Collect(files: seq<WalkedFile>, cfg: Config) returns (urls: seq<Entry>)
    ensures urls == Pages(files, cfg)
  {
    urls := [];
    for i := 0 to |files|
      invariant urls == Pages(files[..i], cfg)
    {
      var e := EntryFor(files[i], cfg);
      TakeSnoc(files, i);
      PagesSnoc(files[..i], files[i], cfg);
      if e.Some? {
        urls := urls + [e.value];
      }
    }
    TakeAll(files);
  }
}
