/** The generator's main flow: collect the entries of the pages the walk
    lists, drop the later entries of a repeated location, sort what is left
    and render the sitemap. */
module Generator {
  import opened Wrappers
  import opened Strings
  import opened Paths
  import opened Heuristics
  import opened Entries
  import opened Dedup
  import opened Ordering
  import opened Xml

  /** Every priority the overrides file sets is absent, empty (so the
      default is used) or a plain decimal. */
  predicate PrioritiesParse(overrides: map<string, Override>) {
    forall u :: u in overrides ==>
      overrides[u].priority.None? || overrides[u].priority == Some("")
      || ParseDecimal(overrides[u].priority.value).Some?
  }

  /** When the overrides file sets no odd priority, every entry's priority
      is a plain decimal, so the sort compares the numbers `parseFloat`
      reads. */
  lemma {:induction false} PagesKeyed(files: seq<WalkedFile>, cfg: Config)
    requires PrioritiesParse(cfg.overrides)
    ensures AllKeyed(Pages(files, cfg))
  {
    var urls := Pages(files, cfg);
    forall k | 0 <= k < |urls| ensures HasKey(urls[k]) {
      var e := urls[k];
      PagesMembers(files, cfg, e);
      var i :| 0 <= i < |files| && Listed(files[i], cfg) && e == PageEntry(files[i], cfg);
      var url := ToUrlPath(files[i].rel, cfg.sep);
      assert e.priority == Resolve(url, cfg.overrides).priority;
      var v := HeuristicPriority(url);
    }
  }

  /** Everything after the walk: drop the later entries of a repeated
      location, sort the rest in place and render the sitemap. */
  method Publish(urls: seq<Entry>) returns (finalUrls: seq<Entry>, xml: string)
    ensures multiset(finalUrls) == multiset(KeepFirst(urls))
    ensures DistinctLocs(finalUrls)
    ensures SortedPairwise(finalUrls)
    ensures xml == Join(XmlLines(finalUrls), '\n')
  {
    var unique := RemoveDuplicates(urls);
    var a := new Entry[|unique|](i requires 0 <= i < |unique| => unique[i]);
    assert a[..] == unique;
    SortEntries(a);
    finalUrls := a[..];
    KeepFirstDistinct(urls);
    DistinctLocsPermutation(unique, finalUrls);
    SortedIsPairwise(finalUrls);
    xml := BuildXml(finalUrls);
  }

  /** The whole run over the files the walk lists: the entries kept, in
      sitemap order, and the sitemap's text. */
  method Generate(files: seq<WalkedFile>, cfg: Config) returns (finalUrls: seq<Entry>, xml: string)
    ensures multiset(finalUrls) == multiset(KeepFirst(Pages(files, cfg)))
    ensures DistinctLocs(finalUrls)
    ensures SortedPairwise(finalUrls)
    ensures xml == Join(XmlLines(finalUrls), '\n')
  {
    var urls := Collect(files, cfg);
    finalUrls, xml := Publish(urls);
  }

  /** For a given walk, the sitemap's order is fully determined: any
      ordering of the kept entries that the comparator accepts is the one
      `Generate` returns. */
  lemma {:induction false} GenerateDeterministic(files: seq<WalkedFile>, cfg: Config, s: seq<Entry>, t: seq<Entry>)
    requires multiset(s) == multiset(KeepFirst(Pages(files, cfg))) && SortedPairwise(s)
    requires multiset(t) == multiset(KeepFirst(Pages(files, cfg))) && SortedPairwise(t)
    ensures s == t
  {
    var kept := KeepFirst(Pages(files, cfg));
    KeepFirstDistinct(Pages(files, cfg));
    DistinctLocsPermutation(kept, s);
    DistinctLocsPermutation(kept, t);
    SortedUnique(s, t);
  }

  /** The order in which the walk lists the files does not change the
      sitemap's order: two listings of the same files give the same
      locations, change frequencies and priorities, position by position.
      Only the timestamps and paths of entries that share a location may
      differ, because the first one listed is kept. */
  lemma {:induction false} WalkOrderIrrelevant(files: seq<WalkedFile>, files': seq<WalkedFile>, cfg: Config,
                                               s: seq<Entry>, t: seq<Entry>)
    requires multiset(files) == multiset(files')
    requires multiset(s) == multiset(KeepFirst(Pages(files, cfg))) && SortedPairwise(s)
    requires multiset(t) == multiset(KeepFirst(Pages(files', cfg))) && SortedPairwise(t)
    ensures |s| == |t|
    ensures forall i :: 0 <= i < |s| ==>
              s[i].loc == t[i].loc && s[i].changefreq == t[i].changefreq && s[i].priority == t[i].priority
  {
    KeepFirstDistinct(Pages(files, cfg));
    KeepFirstDistinct(Pages(files', cfg));
    DistinctLocsPermutation(KeepFirst(Pages(files, cfg)), s);
    DistinctLocsPermutation(KeepFirst(Pages(files', cfg)), t);
    SitemapLocations(files, cfg, s);
    SitemapLocations(files', cfg, t);
    ListedLocsWithin(files, files', cfg);
    ListedLocsWithin(files', files, cfg);
    forall i, j | 0 <= i < |s| && 0 <= j < |t| ensures SameListing(s[i], t[j]) {
      KeptArePages(files, cfg, s, s[i]);
      KeptArePages(files', cfg, t, t[j]);
    }
    SortedByLocation(s, t);
  }

  /** No two listed files map to the same location. */
  predicate UniqueLocations(files: seq<WalkedFile>, cfg: Config) {
    forall i, j :: 0 <= i < j < |files| && Listed(files[i], cfg) && Listed(files[j], cfg) ==>
      PageEntry(files[i], cfg).loc != PageEntry(files[j], cfg).loc
  }

  /** When no two listed files share a location, the walk order changes
      nothing at all: the kept entries, and so the sitemap's text, are the
      same for every listing of the files. */
  lemma {:induction false} WalkOrderIrrelevantUnique(files: seq<WalkedFile>, files': seq<WalkedFile>, cfg: Config,
                                                     s: seq<Entry>, t: seq<Entry>)
    requires multiset(files) == multiset(files') && UniqueLocations(files, cfg)
    requires multiset(s) == multiset(KeepFirst(Pages(files, cfg))) && SortedPairwise(s)
    requires multiset(t) == multiset(KeepFirst(Pages(files', cfg))) && SortedPairwise(t)
    ensures s == t
    ensures Join(XmlLines(s), '\n') == Join(XmlLines(t), '\n')
  {
    WalkOrderIrrelevant(files, files', cfg, s, t);
    forall i | 0 <= i < |s| ensures s[i] == t[i] {
      KeptArePages(files, cfg, s, s[i]);
      KeptArePages(files', cfg, t, t[i]);
      OneEntryPerLocation(files, files', cfg, s[i], t[i]);
    }
  }

  lemma {:induction false} OneEntryPerLocation(files: seq<WalkedFile>, files': seq<WalkedFile>, cfg: Config,
                                               x: Entry, y: Entry)
    requires multiset(files) == multiset(files') && UniqueLocations(files, cfg)
    requires exists a :: 0 <= a < |files| && Listed(files[a], cfg) && x == PageEntry(files[a], cfg)
    requires exists b :: 0 <= b < |files'| && Listed(files'[b], cfg) && y == PageEntry(files'[b], cfg)
    requires x.loc == y.loc
    ensures x == y
  {
    var a :| 0 <= a < |files| && Listed(files[a], cfg) && x == PageEntry(files[a], cfg);
    var b :| 0 <= b < |files'| && Listed(files'[b], cfg) && y == PageEntry(files'[b], cfg);
    assert files'[b] in multiset(files);
    var c :| 0 <= c < |files| && files[c] == files'[b];
    assert a == c;
  }

  /** The locations of the listed pages depend on which files are listed,
      not on their order. */
  lemma ListedLocsWithin(files: seq<WalkedFile>, files': seq<WalkedFile>, cfg: Config)
    requires multiset(files) <= multiset(files')
    ensures (set i | 0 <= i < |files| && Listed(files[i], cfg) :: PageEntry(files[i], cfg).loc) <=
            (set i | 0 <= i < |files'| && Listed(files'[i], cfg) :: PageEntry(files'[i], cfg).loc)
  {
    forall i | 0 <= i < |files| && Listed(files[i], cfg)
      ensures PageEntry(files[i], cfg).loc in
              (set i | 0 <= i < |files'| && Listed(files'[i], cfg) :: PageEntry(files'[i], cfg).loc)
    {
      assert files[i] in multiset(files');
      var j :| 0 <= j < |files'| && files'[j] == files[i];
    }
  }

  /** No line break in the domain, the relative paths, the timestamps or
      the override values. */
  predicate NoLineBreaks(files: seq<WalkedFile>, cfg: Config) {
    && '\n' !in cfg.domain
    && (forall i :: 0 <= i < |files| ==> OneLineFile(files[i]))
    && (forall u :: u in cfg.overrides ==> OneLineOverride(cfg.overrides[u]))
  }

  predicate OneLineFile(f: WalkedFile) {
    '\n' !in f.rel && (f.lastmod.Some? ==> '\n' !in f.lastmod.value)
  }

  predicate OneLineOverride(o: Override) {
    && (o.changefreq.Some? ==> '\n' !in o.changefreq.value)
    && (o.priority.Some? ==> '\n' !in o.priority.value)
  }

  /** A page's entry then writes each of its fields on one line. */
  lemma {:induction false} PageEntryOneLine(f: WalkedFile, cfg: Config)
    requires '\n' !in cfg.domain && OneLineFile(f)
    requires forall u :: u in cfg.overrides ==> OneLineOverride(cfg.overrides[u])
    ensures OneLine(PageEntry(f, cfg))
  {
    var url := ToUrlPath(f.rel, cfg.sep);
    LocOneLine(cfg.domain, f.rel, cfg.sep);
    ResolveOneLine(url, cfg.overrides);
  }

  lemma {:induction false} LocOneLine(domain: string, rel: string, sep: char)
    requires '\n' !in domain && '\n' !in rel
    ensures '\n' !in TrimDomain(domain) + ToUrlPath(rel, sep)
  {
    var d := TrimDomain(domain);
    ToUrlPathChars(rel, sep);
    assert forall l :: 0 <= l < |d| ==> d[l] == domain[l];
  }

  lemma {:induction false} ResolveOneLine(url: string, overrides: map<string, Override>)
    requires forall u :: u in overrides ==> OneLineOverride(overrides[u])
    ensures var m := Resolve(url, overrides); '\n' !in m.changefreq && '\n' !in m.priority
  {
    HeuristicsOneLine(url);
  }

  lemma {:induction false} HeuristicsOneLine(url: string)
    ensures var h := HeuristicsForUrl(url); '\n' !in h.changefreq && '\n' !in h.priority
  {
    var h := HeuristicsForUrl(url);
    assert h.changefreq in {"weekly", "monthly", "yearly"};
    assert h.priority in {"1.0", "0.9", "0.8", "0.6", "0.5"};
    assert '\n' !in "weekly" && '\n' !in "monthly" && '\n' !in "yearly";
    assert '\n' !in "1.0" && '\n' !in "0.9" && '\n' !in "0.8" && '\n' !in "0.6" && '\n' !in "0.5";
  }

  /** The entries kept in the sitemap are entries of listed pages. */
  lemma {:induction false} KeptArePages(files: seq<WalkedFile>, cfg: Config, finalUrls: seq<Entry>, e: Entry)
    requires multiset(finalUrls) == multiset(KeepFirst(Pages(files, cfg)))
    requires e in finalUrls
    ensures exists i :: 0 <= i < |files| && Listed(files[i], cfg) && e == PageEntry(files[i], cfg)
  {
    assert e in multiset(KeepFirst(Pages(files, cfg)));
    KeepFirstMembers(Pages(files, cfg), e);
    PagesMembers(files, cfg, e);
  }

  /** Read back line by line, the sitemap `Generate` writes holds, for each
      field, the kept entries' values in sitemap order. */
  lemma {:induction false} SitemapReadsBack(files: seq<WalkedFile>, cfg: Config, finalUrls: seq<Entry>, name: string)
    requires NoLineBreaks(files, cfg)
    requires multiset(finalUrls) == multiset(KeepFirst(Pages(files, cfg)))
    requires IsFieldName(name)
    ensures ExtractField(name, Split(Join(XmlLines(finalUrls), '\n'), '\n')) == FieldColumn(name, finalUrls)
  {
    KeptOneLine(files, cfg, finalUrls);
    XmlTextLines(finalUrls);
    FieldsOfXml(name, finalUrls);
  }

  /** Read back line by line, the sitemap `Generate` writes starts with the
      XML declaration and `<urlset>`, ends with `</urlset>`, and has one
      `<url>` block per kept entry. */
  lemma {:induction false} SitemapFrame(files: seq<WalkedFile>, cfg: Config, finalUrls: seq<Entry>)
    requires NoLineBreaks(files, cfg)
    requires multiset(finalUrls) == multiset(KeepFirst(Pages(files, cfg)))
    ensures var lines := Split(Join(XmlLines(finalUrls), '\n'), '\n');
            && lines[0] == Declaration && lines[1] == UrlsetOpen
            && lines[|lines| - 1] == UrlsetClose
            && Count(UrlOpen, lines) == |KeepFirst(Pages(files, cfg))|
            && Count(UrlClose, lines) == |KeepFirst(Pages(files, cfg))|
  {
    KeptOneLine(files, cfg, finalUrls);
    XmlTextFrame(finalUrls);
    SameMultisetLength(finalUrls, KeepFirst(Pages(files, cfg)));
  }

  lemma KeptOneLine(files: seq<WalkedFile>, cfg: Config, finalUrls: seq<Entry>)
    requires NoLineBreaks(files, cfg)
    requires multiset(finalUrls) == multiset(KeepFirst(Pages(files, cfg)))
    ensures forall k :: 0 <= k < |finalUrls| ==> OneLine(finalUrls[k])
  {
    forall k | 0 <= k < |finalUrls| ensures OneLine(finalUrls[k]) {
      KeptArePages(files, cfg, finalUrls, finalUrls[k]);
      var i :| 0 <= i < |files| && Listed(files[i], cfg) && finalUrls[k] == PageEntry(files[i], cfg);
      PageEntryOneLine(files[i], cfg);
    }
  }

  /** The locations the walk collects are those of the listed pages. */
  lemma {:induction false} PagesLocs(files: seq<WalkedFile>, cfg: Config)
    ensures Locs(Pages(files, cfg)) ==
            set i | 0 <= i < |files| && Listed(files[i], cfg) :: PageEntry(files[i], cfg).loc
  {
    var pages := Pages(files, cfg);
    var want := set i | 0 <= i < |files| && Listed(files[i], cfg) :: PageEntry(files[i], cfg).loc;
    forall x | x in Locs(pages) ensures x in want {
      var e :| e in pages && e.loc == x;
      PagesMembers(files, cfg, e);
    }
    forall x | x in want ensures x in Locs(pages) {
      var i :| 0 <= i < |files| && Listed(files[i], cfg) && x == PageEntry(files[i], cfg).loc;
      PagesMembers(files, cfg, PageEntry(files[i], cfg));
    }
  }

  /** The sitemap lists one location for each URL some listed page maps
      to, and no other. */
  lemma {:induction false} SitemapLocations(files: seq<WalkedFile>, cfg: Config, finalUrls: seq<Entry>)
    requires multiset(finalUrls) == multiset(KeepFirst(Pages(files, cfg)))
    ensures Locs(finalUrls) ==
            set i | 0 <= i < |files| && Listed(files[i], cfg) :: PageEntry(files[i], cfg).loc
  {
    LocsPermutation(finalUrls, KeepFirst(Pages(files, cfg)));
    KeepFirstLocs(Pages(files, cfg));
    PagesLocs(files, cfg);
  }
}
