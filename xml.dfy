/** The sitemap document and the robots file: the lines of the XML the
    generator writes, one `<url>` block per entry in order, and the lines
    of `robots.txt` that point crawlers at the sitemap. */
module Xml {
  import opened Wrappers
  import opened Strings
  import opened Entries

  const Declaration := "<?xml version=\"1.0\" encoding=\"UTF-8\"?>"
  /** The sitemaps.org protocol namespace, version 0.9. */
  const Namespace := "http://www.sitemaps.org/schemas/sitemap/0.9"
  const UrlsetOpen := "<urlset xmlns=\"" + Namespace + "\">"
  const UrlsetClose := "</urlset>"
  const UrlOpen := "  <url>"
  const UrlClose := "  </url>"

  /** A JavaScript string value is truthy when it is present and not
      empty. */
  predicate Truthy(o: Option<string>) {
    o.Some? && o.value != ""
  }

  /** One field line of a `<url>` block, e.g. `    <loc>…</loc>`. */
  function Element(name: string, value: string): string {
    "    <" + name + ">" + value + "</" + name + ">"
  }

  /** The optional field lines of a block: present when the value is
      truthy. */
  function LastmodLines(e: Entry): seq<string> {
    if Truthy(e.lastmod) then [Element("lastmod", e.lastmod.value)] else []
  }

  function ChangefreqLines(e: Entry): seq<string> {
    if e.changefreq != "" then [Element("changefreq", e.changefreq)] else []
  }

  function PriorityLines(e: Entry): seq<string> {
    if e.priority != "" then [Element("priority", e.priority)] else []
  }

  /** The lines of one entry's block: its location always, its timestamp,
      change frequency and priority when they are truthy. */
  function UrlLines(e: Entry): (lines: seq<string>)
    ensures 3 <= |lines| <= 6
    ensures lines[0] == UrlOpen && lines[1] == Element("loc", e.loc) && lines[|lines| - 1] == UrlClose
  {
    [UrlOpen, Element("loc", e.loc)] + LastmodLines(e) + ChangefreqLines(e) + PriorityLines(e) + [UrlClose]
  }

  /** The blocks of all entries, in order. */
  function Body(es: seq<Entry>): seq<string> {
    if |es| == 0 then [] else Body(es[..|es| - 1]) + UrlLines(es[|es| - 1])
  }

  lemma BodySnoc(es: seq<Entry>, i: nat)
    requires i < |es|
    ensures Body(es[..i + 1]) == Body(es[..i]) + UrlLines(es[i])
  {
    assert es[..i + 1][..i] == es[..i];
  }

  lemma BlockLines(e: Entry, block: seq<string>)
    requires block == [UrlOpen, Element("loc", e.loc)] + LastmodLines(e) + ChangefreqLines(e) + PriorityLines(e) + [UrlClose]
    ensures block == UrlLines(e)
  {
  }

  /** The lines of the sitemap document. */
  function XmlLines(es: seq<Entry>): (lines: seq<string>)
    ensures |lines| >= 3
    ensures lines[0] == Declaration && lines[1] == UrlsetOpen && lines[|lines| - 1] == UrlsetClose
  {
    [Declaration, UrlsetOpen] + Body(es) + [UrlsetClose]
  }

  /** The sitemap document is built line by line, one block per entry, and
      its lines are joined with newlines. */
  method BuildXml(finalUrls: seq<Entry>) returns (xml: string)
    ensures xml == Join(XmlLines(finalUrls), '\n')
  {
    var xmlParts := [Declaration, UrlsetOpen];
    for i := 0 to |finalUrls|
      invariant xmlParts == [Declaration, UrlsetOpen] + Body(finalUrls[..i])
    {
      var u := finalUrls[i];
      var block := [UrlOpen, Element("loc", u.loc)];
      if Truthy(u.lastmod) {
        block := block + [Element("lastmod", u.lastmod.value)];
      }
      assert block == [UrlOpen, Element("loc", u.loc)] + LastmodLines(u);
      if u.changefreq != "" {
        block := block + [Element("changefreq", u.changefreq)];
      }
      assert block == [UrlOpen, Element("loc", u.loc)] + LastmodLines(u) + ChangefreqLines(u);
      if u.priority != "" {
        block := block + [Element("priority", u.priority)];
      }
      assert block == [UrlOpen, Element("loc", u.loc)] + LastmodLines(u) + ChangefreqLines(u) + PriorityLines(u);
      block := block + [UrlClose];
      BlockLines(u, block);
      BodySnoc(finalUrls, i);
      AppendAssoc([Declaration, UrlsetOpen], Body(finalUrls[..i]), block);
      xmlParts := xmlParts + block;
    }
    TakeAll(finalUrls);
    xmlParts := xmlParts + [UrlsetClose];
    xml := Join(xmlParts, '\n');
  }

  /** The names of the fields a block can hold. */
  predicate IsFieldName(name: string) {
    name in ["loc", "lastmod", "changefreq", "priority"]
  }

  /** The value a line holds for the field `name`, read back: what lies
      between `    <name>` and `</name>`. */
  function FieldOf(name: string, line: string): Option<string> {
    var open, close := "    <" + name + ">", "</" + name + ">";
    if |line| >= |open| + |close| && StartsWith(line, open) && EndsWith(line, close)
    then Some(line[|open|..|line| - |close|])
    else None
  }

  /** The values of field `name` that the lines hold, in order. */
  function ExtractField(name: string, lines: seq<string>): seq<string> {
    if |lines| == 0 then []
    else ExtractField(name, lines[..|lines| - 1]) + FieldOf(name, lines[|lines| - 1]).ToSeq()
  }

  /** What an entry's block writes for field `name`. */
  function FieldValue(name: string, e: Entry): Option<string> {
    if name == "loc" then Some(e.loc)
    else if name == "lastmod" then (if Truthy(e.lastmod) then e.lastmod else None)
    else if name == "changefreq" then (if e.changefreq != "" then Some(e.changefreq) else None)
    else if name == "priority" then (if e.priority != "" then Some(e.priority) else None)
    else None
  }

  /** The values the entries' blocks write for field `name`, in order. */
  function FieldColumn(name: string, es: seq<Entry>): seq<string> {
    if |es| == 0 then []
    else FieldColumn(name, es[..|es| - 1]) + FieldValue(name, es[|es| - 1]).ToSeq()
  }

  lemma {:induction false} ExtractFieldAppend(name: string, a: seq<string>, b: seq<string>)
    ensures ExtractField(name, a + b) == ExtractField(name, a) + ExtractField(name, b)
    decreases |b|
  {
    if |b| > 0 {
      var n := |b| - 1;
      assert (a + b)[..|a + b| - 1] == a + b[..n];
      assert (a + b)[|a + b| - 1] == b[n];
      ExtractFieldAppend(name, a, b[..n]);
      assert ExtractField(name, b) == ExtractField(name, b[..n]) + FieldOf(name, b[n]).ToSeq();
    } else {
      assert a + b == a;
    }
  }

  lemma ExtractFieldOne(name: string, line: string)
    ensures ExtractField(name, [line]) == FieldOf(name, line).ToSeq()
  {
    assert [line][..0] == [];
  }

  /** A field line reads back as its own value ... */
  lemma {:induction false} FieldOfElement(name: string, value: string)
    ensures FieldOf(name, Element(name, value)) == Some(value)
  {
    var open, close := "    <" + name + ">", "</" + name + ">";
    var line := Element(name, value);
    assert line == open + value + close;
    assert line[..|open|] == open;
    assert line[|line| - |close|..] == close;
    assert line[|open|..|line| - |close|] == value;
  }

  /** ... and as nothing for another field ... */
  lemma {:induction false} FieldOfOtherElement(name: string, other: string, value: string)
    requires IsFieldName(name) && IsFieldName(other) && name != other
    ensures FieldOf(name, Element(other, value)) == None
  {
    var k := if name[0] != other[0] then 0 else 1;
    assert name[k] != other[k];
    var open := "    <" + name + ">";
    assert open[5 + k] == name[k];
    assert Element(other, value)[5 + k] == other[k];
  }

  /** ... and the lines around the fields read as no field at all. */
  lemma {:induction false} FieldOfFrame(name: string, line: string)
    requires line in [Declaration, UrlsetOpen, UrlsetClose, UrlOpen, UrlClose]
    ensures FieldOf(name, line) == None
  {
    var open := "    <" + name + ">";
    assert open[0] == ' ' && open[2] == ' ';
    if line == UrlOpen || line == UrlClose {
      assert line[2] == '<';
    } else {
      assert line[0] == '<';
    }
    if |line| >= |open| {
      assert line[..|open|][0] == line[0] && line[..|open|][2] == line[2];
    }
  }

  lemma DeclarationOneLine()
    ensures '\n' !in Declaration
  {
  }

  lemma NamespaceOneLine()
    ensures '\n' !in Namespace
  {
  }

  /** The lines around the fields hold no line break. */
  lemma FrameOneLine(line: string)
    requires line in [Declaration, UrlsetOpen, UrlsetClose, UrlOpen, UrlClose]
    ensures '\n' !in line
  {
    if line == Declaration {
      DeclarationOneLine();
    } else if line == UrlsetOpen {
      NamespaceOneLine();
    }
  }

  /** An optional field line reads back as its value for its own field
      and as nothing for the others. */
  lemma OptionalField(name: string, other: string, lines: seq<string>, value: string)
    requires IsFieldName(name) && IsFieldName(other)
    requires lines == [] || lines == [Element(other, value)]
    ensures ExtractField(name, lines) == if lines != [] && name == other then [value] else []
  {
    if lines != [] {
      OneField(name, other, value);
    }
  }

  /** Appending an optional field line adds its value to that field's
      column and nothing to the others. */
  lemma AppendOptional(name: string, xs: seq<string>, other: string, lines: seq<string>, value: string)
    requires IsFieldName(name) && IsFieldName(other)
    requires lines == [] || lines == [Element(other, value)]
    ensures ExtractField(name, xs + lines) ==
            ExtractField(name, xs) + (if lines != [] && name == other then [value] else [])
  {
    ExtractFieldAppend(name, xs, lines);
    OptionalField(name, other, lines, value);
  }

  /** An entry's block holds exactly the entry's value of each field. */
  lemma {:induction false} FieldsOfBlock(name: string, e: Entry)
    requires IsFieldName(name)
    ensures ExtractField(name, UrlLines(e)) == FieldValue(name, e).ToSeq()
  {
    var lm, cf, pr := LastmodLines(e), ChangefreqLines(e), PriorityLines(e);
    var m1 := [Element("loc", e.loc)];
    var m2 := m1 + lm;
    var m3 := m2 + cf;
    var m4 := m3 + pr;
    assert UrlLines(e) == [UrlOpen] + m4 + [UrlClose];
    FieldOfFrame(name, UrlOpen);
    FieldOfFrame(name, UrlClose);
    ExtractFieldFramed(name, UrlOpen, m4, UrlClose);
    FieldsOfElements(name, e);
    FieldValueColumns(name, e);
  }

  /** The element lines of `e`'s block, between its `<url>` tags, hold
      one part of the field's column each. */
  lemma {:induction false} FieldsOfElements(name: string, e: Entry)
    requires IsFieldName(name)
    ensures ExtractField(name, [Element("loc", e.loc)] + LastmodLines(e) + ChangefreqLines(e) + PriorityLines(e))
            == ColumnsOf(name, e)
  {
    var lm, cf, pr := LastmodLines(e), ChangefreqLines(e), PriorityLines(e);
    var m1 := [Element("loc", e.loc)];
    var m2 := m1 + lm;
    var m3 := m2 + cf;
    var m4 := m3 + pr;
    OptionalField(name, "loc", m1, e.loc);
    AppendOptional(name, m1, "lastmod", lm, e.lastmod.GetOr(""));
    AppendOptional(name, m2, "changefreq", cf, e.changefreq);
    AppendOptional(name, m3, "priority", pr, e.priority);
  }

  /** Lines that hold no field around a block leave its fields as they
      are. */
  lemma ExtractFieldFramed(name: string, a: string, mid: seq<string>, b: string)
    requires FieldOf(name, a).None? && FieldOf(name, b).None?
    ensures ExtractField(name, [a] + mid + [b]) == ExtractField(name, mid)
  {
    ExtractFieldAppend(name, [a] + mid, [b]);
    ExtractFieldAppend(name, [a], mid);
    ExtractFieldOne(name, a);
    ExtractFieldOne(name, b);
    assert ExtractField(name, mid) + [] == ExtractField(name, mid);
  }

  /** What the four field lines of `e`'s block hold for field `name`, one
      part per line. */
  function ColumnsOf(name: string, e: Entry): seq<string> {
    (if name == "loc" then [e.loc] else [])
    + (if LastmodLines(e) != [] && name == "lastmod" then [e.lastmod.GetOr("")] else [])
    + (if ChangefreqLines(e) != [] && name == "changefreq" then [e.changefreq] else [])
    + (if PriorityLines(e) != [] && name == "priority" then [e.priority] else [])
  }

  lemma FieldValueColumns(name: string, e: Entry)
    requires IsFieldName(name)
    ensures ColumnsOf(name, e) == FieldValue(name, e).ToSeq()
  {
    if name == "loc" {
      assert ColumnsOf(name, e) == [e.loc];
    } else if name == "lastmod" {
      assert ColumnsOf(name, e) == if Truthy(e.lastmod) then [e.lastmod.value] else [];
    } else if name == "changefreq" {
      assert ColumnsOf(name, e) == if e.changefreq != "" then [e.changefreq] else [];
    } else {
      assert ColumnsOf(name, e) == if e.priority != "" then [e.priority] else [];
    }
  }

  lemma OneField(name: string, other: string, value: string)
    requires IsFieldName(name) && IsFieldName(other)
    ensures ExtractField(name, [Element(other, value)]) ==
            if name == other then [value] else []
  {
    ExtractFieldOne(name, Element(other, value));
    if name == other {
      FieldOfElement(name, value);
    } else {
      FieldOfOtherElement(name, other, value);
    }
  }

  /** Reading field `name` back from the sitemap's lines gives the entries'
      values of that field, in the entries' order, and nothing else. */
  lemma {:induction false} FieldsOfBody(name: string, es: seq<Entry>)
    requires IsFieldName(name)
    ensures ExtractField(name, Body(es)) == FieldColumn(name, es)
    decreases |es|
  {
    if |es| > 0 {
      var n := |es| - 1;
      FieldsOfBody(name, es[..n]);
      ExtractFieldAppend(name, Body(es[..n]), UrlLines(es[n]));
      FieldsOfBlock(name, es[n]);
    }
  }

  lemma {:induction false} FieldsOfXml(name: string, es: seq<Entry>)
    requires IsFieldName(name)
    ensures ExtractField(name, XmlLines(es)) == FieldColumn(name, es)
  {
    ExtractFieldAppend(name, [Declaration, UrlsetOpen] + Body(es), [UrlsetClose]);
    ExtractFieldAppend(name, [Declaration, UrlsetOpen], Body(es));
    ExtractFieldAppend(name, [Declaration], [UrlsetOpen]);
    assert [Declaration] + [UrlsetOpen] == [Declaration, UrlsetOpen];
    ExtractFieldOne(name, Declaration);
    ExtractFieldOne(name, UrlsetOpen);
    ExtractFieldOne(name, UrlsetClose);
    FieldOfFrame(name, Declaration);
    FieldOfFrame(name, UrlsetOpen);
    FieldOfFrame(name, UrlsetClose);
    FieldsOfBody(name, es);
  }

  /** Every entry's location is listed, in order: the `loc` column is the
      sequence of locations. */
  lemma {:induction false} LocColumn(es: seq<Entry>)
    ensures FieldColumn("loc", es) == seq(|es|, i requires 0 <= i < |es| => es[i].loc)
    decreases |es|
  {
    if |es| > 0 {
      var n := |es| - 1;
      LocColumn(es[..n]);
    }
  }

  /** The sitemap's `<loc>` lines, read back, are the entries' locations in
      order. */
  lemma SitemapLocs(es: seq<Entry>)
    ensures ExtractField("loc", XmlLines(es)) == seq(|es|, i requires 0 <= i < |es| => es[i].loc)
  {
    FieldsOfXml("loc", es);
    LocColumn(es);
  }

  /** How many of `lines` are exactly `line`. */
  function Count(line: string, lines: seq<string>): nat {
    if |lines| == 0 then 0
    else Count(line, lines[..|lines| - 1]) + (if lines[|lines| - 1] == line then 1 else 0)
  }

  lemma {:induction false} CountAppend(line: string, a: seq<string>, b: seq<string>)
    ensures Count(line, a + b) == Count(line, a) + Count(line, b)
    decreases |b|
  {
    if |b| > 0 {
      var n := |b| - 1;
      CountAppend(line, a, b[..n]);
      assert (a + b)[..|a + b| - 1] == a + b[..n];
    } else {
      assert a + b == a;
    }
  }

  lemma CountOne(line: string, l: string)
    ensures Count(line, [l]) == if l == line then 1 else 0
  {
    assert [l][..0] == [];
  }

  /** A field line is neither `<url>` nor `</url>`. */
  lemma {:induction false} ElementNotTag(name: string, value: string, tag: string)
    requires tag == UrlOpen || tag == UrlClose
    ensures Element(name, value) != tag
  {
    assert Element(name, value)[2] == ' ';
    assert tag[2] == '<';
  }

  /** An optional field line adds no tag line. */
  lemma CountOptional(tag: string, xs: seq<string>, other: string, lines: seq<string>, value: string)
    requires tag == UrlOpen || tag == UrlClose
    requires lines == [] || lines == [Element(other, value)]
    ensures Count(tag, xs + lines) == Count(tag, xs)
  {
    CountAppend(tag, xs, lines);
    if lines != [] {
      ElementNotTag(other, value, tag);
      CountOne(tag, Element(other, value));
    }
  }

  /** A block is `<url>`, its field lines and `</url>`. */
  lemma BlockParts(e: Entry)
    ensures UrlLines(e) ==
            [UrlOpen] + ((([Element("loc", e.loc)] + LastmodLines(e)) + ChangefreqLines(e)) + PriorityLines(e)) + [UrlClose]
  {
  }

  /** Each block opens and closes exactly once. */
  lemma {:induction false} BlockTags(tag: string, e: Entry)
    requires tag == UrlOpen || tag == UrlClose
    ensures Count(tag, UrlLines(e)) == 1
  {
    var lm, cf, pr := LastmodLines(e), ChangefreqLines(e), PriorityLines(e);
    var m1 := [Element("loc", e.loc)];
    var m2 := m1 + lm;
    var m3 := m2 + cf;
    var m4 := m3 + pr;
    BlockParts(e);
    ElementNotTag("loc", e.loc, tag);
    CountOne(tag, Element("loc", e.loc));
    CountOptional(tag, m1, "lastmod", lm, e.lastmod.GetOr(""));
    CountOptional(tag, m2, "changefreq", cf, e.changefreq);
    CountOptional(tag, m3, "priority", pr, e.priority);
    CountAppend(tag, [UrlOpen] + m4, [UrlClose]);
    CountAppend(tag, [UrlOpen], m4);
    CountOne(tag, UrlOpen);
    CountOne(tag, UrlClose);
    assert |UrlOpen| != |UrlClose|;
  }

  lemma {:induction false} BodyTags(tag: string, es: seq<Entry>)
    requires tag == UrlOpen || tag == UrlClose
    ensures Count(tag, Body(es)) == |es|
    decreases |es|
  {
    if |es| > 0 {
      var n := |es| - 1;
      BodyTags(tag, es[..n]);
      CountAppend(tag, Body(es[..n]), UrlLines(es[n]));
      BlockTags(tag, es[n]);
    }
  }

  /** The sitemap has one `<url>` and one `</url>` line per entry. */
  lemma {:induction false} XmlTags(tag: string, es: seq<Entry>)
    requires tag == UrlOpen || tag == UrlClose
    ensures Count(tag, XmlLines(es)) == |es|
  {
    CountAppend(tag, [Declaration, UrlsetOpen] + Body(es), [UrlsetClose]);
    CountAppend(tag, [Declaration, UrlsetOpen], Body(es));
    CountAppend(tag, [Declaration], [UrlsetOpen]);
    assert [Declaration] + [UrlsetOpen] == [Declaration, UrlsetOpen];
    CountOne(tag, Declaration);
    CountOne(tag, UrlsetOpen);
    CountOne(tag, UrlsetClose);
    assert |Declaration| > 8 && |UrlsetOpen| > 8 && |UrlsetClose| > 8;
    BodyTags(tag, es);
  }

  /** No field of the entry holds a line break. */
  predicate OneLine(e: Entry) {
    && '\n' !in e.loc && '\n' !in e.changefreq && '\n' !in e.priority
    && (e.lastmod.Some? ==> '\n' !in e.lastmod.value)
  }

  lemma {:induction false} ElementOneLine(name: string, value: string)
    requires IsFieldName(name) && '\n' !in value
    ensures '\n' !in Element(name, value)
  {
  }

  lemma {:induction false} BodyOneLine(es: seq<Entry>)
    requires forall i :: 0 <= i < |es| ==> OneLine(es[i])
    ensures forall k :: 0 <= k < |Body(es)| ==> '\n' !in Body(es)[k]
    decreases |es|
  {
    if |es| > 0 {
      var n := |es| - 1;
      BodyOneLine(es[..n]);
      var e := es[n];
      ElementOneLine("loc", e.loc);
      if Truthy(e.lastmod) {
        ElementOneLine("lastmod", e.lastmod.value);
      }
      if e.changefreq != "" {
        ElementOneLine("changefreq", e.changefreq);
      }
      if e.priority != "" {
        ElementOneLine("priority", e.priority);
      }
    }
  }

  /** When no field holds a line break, the written text splits back into
      exactly the sitemap's lines. */
  lemma {:induction false} XmlTextLines(es: seq<Entry>)
    requires forall i :: 0 <= i < |es| ==> OneLine(es[i])
    ensures Split(Join(XmlLines(es), '\n'), '\n') == XmlLines(es)
  {
    BodyOneLine(es);
    var lines := XmlLines(es);
    forall k | 0 <= k < |lines| ensures '\n' !in lines[k] {
      if 2 <= k < |lines| - 1 {
        assert lines[k] == Body(es)[k - 2];
      } else {
        FrameOneLine(lines[k]);
      }
    }
    JoinSplit(lines, '\n');
  }

  /** Read back line by line, the sitemap text starts with the XML
      declaration and the `<urlset>` tag, ends with `</urlset>`, and has one
      `<url>` block per entry. */
  lemma {:induction false} XmlTextFrame(es: seq<Entry>)
    requires forall i :: 0 <= i < |es| ==> OneLine(es[i])
    ensures var lines := Split(Join(XmlLines(es), '\n'), '\n');
            && lines[0] == Declaration && lines[1] == UrlsetOpen
            && lines[|lines| - 1] == UrlsetClose
            && Count(UrlOpen, lines) == |es| && Count(UrlClose, lines) == |es|
  {
    XmlTextLines(es);
    XmlTags(UrlOpen, es);
    XmlTags(UrlClose, es);
  }

  /** The lines of `robots.txt`: every crawler allowed everywhere, and the
      sitemap's URL, the trimmed domain followed by the sitemap's file
      name. */
  function RobotsLines(domain: string, sitemapName: string): seq<string> {
    ["User-agent: *", "Allow: /", "", "Sitemap: " + TrimDomain(domain) + "/" + sitemapName]
  }

  function RobotsText(domain: string, sitemapName: string): string {
    Join(RobotsLines(domain, sitemapName), '\n')
  }

  /** `robots.txt` splits back into its four lines, the last naming the
      sitemap, when the domain and file name hold no line break. */
  lemma {:induction false} RobotsTextLines(domain: string, sitemapName: string)
    requires '\n' !in domain && '\n' !in sitemapName
    ensures Split(RobotsText(domain, sitemapName), '\n') == RobotsLines(domain, sitemapName)
    ensures var last := Split(RobotsText(domain, sitemapName), '\n')[3];
            StartsWith(last, "Sitemap: ") && last[9..] == TrimDomain(domain) + "/" + sitemapName
  {
    var lines := RobotsLines(domain, sitemapName);
    var d := TrimDomain(domain);
    assert '\n' !in d by {
      assert forall l :: 0 <= l < |d| ==> d[l] == domain[l];
    }
    SitemapLine(d, sitemapName);
    RobotsHeadFree();
    assert forall i :: 0 <= i < |lines| ==> '\n' !in lines[i];
    JoinSplit(lines, '\n');
  }

  lemma RobotsHeadFree()
    ensures '\n' !in "User-agent: *" && '\n' !in "Allow: /" && '\n' !in ""
  {
  }

  /** The robots file's last line: `Sitemap: ` and the sitemap's URL. */
  lemma SitemapLine(d: string, name: string)
    requires '\n' !in d && '\n' !in name
    ensures var line := "Sitemap: " + d + "/" + name;
            '\n' !in line && StartsWith(line, "Sitemap: ") && line[9..] == d + "/" + name
  {
    var line := "Sitemap: " + d + "/" + name;
    assert line == "Sitemap: " + (d + "/" + name);
    assert '\n' !in "Sitemap: " && '\n' !in "/";
  }
}
