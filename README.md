# Sitemap generator model

A Dafny model of the site's build-time sitemap generator,
`scripts/generate-sitemap.js`. It makes one pass over the site's directory
tree and produces `sitemap.xml`, plus an optional `robots.txt`. The model
takes over once the directory walk has listed its files. It covers:

- **Walk pruning.** A hidden entry, or one whose relative path has a segment
  on the exclusion list, is skipped together with its whole subtree
  (`Paths.WalkVisits`).
- **Page filter.** The walk callback keeps a file whose extension, lower-cased,
  is `.html` and whose lower-cased name starts with neither `_` nor `.`
  (`Paths.IsPage`).
- **URL paths.** `toUrlPath` turns a relative path into a URL path
  (`Paths.ToUrlPath`). It does four things in order:
  - turns separators into `/`;
  - drops everything from the first `?` or `#`;
  - lists an `index.html` under its directory;
  - lists any other `.html` file under its own name, and anything else as a
    directory.
- **Metadata.** `heuristicsForUrl` is a first-match prefix table
  (`Heuristics.HeuristicsForUrl`). It is merged field by field with the
  configuration file's override for the exact URL path, and JavaScript's `||`
  lets a missing or empty override value fall back (`Heuristics.Resolve`).
- **Entries.** Each page's entry has the domain (less one trailing slash)
  followed by the URL path as its location (`Entries.PageEntry`). The walk
  callback pushes an entry exactly for the files the walk reaches that pass
  the page filter (`Entries.EntryFor`), in walk order (`Entries.Collect`,
  specified by `Entries.Pages`).
- **De-duplication.** A loop with a set of seen locations keeps the first
  entry of each location (`Dedup.RemoveDuplicates`, specified by
  `Dedup.KeepFirst`).
- **Sorting.** The entries are sorted in place on an array: by priority
  descending, then by location (`Ordering.SortEntries`, comparator
  `Ordering.Compare`). Each pass moves one entry down into place
  (`Ordering.InsertDown`) by adjacent swaps (`Ordering.SwapDown`).
- **Serialisation.** The XML is built as a list of lines, one `<url>` block per
  entry, with the optional fields written only when truthy, and the lines are
  joined with newlines (`Xml.BuildXml`). The `robots.txt` text points at the
  sitemap (`Xml.RobotsText`).
- **Whole run.** `Generator.Generate` chains these steps. The order in which
  the walk lists the files does not change the sitemap's locations, change
  frequencies, priorities or their order (`Generator.WalkOrderIrrelevant`).
  It can change only which of several files with the same location is kept.

Two quirks of the code are kept and stated as lemmas:

- **Misnamed index.** The `index.html` test is a plain suffix test, so
  `blog/myindex.html` is listed as `/blog/my/` (`Paths.UrlForMisnamedIndex`).
  Serving that URL finds a different file (`Paths.UrlForPathRoundTrip`).
- **Upper-case extension.** The page filter ignores letter case, but the
  `.html` test in `toUrlPath` does not. So `Foo.HTML` is a page
  (`Paths.IsPageIff`) that is listed as the directory `/Foo.HTML/`
  (`Paths.ToUrlPathOtherFile`).

The XML writer escapes nothing. The model writes field values verbatim, as
the code does.

The walk is an input: the sequence of files under the scanned directory in
the order the depth-first walk lists them. Each file carries its relative
path and the optional text of its modification time. The platform separator
(`path.sep`), the domain, the exclusion list and the overrides are a
`Config` value. JavaScript's `split` and `join` on a one-character
separator are `Strings.Split` and `Strings.Join`, with round-trip lemmas.
The same two functions serve for path segments and for the lines of the
written files, so the read-back lemmas recover the blocks and field values
from the text itself.

Source files: `Strings`, `Wrappers` (generic helpers), `Paths`, `Heuristics`,
`Entries`, `Dedup`, `Ordering`, `Xml`, `Generator`, one module per `.dfy`
file of the same name.

## Model

| member | source | states |
|---|---|---|
| Strings.SplitJoin | scripts/generate-sitemap.js:73-74 | splitting a path on the separator and joining the pieces with it again gives back the path, so a file's relative path is the join of the names the walk met on the way down |
| Strings.SplitJoinReplaces | scripts/generate-sitemap.js:96 | `split(sep).join('/')` replaces every separator by `/` and changes nothing else |
| Strings.SplitPieceIsSegment | scripts/generate-sitemap.js:63 | every piece `split` returns is a whole separator-delimited segment of the input |
| Strings.SegmentIsSplitPiece | scripts/generate-sitemap.js:63 | every separator-delimited segment of the input is among the pieces `split` returns |
| Strings.JoinSplit | scripts/generate-sitemap.js:243 | lines that hold no newline, joined with newlines, split back into the same lines |
| Strings.LexTotal | scripts/generate-sitemap.js:223 | two different locations are always ordered one way or the other |
| Strings.LexTransitive | scripts/generate-sitemap.js:223 | the location order is transitive |
| Strings.LexAsymmetric | scripts/generate-sitemap.js:223 | the location order is asymmetric |
| Paths.IsHidden | scripts/generate-sitemap.js:57-59 | defines `isHidden`: a name is hidden exactly when it starts with `.`; what this means for the walk is stated by `Paths.WalkVisitsIff` and `Entries.HiddenNotListed` |
| Paths.ShouldExclude | scripts/generate-sitemap.js:61-68 | defines `shouldExclude`: some piece of the path split on the separator is an excluded name; `Paths.ShouldExcludeIff` restates it as "some whole segment is excluded" |
| Paths.WalkVisits | scripts/generate-sitemap.js:70-84 | defines when `walkDir` reaches a file: every entry on the way down, directories then the file, has a name that is not hidden and a relative path that is not excluded; `Paths.WalkVisitsIff` gives the equivalent condition on the file's own path |
| Paths.ShouldExcludeIff | scripts/generate-sitemap.js:61-68 | `shouldExclude(rel)` holds exactly when some whole segment of `rel` is an excluded name |
| Paths.EntryPathExcluded | scripts/generate-sitemap.js:74-76 | the relative path of an entry met on the way down is excluded exactly when one of its segments so far is on the list |
| Paths.WalkVisitsIff | scripts/generate-sitemap.js:70-84 | the walk reaches a file exactly when no segment of its path is hidden and the whole path is not excluded |
| Paths.Basename | scripts/generate-sitemap.js:183 | `path.basename` of a path that does not end in a separator, as no walked file path does, is its last segment, which holds no separator |
| Paths.Extname | scripts/generate-sitemap.js:176 | `path.extname` is empty, or a suffix of the name shorter than the name, starting with its only `.` |
| Paths.IsPage | scripts/generate-sitemap.js:176-184 | defines the callback's filter: the lower-cased extension is `.html` and the lower-cased name starts with neither `_` nor `.`; `Paths.IsPageIff` spells it out |
| Paths.IsPageIff | scripts/generate-sitemap.js:176-184 | a file is a page exactly when its name is longer than `.html`, ends in `.html` in any letter case, and starts with neither `_` nor `.` |
| Paths.ToUrlPath | scripts/generate-sitemap.js:94-121 | every URL path starts with `/` |
| Paths.ToUrlPathSeparator | scripts/generate-sitemap.js:96 | the URL path is the same as for the path with every separator turned into `/`, so it does not depend on the platform |
| Paths.StripQuery | scripts/generate-sitemap.js:99 | the stripped path holds neither `?` nor `#` and is a prefix of the path |
| Paths.StripQueryCut | scripts/generate-sitemap.js:99 | everything from the first `?` or `#` is dropped |
| Paths.ToUrlPathIgnoresQuery | scripts/generate-sitemap.js:96-99 | a relative path followed by `?` or `#` and anything else has the URL path of the part before it |
| Paths.UrlHasNoQuery | scripts/generate-sitemap.js:94-121 | a URL path never holds `?` or `#` |
| Paths.UrlForPath | scripts/generate-sitemap.js:101-120 | every URL path made from a normalised path starts with `/` |
| Paths.UrlForPathTrailingSlash | scripts/generate-sitemap.js:102-120 | the URL path ends in `/` exactly when the path is not an `.html` file other than an `index.html` |
| Paths.ToUrlPathTrailingSlash | scripts/generate-sitemap.js:102-120 | the same, stated on `toUrlPath` of a relative path |
| Paths.UrlForIndexPage | scripts/generate-sitemap.js:102-108 | an `index.html` in a directory is listed as `/` followed by the directory, and the top-level one as `/` |
| Paths.ToUrlPathIndexPage | scripts/generate-sitemap.js:89-108 | `index.html` gives `/`, and `about/index.html` gives `/about/` (in general `dir/index.html` gives `/dir/`) |
| Paths.UrlForPlainPage | scripts/generate-sitemap.js:112-115 | any other `.html` path is listed with a leading slash and its suffix kept |
| Paths.ToUrlPathPlainPage | scripts/generate-sitemap.js:111-115 | `foo.html` gives `/foo.html`: a page that is not an `index.html` is listed under `/` followed by its path |
| Paths.UrlForOtherPath | scripts/generate-sitemap.js:117-120 | a path that does not end in `.html` gets one leading and one trailing slash |
| Paths.ToUrlPathOtherFile | scripts/generate-sitemap.js:112-120 | any other file, `Foo.HTML` among them, is listed as the directory `/` + path + `/` |
| Paths.UrlForMisnamedIndex | scripts/generate-sitemap.js:102-105 | a name that merely ends in `index.html` loses that ending: `blog/myindex.html` gives `/blog/my/` |
| Paths.UrlForPathRoundTrip | scripts/generate-sitemap.js:86-115 | the file a server finds for a page's URL is the page itself, exactly when the page is not a misnamed `…index.html` |
| Paths.RoundTripPlain | scripts/generate-sitemap.js:112-115 | serving a plain page's URL finds that page |
| Paths.RoundTripIndex | scripts/generate-sitemap.js:102-108 | serving an index page's URL finds that index page |
| Paths.RoundTripMisnamed | scripts/generate-sitemap.js:102-105 | serving a misnamed index's URL finds a different file |
| Paths.ToUrlPathRoundTrip | scripts/generate-sitemap.js:94-115 | the round trip, stated on `toUrlPath` of a relative path |
| Paths.NormalisedPlain | scripts/generate-sitemap.js:96-99 | without `?` or `#`, normalising only turns separators into `/` |
| Paths.ToUrlPathChars | scripts/generate-sitemap.js:94-121 | `toUrlPath` only adds slashes: every other character of the URL path comes from the relative path |
| Paths.UrlForPathChars | scripts/generate-sitemap.js:101-120 | the same, stated on the normalised path |
| Heuristics.HeuristicsForUrl | scripts/generate-sitemap.js:124-147 | the default change frequency is one the sitemap protocol allows |
| Heuristics.HeuristicPriority | scripts/generate-sitemap.js:124-147 | every default priority is a plain decimal between 0.5 and 1.0, and it is 1.0 exactly for the home page (`/` or empty) |
| Heuristics.HeuristicsBySection | scripts/generate-sitemap.js:129-144 | the rules look at no more than the first seven characters, so all pages of a section share its values |
| Heuristics.ParseDecimal | scripts/generate-sitemap.js:221 | the number a priority reads as is never negative; which priorities read as which numbers is stated by `Heuristics.ParseDecimalValue`, `Heuristics.ParseDecimalWhole` and `Heuristics.ParseDecimalForms` |
| Heuristics.FractionValueDigits | scripts/generate-sitemap.js:221 | the digits after a point denote their whole-number value over ten to the power of their count |
| Heuristics.ParseDecimalValue | scripts/generate-sitemap.js:221 | a priority `w.f` with `w` and `f` digit strings, at least one of them non-empty, reads as `w` plus `f` over ten to the power of the number of digits in `f`, for every such `w` and `f` |
| Heuristics.ParseDecimalWhole | scripts/generate-sitemap.js:221 | a priority of digits alone reads as the whole number they denote |
| Heuristics.ParseDecimalForms | scripts/generate-sitemap.js:221 | a priority reads as a number only when it is one or more digits alone, or digits, one point and digits with at least one digit in all |
| Heuristics.ParseDecimalExample | scripts/generate-sitemap.js:221 | an override priority `0.95` reads as 0.95 |
| Heuristics.ParseTenths | scripts/generate-sitemap.js:221 | a priority of the form `d.d` reads as the number it denotes |
| Heuristics.Pick | scripts/generate-sitemap.js:198-199 | defines JavaScript's `value || fallback` on one override field; what the merge does with it is stated by `Heuristics.ResolveFieldwise` |
| Heuristics.Resolve | scripts/generate-sitemap.js:196-199 | a URL path without an override gets exactly the default values, and no resolved value is empty |
| Heuristics.ResolveFieldwise | scripts/generate-sitemap.js:197-199 | an override replaces only the fields it sets to a non-empty value, and a field it leaves out or sets to the empty string keeps the default |
| Heuristics.ResolvedPriorityParses | scripts/generate-sitemap.js:196-199 | a URL path whose override sets no priority gets a priority that reads as a number |
| Entries.TrimDomain | scripts/generate-sitemap.js:203 | the domain loses its trailing slash exactly when it has one, and nothing else |
| Entries.PageEntry | scripts/generate-sitemap.js:195-205 | the location is the trimmed domain, `/`, then the rest of the page's URL path, with no query or fragment; the change frequency and priority are those resolved for that URL path; the timestamp and path are the file's |
| Entries.EntryFor | scripts/generate-sitemap.js:175-205 | the callback pushes an entry exactly when no name on the path is hidden, no segment of the path is excluded, and the name is longer than `.html`, ends in `.html` in any letter case and starts with neither `_` nor `.`; the entry pushed is the page's |
| Entries.ExcludedNotListed | scripts/generate-sitemap.js:61-76 | a file with an excluded segment anywhere in its path is never listed |
| Entries.HiddenNotListed | scripts/generate-sitemap.js:57-75 | a file with a hidden segment anywhere in its path is never listed |
| Entries.Pages | scripts/generate-sitemap.js:172-207 | the walk collects at most one entry per file; `Entries.PagesMembers` and `Entries.PagesSnoc` say which entries and in what order |
| Entries.PagesMembers | scripts/generate-sitemap.js:175-207 | the collected entries are exactly the entries of the listed files |
| Entries.PagesSnoc | scripts/generate-sitemap.js:205 | one more file adds its entry, if any, at the end |
| Entries.Collect | scripts/generate-sitemap.js:172-207 | the walk callback's pushes give the listed pages' entries in walk order |
| Dedup.KeepFirst | scripts/generate-sitemap.js:209-217 | the first-occurrence list is no longer than its input; `Dedup.KeepFirstLocs`, `Dedup.KeepFirstDistinct`, `Dedup.KeepFirstMembers` and `Dedup.KeepFirstOrder` state what it keeps |
| Dedup.IsFirstIff | scripts/generate-sitemap.js:213-215 | an entry is kept exactly when its location has not been seen before |
| Dedup.KeepFirstLocs | scripts/generate-sitemap.js:209-217 | every input location appears in the output |
| Dedup.KeepFirstDistinct | scripts/generate-sitemap.js:209-217 | the output holds each location at most once |
| Dedup.KeepFirstMembers | scripts/generate-sitemap.js:209-217 | an entry is kept exactly when it is the first entry with its location |
| Dedup.KeepFirstOrder | scripts/generate-sitemap.js:212-216 | kept entries stay in their input order |
| Dedup.KeepFirstDistinctUnchanged | scripts/generate-sitemap.js:209-217 | entries whose locations are already distinct are all kept, in order |
| Dedup.KeepFirstIdempotent | scripts/generate-sitemap.js:209-217 | de-duplicating twice drops nothing more |
| Dedup.DistinctLocsPermutation | scripts/generate-sitemap.js:220 | reordering distinct-location entries keeps their locations distinct |
| Dedup.LocsPermutation | scripts/generate-sitemap.js:220 | reordering entries keeps their set of locations |
| Dedup.RemoveDuplicates | scripts/generate-sitemap.js:210-217 | the loop with the set of seen locations computes the first-occurrence list |
| Ordering.Key | scripts/generate-sitemap.js:221 | defines the sort key, `parseFloat(priority)` taken as an exact value; its value is stated by `Ordering.KeyValue` and `Ordering.KeyOfDefault` |
| Ordering.KeyValue | scripts/generate-sitemap.js:221 | an entry whose priority is `w.f` of digits sorts by `w` plus `f` over ten to the power of the number of digits in `f` (rounding to a double is not modelled) |
| Ordering.KeyOfDefault | scripts/generate-sitemap.js:221 | an entry with a default priority sorts by a value in [0.5, 1.0], which is 1.0 exactly for the home page |
| Ordering.Compare | scripts/generate-sitemap.js:220-224 | defines the comparator, `pb - pa` when the keys differ and the location order otherwise; `Ordering.CompareSign` states its sign |
| Ordering.CompareSign | scripts/generate-sitemap.js:220-224 | the comparator is negative exactly when `a` has the higher priority, or the same priority and the smaller location; zero exactly for equal priority and location; positive in the converse case |
| Ordering.BeforeAsymmetric | scripts/generate-sitemap.js:220-224 | two entries never each go before the other |
| Ordering.NotBeforeTransitive | scripts/generate-sitemap.js:220-224 | "not after" is transitive, so the comparator is a consistent order |
| Ordering.NotBeforeAntisymmetric | scripts/generate-sitemap.js:220-224 | two entries neither of which goes before the other share their location |
| Ordering.SortedByLocation | scripts/generate-sitemap.js:220-224 | two sorted lists with distinct locations, the same set of locations and the same priority at each location list those locations in the same order |
| Ordering.SortedIsPairwise | scripts/generate-sitemap.js:219-224 | adjacent entries in order means every earlier entry is not after any later one |
| Ordering.SortedUnique | scripts/generate-sitemap.js:219-224 | entries with distinct locations have exactly one sorted arrangement, so the order does not depend on the sorting algorithm |
| Ordering.SwapDown | scripts/generate-sitemap.js:220 | one step of the sort exchanges two neighbouring entries in place, which keeps the entries a permutation |
| Ordering.InsertDown | scripts/generate-sitemap.js:220-224 | moving one entry down past every entry it goes before extends the sorted prefix by one, permutes the first `i + 1` entries among themselves and leaves every entry after them where it was |
| Ordering.SortEntries | scripts/generate-sitemap.js:220-224 | the in-place sort leaves each entry either of higher priority than the next, or of equal priority and a location not after the next; it is a permutation of its input |
| Xml.UrlLines | scripts/generate-sitemap.js:233-238 | a block has three to six lines: `<url>`, the `<loc>` line with the entry's location, and `</url>` last |
| Xml.XmlLines | scripts/generate-sitemap.js:227-241 | the document's lines start with the declaration and `<urlset>` and end with `</urlset>` |
| Xml.BuildXml | scripts/generate-sitemap.js:227-243 | the built text is the declaration, `<urlset>`, each entry's block in order and `</urlset>`, joined with newlines |
| Xml.FieldOfElement | scripts/generate-sitemap.js:234-237 | a field line reads back as its own value |
| Xml.FieldOfOtherElement | scripts/generate-sitemap.js:234-237 | a field line reads back as nothing for every other field |
| Xml.FieldOfFrame | scripts/generate-sitemap.js:227-241 | the declaration, the `urlset` tags and the `url` tags hold no field |
| Xml.FieldsOfBlock | scripts/generate-sitemap.js:233-238 | a block holds exactly one `<loc>`, and `<lastmod>`, `<changefreq>` and `<priority>` exactly when the value is truthy, each with the entry's value |
| Xml.FieldsOfBody | scripts/generate-sitemap.js:232-239 | the blocks' lines, read back field by field, give the entries' values in order |
| Xml.FieldsOfXml | scripts/generate-sitemap.js:227-241 | the same for the whole document |
| Xml.LocColumn | scripts/generate-sitemap.js:234 | the `loc` column is every entry's location, in order |
| Xml.SitemapLocs | scripts/generate-sitemap.js:227-241 | the document's `<loc>` lines read back as the entries' locations, in order |
| Xml.BlockTags | scripts/generate-sitemap.js:233-238 | each block has exactly one `<url>` line and one `</url>` line |
| Xml.BodyTags | scripts/generate-sitemap.js:232-239 | the blocks have as many `<url>` and as many `</url>` lines as there are entries |
| Xml.XmlTags | scripts/generate-sitemap.js:227-241 | the document has exactly one `<url>` block per entry |
| Xml.XmlTextLines | scripts/generate-sitemap.js:243 | when no field value holds a line break, the written text splits back into exactly the built lines |
| Xml.XmlTextFrame | scripts/generate-sitemap.js:227-243 | the written text's first lines are the declaration and `<urlset>`, its last is `</urlset>`, and it has one `<url>` and one `</url>` line per entry |
| Xml.RobotsText | scripts/generate-sitemap.js:253-259 | defines `robots.txt` as its four lines joined with newlines; `Xml.RobotsTextLines` states what the text holds |
| Xml.RobotsTextLines | scripts/generate-sitemap.js:253-259 | `robots.txt` is the four lines, the last `Sitemap: ` followed by the trimmed domain, `/` and the sitemap's file name |
| Generator.PagesKeyed | scripts/generate-sitemap.js:221 | when no override sets a priority that is not a plain decimal, every entry's priority reads as a number |
| Generator.Publish | scripts/generate-sitemap.js:209-243 | the de-duplicated entries are sorted with distinct locations, are a permutation of the first-occurrence list, and are written in that order |
| Generator.Generate | scripts/generate-sitemap.js:172-243 | the run's entries are the sorted first-occurrence list of the listed pages' entries, and the text is their sitemap |
| Generator.GenerateDeterministic | scripts/generate-sitemap.js:219-224 | for a given walk order, any two sorted arrangements of the kept entries are equal, so the sort algorithm does not change the output |
| Generator.WalkOrderIrrelevant | scripts/generate-sitemap.js:172-224 | two walks that list the same files in any two orders give sitemaps with the same locations, change frequencies and priorities, position by position |
| Generator.WalkOrderIrrelevantUnique | scripts/generate-sitemap.js:172-243 | when no two listed files share a location, any two walk orders give the same kept entries and the same sitemap text |
| Generator.PageEntryOneLine | scripts/generate-sitemap.js:196-205 | with no line break in the domain, the paths, the timestamps or the override values, no field of a page's entry holds one |
| Generator.KeptArePages | scripts/generate-sitemap.js:209-224 | every entry in the sitemap is the entry of a listed page |
| Generator.SitemapReadsBack | scripts/generate-sitemap.js:172-243 | read back line by line, the written sitemap holds, for each field, the kept entries' values in sitemap order |
| Generator.SitemapFrame | scripts/generate-sitemap.js:172-243 | the written sitemap starts with the declaration and `<urlset>`, ends with `</urlset>`, and has one `<url>` block per location kept |
| Generator.PagesLocs | scripts/generate-sitemap.js:175-207 | the collected locations are those of the listed pages |
| Generator.SitemapLocations | scripts/generate-sitemap.js:172-243 | the sitemap lists one location for each URL some listed page maps to, and no other |

## Left out

- Directory traversal and file system calls (reading directories, `stat`, `existsSync`, writing the two files). The walk is given as the sequence of files in walk order, and the written texts are returned rather than written.
- The order in which the platform lists a directory's entries. The input sequence fixes it.
- Argument parsing (`minimist` and the fallback parser), the environment variable default of the domain, console logging, and the unused `includeHtml` option.
- Reading the configuration file as JSON, and what happens when it is missing or malformed (the overrides then stay empty). The overrides are an input map from URL path to a record of two optional strings. Override values that are JSON numbers or other non-strings are not modelled.
- `new Date(mtime).toISOString()` is an opaque optional string; a failed `stat` gives no value.
- `Entry.file` holds the page's relative path rather than the full path the code stores. That field is never written out.
- The sitemap's output path is a parameter of `Xml.RobotsText` (its file name only). The directory the robots file is written to is left out with the writes.
- Strings.ToLower: lower-cases ASCII letters only, not the whole of Unicode as `toLowerCase` does.
- Strings.LexLess: orders locations by Unicode code point rather than by `localeCompare`'s locale collation (nor by UTF-16 code unit, which differs for characters beyond U+FFFF). The sort's tie-break is therefore plain code-point lexicographic order.
- Ordering.Key: the key of a plain decimal is its exact value, while `parseFloat` rounds it to the nearest binary64 double. Two priorities that differ only beyond a double's precision (`0.1` and `0.10000000000000000001`) tie in the code and are ordered by location there, but are ordered by value in the model. A priority that is not a plain decimal (digits with at most one point) gets the key 0. `parseFloat` instead reads a numeric prefix or gives `NaN`, and a `NaN` makes the comparator inconsistent, so the code's order is then whatever the engine's sort produces. Every default priority is a plain decimal (`Heuristics.HeuristicPriority`).
- Heuristics.ParseDecimal: reads only plain decimals (no sign, exponent, surrounding spaces or trailing text).
- Paths.Basename: `path.basename` drops trailing separators (`a/b/` gives `b`), while the model's last segment is then empty. The walk only lists files, whose paths never end in a separator, so no listed page is affected.
- Generator.GenerateDeterministic: holds for one walk order. Across walk orders, `Generator.WalkOrderIrrelevant` fixes the locations, change frequencies and priorities, but not the timestamp. When two listed files map to the same location, the first one the walk lists is kept with its `<lastmod>`. For example, `blog/my/index.html` and `blog/myindex.html` both give `/blog/my/`. So in that case the sitemap text depends on the order in which the platform lists directory entries.
- Ordering.SortEntries: the code calls the engine's `Array.prototype.sort`, whose algorithm is unspecified. The model sorts by insertion. `Ordering.SortedUnique` shows that every correct sort gives the same result here, because the locations are distinct.
- The browser scripts under `js/` (event handlers, styles, clipboard, navigation, an animation loop). They are page glue and take no part in generating the sitemap.
