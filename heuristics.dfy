/** The change frequency and priority each URL is listed with: the default
    rules `heuristicsForUrl` derives from the URL path, and the per-URL
    overrides read from the optional configuration file, which win field by
    field. */
module Heuristics {
  import opened Wrappers
  import opened Strings

  /** A URL's `changefreq` and `priority`, as the strings written into the
      sitemap. */
  datatype Meta = Meta(changefreq: string, priority: string)

  /** One entry of the overrides file; either field may be missing. */
  datatype Override = Override(changefreq: Option<string>, priority: Option<string>)

  /** The values the sitemap protocol allows for `changefreq`. */
  predicate IsChangefreq(s: string) {
    s in ["always", "hourly", "daily", "weekly", "monthly", "yearly", "never"]
  }

  /** `heuristicsForUrl`: the home page first, then fonts, blog and about
      sections, then every other page. */
  function HeuristicsForUrl(url: string): (m: Meta)
    ensures IsChangefreq(m.changefreq)
  {
    if url == "/" || url == "" then Meta("weekly", "1.0")
    else if StartsWith(url, "/fonts/") then Meta("monthly", "0.9")
    else if StartsWith(url, "/blog/") then Meta("weekly", "0.8")
    else if StartsWith(url, "/about") then Meta("yearly", "0.6")
    else Meta("monthly", "0.5")
  }

  predicate IsDigit(ch: char) {
    '0' <= ch <= '9'
  }

  predicate AllDigits(s: string) {
    forall i :: 0 <= i < |s| ==> IsDigit(s[i])
  }

  /** The value of a string of decimal digits. */
  function DigitsValue(s: string): nat
    requires AllDigits(s)
  {
    if |s| == 0 then 0
    else
      assert AllDigits(s[..|s| - 1]) by {
        assert forall i :: 0 <= i < |s| - 1 ==> s[..|s| - 1][i] == s[i];
      }
      10 * DigitsValue(s[..|s| - 1]) + (s[|s| - 1] as int - '0' as int)
  }

  /** The value of the digits after a decimal point. */
  function FractionValue(s: string): (v: real)
    requires AllDigits(s)
    ensures 0.0 <= v < 1.0
  {
    if |s| == 0 then 0.0
    else
      assert AllDigits(s[1..]) by {
        assert forall i :: 0 <= i < |s| - 1 ==> s[1..][i] == s[i + 1];
      }
      ((s[0] as int - '0' as int) as real + FractionValue(s[1..])) / 10.0
  }

  /** The number a plain decimal such as `0.8`, `1` or `.5` denotes: digits,
      an optional point, digits, and at least one digit in all. Anything
      else has no value. */
  function ParseDecimal(s: string): (r: Option<real>)
    ensures r.Some? ==> r.value >= 0.0
  {
    var k := NextSep(s, '.', 0);
    var whole := s[..k];
    var frac := if k < |s| then s[k + 1..] else "";
    if AllDigits(whole) && AllDigits(frac) && |whole| + |frac| > 0 then
      Some(DigitsValue(whole) as real + FractionValue(frac))
    else None
  }

  function Pow10(n: nat): (p: nat)
    ensures p >= 1
  {
    if n == 0 then 1 else 10 * Pow10(n - 1)
  }

  /** Moving the first digit's weight up by one place. */
  lemma FrontStep(v: int, a: int, b: int, r: int, dl: int, d0: int, p: int, q: int)
    requires v == 10 * a + dl && a == d0 * p + b && r == 10 * b + dl && q == 10 * p
    ensures v == d0 * q + r
  {
  }

  /** Read from the front, the first digit weighs `10^(|s| - 1)`. */
  lemma {:induction false} DigitsValueFront(s: string)
    requires |s| > 0 && AllDigits(s)
    ensures AllDigits(s[1..])
    ensures DigitsValue(s) == (s[0] as int - '0' as int) * Pow10(|s| - 1) + DigitsValue(s[1..])
  {
    assert forall i :: 0 <= i < |s| - 1 ==> s[1..][i] == s[i + 1];
    if |s| > 1 {
      var n := |s|;
      var init := s[..n - 1];
      assert forall i :: 0 <= i < n - 1 ==> init[i] == s[i];
      DigitsValueFront(init);
      assert init[1..] == s[1..][..n - 2];
      FrontStep(DigitsValue(s), DigitsValue(init), DigitsValue(init[1..]), DigitsValue(s[1..]),
                s[n - 1] as int - '0' as int, s[0] as int - '0' as int, Pow10(n - 2), Pow10(n - 1));
    }
  }

  lemma ShiftDigit(d: real, x: real, p: real)
    requires p > 0.0
    ensures (d + x / p) / 10.0 == (d * p + x) / (10.0 * p)
  {
  }

  lemma CastStep(d: int, p: nat, x: nat)
    ensures d as real * p as real + x as real == (d * p + x) as real
    ensures 10.0 * p as real == (10 * p) as real
  {
  }

  /** One digit more in front of a fraction, in terms of whole numbers. */
  lemma FractionStep(v: real, v': real, d: int, x: nat, p: nat, y: nat, q: nat)
    requires p >= 1 && v' == x as real / p as real && v == (d as real + v') / 10.0
    requires y == d * p + x && q == 10 * p
    ensures v == y as real / q as real
  {
    ShiftDigit(d as real, x as real, p as real);
    CastStep(d, p, x);
  }

  /** The digits after a point denote their value as a whole number over
      `10^(their count)`: `"95"` denotes 95/100. */
  lemma {:induction false} FractionValueDigits(f: string)
    requires AllDigits(f)
    ensures FractionValue(f) == DigitsValue(f) as real / Pow10(|f|) as real
  {
    if |f| > 0 {
      var rest := f[1..];
      DigitsValueFront(f);
      FractionValueDigits(rest);
      var d0 := f[0] as int - '0' as int;
      FractionStep(FractionValue(f), FractionValue(rest), d0, DigitsValue(rest),
                   Pow10(|rest|), DigitsValue(f), Pow10(|f|));
    }
  }

  /** A priority `w.f` of digits reads as `w + f / 10^|f|`, so `"0.95"`
      reads as 0.95 and `"1.25"` as 1.25. */
  lemma {:induction false} ParseDecimalValue(w: string, f: string)
    requires AllDigits(w) && AllDigits(f) && |w| + |f| > 0
    ensures ParseDecimal(w + "." + f) ==
            Some(DigitsValue(w) as real + DigitsValue(f) as real / Pow10(|f|) as real)
  {
    var s := w + "." + f;
    NextSepUnique(s, '.', 0, |w|);
    assert s[..|w|] == w && s[|w| + 1..] == f;
    FractionValueDigits(f);
  }

  /** A priority made of digits alone reads as the whole number they
      denote. */
  lemma {:induction false} ParseDecimalWhole(w: string)
    requires AllDigits(w) && |w| > 0
    ensures ParseDecimal(w) == Some(DigitsValue(w) as real)
  {
    NextSepUnique(w, '.', 0, |w|);
    assert w[..|w|] == w;
    assert FractionValue("") == 0.0;
  }

  /** Only those two forms read as a number: a priority holding anything
      besides digits and one point, or no digit at all, reads as none. */
  lemma {:induction false} ParseDecimalForms(s: string)
    requires ParseDecimal(s).Some?
    ensures (AllDigits(s) && |s| > 0) ||
            exists w, f :: AllDigits(w) && AllDigits(f) && |w| + |f| > 0 && s == w + "." + f
  {
    var k := NextSep(s, '.', 0);
    var w := s[..k];
    if k < |s| {
      var f := s[k + 1..];
      assert s == w + "." + f;
      assert AllDigits(w) && AllDigits(f) && |w| + |f| > 0;
    } else {
      assert s == w;
    }
  }

  /** The override priority `"0.95"` reads as 0.95. */
  lemma {:induction false} ParseDecimalExample()
    ensures ParseDecimal("0.95") == Some(0.95)
  {
    ParseDecimalValue("0", "95");
    assert "0" + "." + "95" == "0.95";
    assert DigitsValue("9") == 9 by { assert "9"[..0] == ""; }
    assert DigitsValue("95") == 95 by { assert "95"[..1] == "9"; }
    assert DigitsValue("0") == 0 by { assert "0"[..0] == ""; }
    assert Pow10(2) == 100;
  }

  /** A plain decimal with one digit on each side of the point. */
  lemma {:induction false} ParseTenths(s: string)
    requires |s| == 3 && IsDigit(s[0]) && s[1] == '.' && IsDigit(s[2])
    ensures ParseDecimal(s) ==
            Some((s[0] as int - '0' as int) as real + (s[2] as int - '0' as int) as real / 10.0)
  {
    NextSepUnique(s, '.', 0, 1);
    assert s[..1] == [s[0]] && s[2..] == [s[2]];
    assert [s[0]][..0] == [] && [s[2]][1..] == [];
    assert DigitsValue([s[0]]) == s[0] as int - '0' as int;
    assert FractionValue([s[2]]) == (s[2] as int - '0' as int) as real / 10.0;
  }

  /** Every default priority is a plain decimal between 0.5 and 1.0, and
      only the home page gets 1.0. */
  lemma {:induction false} HeuristicPriority(url: string) returns (v: real)
    ensures ParseDecimal(HeuristicsForUrl(url).priority) == Some(v)
    ensures 0.5 <= v <= 1.0
    ensures v == 1.0 <==> url == "/" || url == ""
  {
    var p := HeuristicsForUrl(url).priority;
    ParseTenths(p);
    v := ParseDecimal(p).value;
  }

  /** The default rules look at no more than the first seven characters of
      a path: every page of a section shares the section's values. */
  lemma {:induction false} HeuristicsBySection(u: string, v: string)
    requires |u| >= 7 && |v| >= 7 && u[..7] == v[..7]
    ensures HeuristicsForUrl(u) == HeuristicsForUrl(v)
  {
    assert u[..6] == u[..7][..6] && v[..6] == v[..7][..6];
  }

  /** JavaScript's `field || fallback` on an override field: a missing or
      empty value falls back. */
  function Pick(field: Option<string>, fallback: string): (r: string)
    ensures field.Some? && field.value != "" ==> r == field.value
    ensures field.None? || field.value == "" ==> r == fallback
  {
    if field.Some? && field.value != "" then field.value else fallback
  }

  /** The values a URL is listed with: `configOverrides[urlPath] || {}`
      merged over `heuristicsForUrl(urlPath)` field by field. */
  function Resolve(url: string, overrides: map<string, Override>): (m: Meta)
    ensures url !in overrides ==> m == HeuristicsForUrl(url)
    ensures m.changefreq != "" && m.priority != ""
  {
    var h := HeuristicsForUrl(url);
    var o := if url in overrides then overrides[url] else Override(None, None);
    Meta(Pick(o.changefreq, h.changefreq), Pick(o.priority, h.priority))
  }

  /** An override that sets one field leaves the other to the default
      rules, and an override value is used verbatim. */
  lemma {:induction false} ResolveFieldwise(url: string, overrides: map<string, Override>)
    requires url in overrides
    ensures var o, h, m := overrides[url], HeuristicsForUrl(url), Resolve(url, overrides);
            && (o.changefreq.None? ==> m.changefreq == h.changefreq)
            && (o.priority.None? ==> m.priority == h.priority)
            && (o.changefreq == Some("") ==> m.changefreq == h.changefreq)
            && (o.priority == Some("") ==> m.priority == h.priority)
            && (o.changefreq.Some? && o.changefreq.value != "" ==> m.changefreq == o.changefreq.value)
            && (o.priority.Some? && o.priority.value != "" ==> m.priority == o.priority.value)
  {
  }

  /** Without overrides, a URL's priority is one of the default ones. */
  lemma {:induction false} ResolvedPriorityParses(url: string, overrides: map<string, Override>)
    requires url !in overrides || overrides[url].priority.None? || overrides[url].priority == Some("")
    ensures ParseDecimal(Resolve(url, overrides).priority).Some?
  {
    var v := HeuristicPriority(url);
  }
}
