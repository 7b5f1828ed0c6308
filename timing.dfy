/**
 * One server-timing metric and its text form `name[;desc="…"][;dur=…]`
 * (the `Display` implementation of `Timing`), together with the decoders that
 * read that text back, which serve as the partners of the encoders.
 */
module Timings {
  import opened Wrappers

  /** A metric. `dur` is the duration in whole microseconds. */
  datatype Timing = Timing(name: string, desc: Option<string>, dur: Option<nat>)

  const DescOpen: string := ";desc=\""
  const DurOpen: string := ";dur="

  predicate StartsWith(s: string, p: string) {
    |p| <= |s| && s[..|p|] == p
  }

  // ---------------------------------------------------------------------------
  // The description: `"` is written as `\"`, every other character as it is.
  // ---------------------------------------------------------------------------

  /** The text written between the quotes of `;desc="…"`. Backslashes are not escaped. */
  function Escape(s: string): (r: string)
    ensures s != [] ==> r != [] && r[0] != '"'
  {
    if s == [] then [] else (if s[0] == '"' then "\\\"" else [s[0]]) + Escape(s[1..])
  }

  /** Escaping adds exactly one character per quote. */
  lemma {:induction false} EscapeLength(s: string)
    ensures |Escape(s)| == |s| + multiset(s)['"']
  {
    if s != [] {
      assert s == [s[0]] + s[1..];
      EscapeLength(s[1..]);
    }
  }

  /** Reads `\"` as `"` and every other character as itself: the inverse of Escape. */
  function Unescape(t: string): string
    decreases |t|
  {
    if t == [] then []
    else if |t| >= 2 && t[0] == '\\' && t[1] == '"' then ['"'] + Unescape(t[2..])
    else [t[0]] + Unescape(t[1..])
  }

  lemma {:induction false} EscapeWithoutQuotes(s: string)
    requires '"' !in s
    ensures Escape(s) == s
  {
    if s != [] {
      assert s == [s[0]] + s[1..];
      EscapeWithoutQuotes(s[1..]);
    }
  }

  lemma {:induction false} EscapeAppend(a: string, b: string)
    ensures Escape(a + b) == Escape(a) + Escape(b)
  {
    if a == [] {
      assert a + b == b;
    } else {
      assert (a + b)[0] == a[0];
      assert (a + b)[1..] == a[1..] + b;
      EscapeAppend(a[1..], b);
    }
  }

  lemma {:induction false} EscapedQuotesArePreceded(s: string)
    ensures forall i :: 0 <= i < |Escape(s)| && Escape(s)[i] == '"' ==> 0 < i && Escape(s)[i - 1] == '\\'
  {
    if s != [] {
      EscapedQuotesArePreceded(s[1..]);
      var h: string := if s[0] == '"' then "\\\"" else [s[0]];
      var e := Escape(s[1..]);
      assert Escape(s) == h + e;
      forall i | 0 <= i < |h + e| && (h + e)[i] == '"'
        ensures 0 < i && (h + e)[i - 1] == '\\'
      {
        if i >= |h| {
          assert (h + e)[i] == e[i - |h|];
          if i - |h| > 0 {
            assert (h + e)[i - 1] == e[i - |h| - 1];
          }
        }
      }
    }
  }

  lemma {:induction false} UnescapeEscape(s: string)
    ensures Unescape(Escape(s)) == s
  {
    if s != [] {
      UnescapeEscape(s[1..]);
      var e := Escape(s[1..]);
      if s[0] == '"' {
        assert Escape(s) == "\\\"" + e;
        assert ("\\\"" + e)[2..] == e;
      } else {
        assert Escape(s) == [s[0]] + e;
        assert ([s[0]] + e)[1..] == e;
      }
    }
  }

  // ---------------------------------------------------------------------------
  // The duration: milliseconds as an f64 prints them (`100`, `250.5`, `0.125`).
  // ---------------------------------------------------------------------------

  predicate IsDigit(c: char) {
    '0' <= c <= '9'
  }

  predicate AllDigits(s: string) {
    forall i :: 0 <= i < |s| ==> IsDigit(s[i])
  }

  function Digit(d: nat): (c: char)
    requires d < 10
    ensures IsDigit(c) && (c == '0' <==> d == 0)
  {
    (48 + d) as char
  }

  function DigitValue(c: char): (d: nat)
    requires IsDigit(c)
    ensures d < 10 && Digit(d) == c
  {
    c as int - 48
  }

  /** Decimal digits of `n`, without leading zeros. */
  function FormatNat(n: nat): (r: string)
    ensures r != [] && AllDigits(r)
    ensures |r| > 1 ==> r[0] != '0'
    decreases n
  {
    if n < 10 then [Digit(n)] else FormatNat(n / 10) + [Digit(n % 10)]
  }

  function ParseNat(s: string): nat
    requires AllDigits(s)
    decreases |s|
  {
    if s == [] then 0 else 10 * ParseNat(s[..|s| - 1]) + DigitValue(s[|s| - 1])
  }

  lemma {:induction false} ParseFormatNat(n: nat)
    ensures ParseNat(FormatNat(n)) == n
    decreases n
  {
    var r := FormatNat(n);
    if n < 10 {
      assert r[..|r| - 1] == [];
    } else {
      ParseFormatNat(n / 10);
      assert r[..|r| - 1] == FormatNat(n / 10);
    }
  }

  /** The fractional part `f` (1 to 999 thousandths) as three decimals with trailing zeros dropped. */
  function FracDigits(f: nat): (r: string)
    requires 0 < f < 1000
    ensures 1 <= |r| <= 3 && AllDigits(r) && r[|r| - 1] != '0'
  {
    var a, m := f / 100, f % 100;
    var b, c := m / 10, m % 10;
    if m == 0 then [Digit(a)]
    else if c == 0 then [Digit(a), Digit(b)]
    else [Digit(a), Digit(b), Digit(c)]
  }

  /** One to three decimals filled up with zeros to exactly three: the thousandths they denote. */
  function PadFrac(f: string): (r: string)
    requires 1 <= |f| <= 3 && AllDigits(f)
    ensures |r| == 3 && AllDigits(r)
  {
    if |f| == 1 then f + "00" else if |f| == 2 then f + "0" else f
  }

  lemma ParseNatOne(x: char)
    requires IsDigit(x)
    ensures ParseNat([x]) == DigitValue(x)
  {
    assert [x][..0] == [];
  }

  lemma ParseNatTwo(x: char, y: char)
    requires IsDigit(x) && IsDigit(y)
    ensures ParseNat([x, y]) == 10 * DigitValue(x) + DigitValue(y)
  {
    assert [x, y][..1] == [x];
    ParseNatOne(x);
  }

  lemma ParseNatThree(x: char, y: char, z: char)
    requires IsDigit(x) && IsDigit(y) && IsDigit(z)
    ensures ParseNat([x, y, z]) == 100 * DigitValue(x) + 10 * DigitValue(y) + DigitValue(z)
  {
    assert [x, y, z][..2] == [x, y];
    ParseNatTwo(x, y);
  }

  lemma ParseFracDigits(f: nat)
    requires 0 < f < 1000
    ensures ParseNat(PadFrac(FracDigits(f))) == f
  {
    var a, m := f / 100, f % 100;
    var b, c := m / 10, m % 10;
    assert f == 100 * a + m && m == 10 * b + c;
    assert PadFrac(FracDigits(f)) == [Digit(a), Digit(b), Digit(c)];
    ParseNatThree(Digit(a), Digit(b), Digit(c));
  }

  /** The duration `us` (microseconds) as the milliseconds value us / 1000 prints. */
  function FormatDur(us: nat): (r: string)
    ensures r != [] && forall i :: 0 <= i < |r| ==> IsDigit(r[i]) || r[i] == '.'
  {
    FormatNat(us / 1000) + (if us % 1000 == 0 then "" else "." + FracDigits(us % 1000))
  }

  /** The first position of `c` in `s`, if any. */
  function IndexOf(s: string, c: char): (r: Option<nat>)
    ensures r.None? <==> c !in s
    ensures r.Some? ==> r.value < |s| && s[r.value] == c && c !in s[..r.value]
  {
    if s == [] then None
    else if s[0] == c then Some(0)
    else
      assert s == [s[0]] + s[1..];
      match IndexOf(s[1..], c)
      case None => None
      case Some(k) =>
        assert s[..k + 1] == [s[0]] + s[1..][..k];
        Some(k + 1)
  }

  lemma IndexOfJoin(a: string, c: char, b: string)
    requires c !in a
    ensures IndexOf(a + [c] + b, c) == Some(|a|)
  {
    var s := a + [c] + b;
    assert s[|a|] == c;
    assert s[..|a|] == a;
  }

  /** Reads milliseconds written as digits with an optional `.` and one to three decimals. */
  function ParseDur(s: string): Option<nat> {
    match IndexOf(s, '.')
    case None => ParseWholeMs(s)
    case Some(k) => ParseFractionalMs(s[..k], s[k + 1..])
  }

  function ParseWholeMs(whole: string): Option<nat> {
    if whole != [] && AllDigits(whole) then Some(1000 * ParseNat(whole)) else None
  }

  function ParseFractionalMs(whole: string, frac: string): Option<nat> {
    match ParseWholeMs(whole)
    case None => None
    case Some(us) => if 1 <= |frac| <= 3 && AllDigits(frac) then Some(us + ParseNat(PadFrac(frac))) else None
  }

  lemma NoDotInDigits(w: string)
    requires AllDigits(w)
    ensures '.' !in w
  {
    forall i | 0 <= i < |w| ensures w[i] != '.' { assert IsDigit(w[i]); }
  }

  lemma ParseDurWhole(w: string)
    requires w != [] && AllDigits(w)
    ensures ParseDur(w) == Some(1000 * ParseNat(w))
  {
    NoDotInDigits(w);
  }

  lemma ParseDurFraction(w: string, f: string)
    requires w != [] && AllDigits(w) && 1 <= |f| <= 3 && AllDigits(f)
    ensures ParseDur(w + ['.'] + f) == Some(1000 * ParseNat(w) + ParseNat(PadFrac(f)))
  {
    var s := w + ['.'] + f;
    assert IndexOf(s, '.') == Some(|w|) by {
      NoDotInDigits(w);
      IndexOfJoin(w, '.', f);
    }
    assert s[..|w|] == w by {}
    assert s[|w| + 1..] == f by {}
    ParseFractionalMsValue(w, f);
  }

  lemma ParseFractionalMsValue(w: string, f: string)
    requires w != [] && AllDigits(w) && 1 <= |f| <= 3 && AllDigits(f)
    ensures ParseFractionalMs(w, f) == Some(1000 * ParseNat(w) + ParseNat(PadFrac(f)))
  {
    assert ParseWholeMs(w) == Some(1000 * ParseNat(w));
  }

  lemma ParseFormatDur(us: nat)
    ensures ParseDur(FormatDur(us)) == Some(us)
  {
    var q, m := us / 1000, us % 1000;
    var w := FormatNat(q);
    ParseFormatNat(q);
    assert us == 1000 * q + m;
    if m == 0 {
      assert FormatDur(us) == w;
      ParseDurWhole(w);
    } else {
      var f := FracDigits(m);
      assert FormatDur(us) == w + ['.'] + f;
      ParseFracDigits(m);
      ParseDurFraction(w, f);
    }
  }

  // ---------------------------------------------------------------------------
  // A whole entry.
  // ---------------------------------------------------------------------------

  function DescSegment(desc: Option<string>): string {
    match desc
    case None => ""
    case Some(d) => DescOpen + Escape(d) + "\""
  }

  function DurSegment(dur: Option<nat>): string {
    match dur
    case None => ""
    case Some(us) => DurOpen + FormatDur(us)
  }

  /** The text `Display` writes for `t`: the name, then the description, then the duration. */
  function Render(t: Timing): (r: string)
    ensures StartsWith(r, t.name)
    ensures t.desc.None? && t.dur.None? ==> r == t.name
  {
    var r := t.name + DescSegment(t.desc) + DurSegment(t.dur);
    assert r[..|t.name|] == t.name;
    r
  }

  /** A description the quoted form preserves: one that does not end in a backslash. */
  predicate EndsCleanly(d: string) {
    d == [] || d[|d| - 1] != '\\'
  }

  /**
   * Reads a quoted body up to its closing `"`, taking `\"` as an escaped quote;
   * gives the decoded text and what follows the closing quote.
   */
  function ScanQuoted(t: string): Option<(string, string)>
    decreases |t|
  {
    if t == [] then None
    else if t[0] == '"' then Some(([], t[1..]))
    else if |t| >= 2 && t[0] == '\\' && t[1] == '"' then
      match ScanQuoted(t[2..])
      case None => None
      case Some(p) => Some((['"'] + p.0, p.1))
    else
      match ScanQuoted(t[1..])
      case None => None
      case Some(p) => Some(([t[0]] + p.0, p.1))
  }

  /** Puts `c` in front of the decoded text of a scan result. */
  function Prepend(c: char, o: Option<(string, string)>): Option<(string, string)> {
    match o
    case None => None
    case Some(p) => Some(([c] + p.0, p.1))
  }

  lemma ScanQuotedStep(c: char, u: string)
    requires c != '"' && (c == '\\' ==> u == [] || u[0] != '"')
    ensures ScanQuoted([c] + u) == Prepend(c, ScanQuoted(u))
  {
    assert ([c] + u)[1..] == u;
  }

  lemma ScanQuotedEscape(u: string)
    ensures ScanQuoted("\\\"" + u) == Prepend('"', ScanQuoted(u))
  {
    assert ("\\\"" + u)[2..] == u;
  }

  lemma {:induction false} ScanEscaped(d: string, rest: string)
    requires EndsCleanly(d)
    ensures ScanQuoted(Escape(d) + ['"'] + rest) == Some((d, rest))
  {
    if d == [] {
      assert Escape(d) + ['"'] + rest == ['"'] + rest;
      assert (['"'] + rest)[1..] == rest;
    } else {
      var d' := d[1..];
      var u := Escape(d') + ['"'] + rest;
      assert d == [d[0]] + d';
      assert EndsCleanly(d') by {
        if d' != [] { assert d'[|d'| - 1] == d[|d| - 1]; }
      }
      ScanEscaped(d', rest);
      if d[0] == '"' {
        calc {
          ScanQuoted(Escape(d) + ['"'] + rest);
          { assert Escape(d) + ['"'] + rest == "\\\"" + u; }
          ScanQuoted("\\\"" + u);
          { ScanQuotedEscape(u); }
          Prepend('"', ScanQuoted(u));
        }
      } else {
        assert d[0] == '\\' ==> u[0] != '"' by {
          if d[0] == '\\' {
            assert d' != [];
            assert u[0] == Escape(d')[0];
          }
        }
        calc {
          ScanQuoted(Escape(d) + ['"'] + rest);
          { assert Escape(d) + ['"'] + rest == [d[0]] + u; }
          ScanQuoted([d[0]] + u);
          { ScanQuotedStep(d[0], u); }
          Prepend(d[0], ScanQuoted(u));
        }
      }
    }
  }

  /** Reads `name[;desc="…"][;dur=…]` back into an entry. */
  function ParseTiming(s: string): Option<Timing> {
    match IndexOf(s, ';')
    case None => Some(Timing(s, None, None))
    case Some(k) => ParseParams(s[..k], s[k..])
  }

  function ParseParams(name: string, r: string): Option<Timing> {
    if StartsWith(r, DescOpen) then
      match ScanQuoted(r[|DescOpen|..])
      case None => None
      case Some(p) =>
        if p.1 == [] then Some(Timing(name, Some(p.0), None))
        else if StartsWith(p.1, DurOpen) then
          match ParseDur(p.1[|DurOpen|..])
          case None => None
          case Some(us) => Some(Timing(name, Some(p.0), Some(us)))
        else None
    else if StartsWith(r, DurOpen) then
      match ParseDur(r[|DurOpen|..])
      case None => None
      case Some(us) => Some(Timing(name, None, Some(us)))
    else None
  }

  lemma DurSegmentShape(us: nat)
    ensures StartsWith(DurSegment(Some(us)), DurOpen)
    ensures !StartsWith(DurSegment(Some(us)), DescOpen)
    ensures DurSegment(Some(us))[|DurOpen|..] == FormatDur(us)
  {
    var s := DurSegment(Some(us));
    assert s[..|DurOpen|] == DurOpen;
    if |s| >= |DescOpen| {
      assert s[..|DescOpen|][2] == 'u';
    }
  }

  lemma ParseDurSegment(us: nat)
    ensures StartsWith(DurSegment(Some(us)), DurOpen)
    ensures !StartsWith(DurSegment(Some(us)), DescOpen)
    ensures ParseDur(DurSegment(Some(us))[|DurOpen|..]) == Some(us)
  {
    DurSegmentShape(us);
    ParseFormatDur(us);
  }

  lemma DescSegmentShape(d: string, ds: string)
    ensures StartsWith(DescSegment(Some(d)) + ds, DescOpen)
    ensures (DescSegment(Some(d)) + ds)[|DescOpen|..] == Escape(d) + ['"'] + ds
  {
    var rest := DescSegment(Some(d)) + ds;
    assert rest == DescOpen + (Escape(d) + ['"'] + ds);
    assert rest[..|DescOpen|] == DescOpen;
  }

  /** What follows the closing quote of the description: nothing, or the duration. */
  lemma ParseAfterDesc(name: string, d: string, dur: Option<nat>)
    ensures var more := DurSegment(dur);
      (if more == [] then Some(Timing(name, Some(d), None))
       else if StartsWith(more, DurOpen) then
         match ParseDur(more[|DurOpen|..])
         case None => None
         case Some(us) => Some(Timing(name, Some(d), Some(us)))
       else None) == Some(Timing(name, Some(d), dur))
  {
    if dur.Some? {
      ParseDurSegment(dur.value);
    }
  }

  lemma ParseParamsDesc(name: string, d: string, dur: Option<nat>)
    requires EndsCleanly(d)
    ensures ParseParams(name, DescSegment(Some(d)) + DurSegment(dur)) == Some(Timing(name, Some(d), dur))
  {
    var ds := DurSegment(dur);
    DescSegmentShape(d, ds);
    ScanEscaped(d, ds);
    ParseAfterDesc(name, d, dur);
  }

  lemma ParseParamsDur(name: string, us: nat)
    ensures ParseParams(name, DurSegment(Some(us))) == Some(Timing(name, None, Some(us)))
  {
    ParseDurSegment(us);
  }

  lemma ParseTimingSplit(name: string, rest: string)
    requires ';' !in name && rest != [] && rest[0] == ';'
    ensures ParseTiming(name + rest) == ParseParams(name, rest)
  {
    var s := name + rest;
    assert s == name + [';'] + rest[1..];
    IndexOfJoin(name, ';', rest[1..]);
    assert s[..|name|] == name;
    assert s[|name|..] == rest;
  }

  /** Every entry whose name has no `;` and whose description does not end in `\` reads back as itself. */
  lemma ParseRender(t: Timing)
    requires ';' !in t.name
    requires t.desc.Some? ==> EndsCleanly(t.desc.value)
    ensures ParseTiming(Render(t)) == Some(t)
  {
    var rest := DescSegment(t.desc) + DurSegment(t.dur);
    assert Render(t) == t.name + rest;
    if t.desc.Some? {
      ParseTimingSplit(t.name, rest);
      ParseParamsDesc(t.name, t.desc.value, t.dur);
    } else if t.dur.Some? {
      assert rest == DurSegment(t.dur);
      ParseTimingSplit(t.name, rest);
      ParseParamsDur(t.name, t.dur.value);
    } else {
      assert Render(t) == t.name;
    }
  }

  /** A description ending in a backslash does not survive: its closing quote reads as escaped. */
  /**
   * A reader for the quoted-string of section 3.2.6 of RFC 7230, in which a
   * backslash escapes whatever character follows it. ScanQuoted, the model's
   * own reader, unescapes only `\"`.
   */
  function QuotedStringScan(t: string): Option<(string, string)>
    decreases |t|
  {
    if t == [] then None
    else if t[0] == '"' then Some(([], t[1..]))
    else if t[0] == '\\' then (if |t| < 2 then None else Prepend(t[1], QuotedStringScan(t[2..])))
    else Prepend(t[0], QuotedStringScan(t[1..]))
  }

  /** Under quoted-string rules, the description `a\b` as written reads back as `ab`. */
  lemma InteriorBackslashLost()
    ensures Escape("a\\b") == "a\\b"
    ensures QuotedStringScan(Escape("a\\b") + "\"") == Some(("ab", ""))
  {
    EscapeWithoutQuotes("a\\b");
    var t: string := "a\\b\"";
    assert t[1..] == "\\b\"";
    assert t[1..][2..] == "\"";
    assert "\""[1..] == [];
    assert QuotedStringScan(t[1..][2..]) == Some(([], []));
    assert QuotedStringScan(t[1..]) == Some(("b", []));
    assert ['a'] + "b" == "ab";
    assert QuotedStringScan(t) == Some(("ab", []));
  }

  /** Under quoted-string rules, the description `\"` as written reads back as `\` and closes early. */
  lemma EscapedQuoteClosesEarly()
    ensures Escape("\\\"") == "\\\\\""
    ensures QuotedStringScan(Escape("\\\"") + "\"") == Some(("\\", "\""))
  {
    var d: string := "\\\"";
    assert d[1..] == "\"";
    assert Escape(d[1..]) == "\\\"" by { assert d[1..][1..] == []; }
    var t: string := "\\\\\"\"";
    assert t[2..] == "\"\"";
    assert t[2..][1..] == "\"";
    assert QuotedStringScan(t[2..]) == Some(([], "\""));
    assert ['\\'] + [] == "\\";
    assert QuotedStringScan(t) == Some(("\\", "\""));
  }

  lemma TrailingBackslashLost()
    ensures ParseTiming(Render(Timing("a", Some("\\"), None))) == None
  {
    var r := Render(Timing("a", Some("\\"), None));
    assert r == "a;desc=\"\\\"";
    assert IndexOf(r, ';') == Some(1) by { IndexOfJoin("a", ';', "desc=\"\\\""); }
    assert r[1..] == DescOpen + "\\\"";
    assert (DescOpen + "\\\"")[|DescOpen|..] == "\\\"";
    assert ScanQuoted("\\\"") == None by {
      assert ("\\\"")[2..] == [];
    }
  }
}
