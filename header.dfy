/**
 * The `server-timing` header value built from a timing log: every entry
 * rendered and followed by `,`, in log order, cut short at a failed write,
 * with all trailing commas trimmed; it is added to the response only when it
 * is an acceptable header value.
 */
module ServerTimingHeader {
  import opened Wrappers
  import opened Timings

  const HeaderName: string := "server-timing"

  datatype Header = Header(name: string, value: string)

  /** The headers of a response under construction; existing entries are kept in order. */
  datatype ResponseParts = ResponseParts(headers: seq<Header>)

  /**
   * The write of entry number `entry` fails after `kept` of its characters
   * reached the buffer. Writing into a `String` never fails, so this only
   * describes the error path the code guards against.
   */
  datatype WriteFault = WriteFault(entry: nat, kept: nat)

  // ---------------------------------------------------------------------------
  // Header value validity: TAB, or a visible or non-ASCII character.
  // ---------------------------------------------------------------------------

  predicate IsFieldChar(c: char) {
    c == '\t' || (' ' <= c && c as int != 0x7F)
  }

  predicate IsFieldValue(s: string) {
    forall i :: 0 <= i < |s| ==> IsFieldChar(s[i])
  }

  lemma FieldValueAppend(a: string, b: string)
    ensures IsFieldValue(a + b) <==> IsFieldValue(a) && IsFieldValue(b)
  {
    if IsFieldValue(a) && IsFieldValue(b) {
      forall i | 0 <= i < |a + b| ensures IsFieldChar((a + b)[i]) {
        if i < |a| { assert (a + b)[i] == a[i]; } else { assert (a + b)[i] == b[i - |a|]; }
      }
    }
    if IsFieldValue(a + b) {
      forall i | 0 <= i < |a| ensures IsFieldChar(a[i]) { assert (a + b)[i] == a[i]; }
      forall i | 0 <= i < |b| ensures IsFieldChar(b[i]) { assert (a + b)[|a| + i] == b[i]; }
    }
  }

  /** Escaping adds only backslashes and quotes, so it keeps a description acceptable, and only then. */
  lemma {:induction false} EscapeFieldValue(d: string)
    ensures IsFieldValue(Escape(d)) <==> IsFieldValue(d)
  {
    if d != [] {
      var h: string := if d[0] == '"' then "\\\"" else [d[0]];
      EscapeFieldValue(d[1..]);
      assert Escape(d) == h + Escape(d[1..]);
      assert d == [d[0]] + d[1..];
      FieldValueAppend(h, Escape(d[1..]));
      FieldValueAppend([d[0]], d[1..]);
      assert IsFieldValue(h) <==> IsFieldChar(d[0]);
    }
  }

  /** An entry whose name and description are acceptable. */
  predicate FieldSafe(t: Timing) {
    IsFieldValue(t.name) && (t.desc.Some? ==> IsFieldValue(t.desc.value))
  }

  lemma RenderFieldValue(t: Timing)
    ensures IsFieldValue(Render(t)) <==> FieldSafe(t)
  {
    var ds := DescSegment(t.desc);
    var us := DurSegment(t.dur);
    assert Render(t) == t.name + ds + us;
    FieldValueAppend(t.name + ds, us);
    FieldValueAppend(t.name, ds);
    if t.desc.Some? {
      var d := t.desc.value;
      assert ds == DescOpen + Escape(d) + "\"";
      FieldValueAppend(DescOpen + Escape(d), "\"");
      FieldValueAppend(DescOpen, Escape(d));
      EscapeFieldValue(d);
    }
    if t.dur.Some? {
      var f := FormatDur(t.dur.value);
      assert us == DurOpen + f;
      FieldValueAppend(DurOpen, f);
      assert IsFieldValue(f) by {
        forall i | 0 <= i < |f| ensures IsFieldChar(f[i]) { assert IsDigit(f[i]) || f[i] == '.'; }
      }
    }
  }

  // ---------------------------------------------------------------------------
  // Trimming every trailing comma.
  // ---------------------------------------------------------------------------

  /** `s` without its run of trailing commas: a prefix that no longer ends in `,`. */
  function TrimEndCommas(s: string): (r: string)
    ensures |r| <= |s| && r == s[..|r|]
    ensures r == [] || r[|r| - 1] != ','
    ensures forall i :: |r| <= i < |s| ==> s[i] == ','
    decreases |s|
  {
    if s != [] && s[|s| - 1] == ',' then TrimEndCommas(s[..|s| - 1]) else s
  }

  predicate AllCommas(s: string) {
    forall i :: 0 <= i < |s| ==> s[i] == ','
  }

  /** Commas added at the end make no difference once trimmed. */
  lemma {:induction false} TrimIgnoresCommas(s: string, c: string)
    requires AllCommas(c)
    ensures TrimEndCommas(s + c) == TrimEndCommas(s)
    decreases |c|
  {
    if c != [] {
      var c' := c[..|c| - 1];
      assert (s + c)[..|s + c| - 1] == s + c';
      TrimIgnoresCommas(s, c');
    } else {
      assert s + c == s;
    }
  }

  /** A value that does not end in a comma loses exactly the one comma written after it. */
  lemma TrimOneComma(s: string)
    requires s != [] && s[|s| - 1] != ','
    ensures TrimEndCommas(s + ",") == s
  {
    assert (s + ",")[..|s|] == s;
  }

  lemma TrimFieldValue(s: string)
    ensures IsFieldValue(TrimEndCommas(s)) <==> IsFieldValue(s)
  {
    var r := TrimEndCommas(s);
    assert s == r + s[|r|..];
    FieldValueAppend(r, s[|r|..]);
    assert IsFieldValue(s[|r|..]) by {
      forall i | 0 <= i < |s| - |r| ensures IsFieldChar(s[|r|..][i]) { assert s[|r| + i] == ','; }
    }
  }

  // ---------------------------------------------------------------------------
  // Assembling the buffer.
  // ---------------------------------------------------------------------------

  /** The text of each entry, in log order. The ensures only unfold the comprehension for the solver. */
  function Texts(ts: seq<Timing>): (rs: seq<string>)
    ensures |rs| == |ts| && forall i :: 0 <= i < |ts| ==> rs[i] == Render(ts[i])
  {
    seq(|ts|, i requires 0 <= i < |ts| => Render(ts[i]))
  }

  /** The buffer after `write!(buffer, "{timing},")` for each text of `rs`, in order. */
  function WithCommas(rs: seq<string>): string
    decreases |rs|
  {
    if rs == [] then [] else WithCommas(rs[..|rs| - 1]) + (rs[|rs| - 1] + ",")
  }

  /** The texts separated by commas, with none after the last. */
  function Joined(rs: seq<string>): string
    requires rs != []
    decreases |rs|
  {
    if |rs| == 1 then rs[0] else Joined(rs[..|rs| - 1]) + "," + rs[|rs| - 1]
  }

  /** Writing two runs of entries one after the other writes their buffers one after the other. */
  lemma {:induction false} WithCommasAppend(a: seq<string>, b: seq<string>)
    ensures WithCommas(a + b) == WithCommas(a) + WithCommas(b)
    decreases |b|
  {
    if b == [] {
      assert a + b == a;
    } else {
      var b', x := b[..|b| - 1], b[|b| - 1];
      assert (a + b)[..|a + b| - 1] == a + b';
      WithCommasAppend(a, b');
    }
  }

  lemma {:induction false} WithCommasJoined(rs: seq<string>)
    requires rs != []
    ensures WithCommas(rs) == Joined(rs) + ","
    decreases |rs|
  {
    if |rs| == 1 {
      assert rs[..0] == [];
    } else {
      WithCommasJoined(rs[..|rs| - 1]);
    }
  }

  /** One more entry written: its text and a comma follow what was there. */
  lemma WithCommasNext(rs: seq<string>, i: nat)
    requires i < |rs|
    ensures WithCommas(rs[..i + 1]) == WithCommas(rs[..i]) + (rs[i] + ",")
  {
    assert rs[..i + 1][..i] == rs[..i];
  }

  lemma WithCommasSplit(rs: seq<string>, k: nat)
    requires k < |rs|
    ensures WithCommas(rs) == WithCommas(rs[..k]) + (rs[k] + ",") + WithCommas(rs[k + 1..])
  {
    var head, tail := rs[..k + 1], rs[k + 1..];
    calc {
      WithCommas(rs);
      { assert rs == head + tail; }
      WithCommas(head + tail);
      { WithCommasAppend(head, tail); }
      WithCommas(head) + WithCommas(tail);
      { WithCommasNext(rs, k); }
      WithCommas(rs[..k]) + (rs[k] + ",") + WithCommas(tail);
    }
  }

  lemma {:induction false} WithCommasFieldValue(rs: seq<string>)
    ensures IsFieldValue(WithCommas(rs)) <==> forall i :: 0 <= i < |rs| ==> IsFieldValue(rs[i])
    decreases |rs|
  {
    if rs != [] {
      var init, last := rs[..|rs| - 1], rs[|rs| - 1];
      WithCommasFieldValue(init);
      FieldValueAppend(WithCommas(init), last + ",");
      FieldValueAppend(last, ",");
      assert forall i :: 0 <= i < |init| ==> init[i] == rs[i];
    }
  }

  /** The end of the loop's write after `kept` characters of `piece`, as far as `piece` goes. */
  function Cut(piece: string, kept: nat): string {
    piece[..if kept < |piece| then kept else |piece|]
  }

  lemma CutIsPrefix(pre: string, piece: string, rest: string, kept: nat)
    ensures (pre + piece + rest)[..|pre| + |Cut(piece, kept)|] == pre + Cut(piece, kept)
  {
    var cut := Cut(piece, kept);
    assert piece[..|cut|] == cut;
  }

  /** The buffer once the loop is over: every entry, or those before the fault and part of the failed one. */
  function Assembled(ts: seq<Timing>, fault: Option<WriteFault>): string {
    var rs := Texts(ts);
    if fault.Some? && fault.value.entry < |ts| then
      WithCommas(rs[..fault.value.entry]) + Cut(rs[fault.value.entry] + ",", fault.value.kept)
    else
      WithCommas(rs)
  }

  /** The value offered to the header check. */
  function HeaderValue(ts: seq<Timing>, fault: Option<WriteFault>): string {
    TrimEndCommas(Assembled(ts, fault))
  }

  lemma TextsAppend(a: seq<Timing>, b: seq<Timing>)
    ensures Texts(a + b) == Texts(a) + Texts(b)
  {
  }

  /** Entries appear in the buffer in log order: appending entries appends their text. */
  lemma AssembledAppend(a: seq<Timing>, b: seq<Timing>)
    ensures Assembled(a + b, None) == Assembled(a, None) + Assembled(b, None)
  {
    TextsAppend(a, b);
    WithCommasAppend(Texts(a), Texts(b));
  }

  /** A failed write cuts the output short: what was assembled is a prefix of the complete buffer. */
  lemma AssembledIsPrefix(ts: seq<Timing>, fault: Option<WriteFault>)
    ensures |Assembled(ts, fault)| <= |Assembled(ts, None)|
    ensures Assembled(ts, fault) == Assembled(ts, None)[..|Assembled(ts, fault)|]
  {
    if fault.Some? && fault.value.entry < |ts| {
      var rs, k := Texts(ts), fault.value.entry;
      var pre, rest := WithCommas(rs[..k]), WithCommas(rs[k + 1..]);
      var piece := rs[k] + ",";
      var cut := Cut(piece, fault.value.kept);
      assert Assembled(ts, fault) == pre + cut;
      assert Assembled(ts, None) == pre + piece + rest by {
        WithCommasSplit(rs, k);
      }
      CutIsPrefix(pre, piece, rest, fault.value.kept);
    }
  }

  /**
   * Without a failed write, the header value is the entries joined by commas
   * whenever the last entry's text is not empty and does not end in a comma.
   */
  lemma HeaderValueJoined(ts: seq<Timing>)
    requires ts != []
    requires Render(ts[|ts| - 1]) != [] && Render(ts[|ts| - 1])[|Render(ts[|ts| - 1])| - 1] != ','
    ensures HeaderValue(ts, None) == Joined(Texts(ts))
  {
    var rs := Texts(ts);
    WithCommasJoined(rs);
    var j := Joined(rs);
    var last := rs[|rs| - 1];
    if |rs| > 1 {
      assert j == Joined(rs[..|rs| - 1]) + "," + last;
    }
    assert j[|j| - 1] == last[|last| - 1];
    TrimOneComma(j);
  }

  /** A trailing entry whose text is only commas (an empty name, say) leaves no trace in the header. */
  lemma CommaEntryVanishes(ts: seq<Timing>, t: Timing)
    requires AllCommas(Render(t))
    ensures HeaderValue(ts + [t], None) == HeaderValue(ts, None)
  {
    var rs := Texts(ts + [t]);
    assert rs[..|ts|] == Texts(ts);
    assert WithCommas(rs) == WithCommas(Texts(ts)) + (Render(t) + ",");
    assert AllCommas(Render(t) + ",");
    TrimIgnoresCommas(WithCommas(Texts(ts)), Render(t) + ",");
  }

  /**
   * Without a failed write, the header value passes the check exactly when
   * every entry's name and description are acceptable header text.
   */
  lemma HeaderValueValidIff(ts: seq<Timing>)
    ensures IsFieldValue(HeaderValue(ts, None)) <==> forall i :: 0 <= i < |ts| ==> FieldSafe(ts[i])
  {
    var rs := Texts(ts);
    WithCommasFieldValue(rs);
    TrimFieldValue(WithCommas(rs));
    forall i | 0 <= i < |ts| ensures IsFieldValue(rs[i]) <==> FieldSafe(ts[i]) {
      RenderFieldValue(ts[i]);
    }
  }

  /** An empty log is not special: it yields the empty value, which passes the check. */
  lemma EmptyLogValue()
    ensures HeaderValue([], None) == [] && IsFieldValue(HeaderValue([], None))
  {
    assert Texts([]) == [];
  }

  lemma FormatHundredMs()
    ensures FormatDur(100000) == "100"
  {
    assert FormatNat(1) == "1";
    assert FormatNat(10) == "10";
    assert FormatNat(100) == "100";
  }

  lemma FormatFractionalMs()
    ensures FormatDur(250500) == "250.5"
  {
    assert FormatNat(2) == "2";
    assert FormatNat(25) == "25";
    assert FormatNat(250) == "250";
    assert FracDigits(500) == "5";
  }

  lemma RenderWaitEntry()
    ensures Render(Timing("wait", None, Some(100000))) == "wait;dur=100"
  {
    FormatHundredMs();
  }

  lemma DescComputeSegment()
    ensures DescSegment(Some("compute")) == ";desc=\"compute\""
  {
    EscapeWithoutQuotes("compute");
  }

  lemma RenderFibEntry()
    ensures Render(Timing("fib", Some("compute"), Some(250500))) == "fib" + ";desc=\"compute\"" + ";dur=250.5"
  {
    DescComputeSegment();
    FormatFractionalMs();
  }

  /** The header of a request that waited 100 ms and then computed for 250.5 ms. */
  lemma TwoEntryExample()
    ensures HeaderValue([Timing("wait", None, Some(100000)), Timing("fib", Some("compute"), Some(250500))], None)
         == "wait;dur=100" + "," + ("fib" + ";desc=\"compute\"" + ";dur=250.5")
  {
    var ts := [Timing("wait", None, Some(100000)), Timing("fib", Some("compute"), Some(250500))];
    RenderWaitEntry();
    RenderFibEntry();
    var rs := Texts(ts);
    assert rs == ["wait;dur=100", "fib" + ";desc=\"compute\"" + ";dur=250.5"];
    assert Joined(rs) == rs[0] + "," + rs[1] by {
      assert rs[..1] == [rs[0]];
    }
    HeaderValueJoined(ts);
  }
}
