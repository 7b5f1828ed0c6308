/**
 * The per-request timing log `ServerTimings`: an append-only list of entries
 * and a cursor holding the clock reading of the last automatic measurement.
 * Clock readings are passed in as `now`, in microseconds.
 */
module ServerTimingLog {
  import opened Wrappers
  import opened Timings
  import opened ServerTimingHeader

  /** The time from `cursor` to `now`; a reading before the cursor gives zero, as `duration_since` does. */
  function Elapsed(cursor: nat, now: nat): nat {
    if cursor <= now then now - cursor else 0
  }

  class ServerTimings {
    /** Timing collection switched off: the `hide_server_timings` build. */
    const hidden: bool
    var timings: seq<Timing>
    var lastTiming: nat

    /** A log that collects nothing stays empty. */
    ghost predicate Valid()
      reads this
    {
      hidden ==> timings == []
    }

    /** `new` and `default`: an empty log whose cursor is the current reading. */
    constructor (hidden: bool, now: nat)
      ensures Valid()
      ensures this.hidden == hidden && timings == [] && lastTiming == now
    {
      this.hidden := hidden;
      timings := [];
      lastTiming := now;
    }

    /** Appends `timing` unless collection is switched off; the cursor stays put. */
    method AddTiming(timing: Timing)
      requires Valid()
      modifies this
      ensures Valid()
      ensures timings == if hidden then old(timings) else old(timings) + [timing]
      ensures lastTiming == old(lastTiming)
    {
      if !hidden {
        timings := timings + [timing];
      }
    }

    /** Appends an entry with the given fields exactly; the cursor stays put. */
    method RecordAll(name: string, desc: Option<string>, dur: Option<nat>)
      requires Valid()
      modifies this
      ensures Valid()
      ensures timings == if hidden then old(timings) else old(timings) + [Timing(name, desc, dur)]
      ensures lastTiming == old(lastTiming)
    {
      AddTiming(Timing(name, desc, dur));
    }

    /** The time since the cursor, moving the cursor to `now`; zero, with no move, when switched off. */
    method AdvanceDuration(now: nat) returns (dur: nat)
      modifies this
      ensures timings == old(timings)
      ensures hidden ==> dur == 0 && lastTiming == old(lastTiming)
      ensures !hidden ==> dur == Elapsed(old(lastTiming), now) && lastTiming == now
    {
      if hidden {
        dur := 0;
      } else {
        dur := Elapsed(lastTiming, now);
        lastTiming := now;
      }
    }

    /** Logs `name` and `desc` with the time elapsed since the previous measurement. */
    method Record(name: string, desc: string, now: nat)
      requires Valid()
      modifies this
      ensures Valid()
      ensures hidden ==> timings == [] && lastTiming == old(lastTiming)
      ensures !hidden ==> lastTiming == now
      ensures !hidden ==> timings == old(timings) + [Timing(name, Some(desc), Some(Elapsed(old(lastTiming), now)))]
    {
      var dur := AdvanceDuration(now);
      RecordAll(name, Some(desc), Some(dur));
    }

    /** Like Record, without a description. */
    method RecordName(name: string, now: nat)
      requires Valid()
      modifies this
      ensures Valid()
      ensures hidden ==> timings == [] && lastTiming == old(lastTiming)
      ensures !hidden ==> lastTiming == now
      ensures !hidden ==> timings == old(timings) + [Timing(name, None, Some(Elapsed(old(lastTiming), now)))]
    {
      var dur := AdvanceDuration(now);
      RecordAll(name, None, Some(dur));
    }

    /**
     * A run of RecordName calls, one per name, at the successive readings of
     * a monotonic clock: the entries logged carry the durations `Durations`
     * gives, the cursor only moves forward, and the durations add up to the
     * time from the first cursor to the last reading.
     */
    method RecordNames(names: seq<string>, clock: seq<nat>)
      requires Valid()
      requires |names| == |clock| && Monotone(lastTiming, clock)
      modifies this
      ensures Valid()
      ensures hidden ==> timings == [] && lastTiming == old(lastTiming)
      ensures !hidden ==> timings == old(timings) + Named(names, Durations(old(lastTiming), clock))
      ensures !hidden ==> old(lastTiming) <= lastTiming && (clock != [] ==> lastTiming == clock[|clock| - 1])
      ensures !hidden ==> Sum(Durations(old(lastTiming), clock)) == lastTiming - old(lastTiming)
    {
      ghost var start := lastTiming;
      var i := 0;
      while i < |clock|
        invariant 0 <= i <= |clock|
        invariant Valid()
        invariant hidden ==> timings == [] && lastTiming == start
        invariant !hidden ==> timings == old(timings) + Named(names[..i], Durations(start, clock[..i]))
        invariant !hidden ==> lastTiming == if i == 0 then start else clock[i - 1]
        invariant !hidden ==> start <= lastTiming && Monotone(lastTiming, clock[i..])
      {
        if !hidden {
          DurationsNext(start, clock, i);
          NamedNext(names, Durations(start, clock[..i]), i, Elapsed(lastTiming, clock[i]));
          assert clock[i..][1..] == clock[i + 1..];
        }
        RecordName(names[i], clock[i]);
        i := i + 1;
      }
      assert names[..i] == names && clock[..i] == clock;
      if !hidden && clock != [] {
        Telescoping(start, clock);
      }
    }

    /**
     * Writes every entry followed by `,` into a buffer, stopping at the first
     * failed write, trims the trailing commas and appends a `server-timing`
     * header after the existing ones if the result is an acceptable value.
     * Switched off, it hands `res` back untouched. It never fails.
     */
    method IntoResponseParts(fault: Option<WriteFault>, res: ResponseParts) returns (out: ResponseParts)
      ensures hidden || !IsFieldValue(HeaderValue(timings, fault)) ==> out == res
      ensures !hidden && IsFieldValue(HeaderValue(timings, fault))
          ==> out.headers == res.headers + [Header(HeaderName, HeaderValue(timings, fault))]
    {
      if hidden {
        return res;
      }
      var timingString: string := "";
      var hadError := false;
      ghost var rs := Texts(timings);
      var i := 0;
      while i < |timings|
        invariant 0 <= i <= |timings|
        invariant fault.Some? ==> i <= fault.value.entry
        invariant timingString == WithCommas(rs[..i])
      {
        var piece := Render(timings[i]) + ",";
        var failed := fault.Some? && fault.value.entry == i;
        WithCommasNext(rs, i);
        hadError := hadError || failed;
        timingString := timingString + (if failed then Cut(piece, fault.value.kept) else piece);
        if hadError {
          assert timingString == Assembled(timings, fault);
          break;
        }
        i := i + 1;
      }
      assert timingString == Assembled(timings, fault) by {
        if i == |timings| { assert rs[..i] == rs; }
      }
      var value := TrimEndCommas(timingString);
      if IsFieldValue(value) {
        out := ResponseParts(res.headers + [Header(HeaderName, value)]);
      } else {
        out := res;
      }
    }
  }

  // ---------------------------------------------------------------------------
  // Successive measurements.
  // ---------------------------------------------------------------------------

  /**
   * The durations logged by successive Record or RecordName calls at the
   * readings `clock`, starting with the cursor at `cursor`.
   */
  function Durations(cursor: nat, clock: seq<nat>): (ds: seq<nat>)
    ensures |ds| == |clock|
    decreases |clock|
  {
    if clock == [] then [] else [Elapsed(cursor, clock[0])] + Durations(clock[0], clock[1..])
  }

  /** Readings that never go back, starting from `cursor`, as a monotonic clock gives them. */
  predicate Monotone(cursor: nat, clock: seq<nat>)
    decreases |clock|
  {
    clock == [] || (cursor <= clock[0] && Monotone(clock[0], clock[1..]))
  }

  /** The entries RecordName logs for `names` with the durations `durs`. The ensures only unfold the comprehension for the solver. */
  function Named(names: seq<string>, durs: seq<nat>): (ts: seq<Timing>)
    requires |names| == |durs|
    ensures |ts| == |names|
    ensures forall j :: 0 <= j < |ts| ==> ts[j] == Timing(names[j], None, Some(durs[j]))
  {
    seq(|names|, j requires 0 <= j < |names| => Timing(names[j], None, Some(durs[j])))
  }

  lemma NamedNext(names: seq<string>, durs: seq<nat>, i: nat, d: nat)
    requires i < |names| && |durs| == i
    ensures Named(names[..i + 1], durs + [d]) == Named(names[..i], durs) + [Timing(names[i], None, Some(d))]
  {
  }

  /** One more reading adds one duration, measured from the previous reading (or the first cursor). */
  lemma {:induction false} DurationsNext(cursor: nat, clock: seq<nat>, i: nat)
    requires i < |clock|
    ensures Durations(cursor, clock[..i + 1])
         == Durations(cursor, clock[..i]) + [Elapsed(if i == 0 then cursor else clock[i - 1], clock[i])]
    decreases i
  {
    if i == 0 {
      assert clock[..1] == [clock[0]];
      assert clock[..1][1..] == [];
    } else {
      DurationsNext(clock[0], clock[1..], i - 1);
      assert clock[..i + 1][1..] == clock[1..][..i];
      assert clock[..i][1..] == clock[1..][..i - 1];
    }
  }

  function Sum(s: seq<nat>): nat
    decreases |s|
  {
    if s == [] then 0 else s[0] + Sum(s[1..])
  }

  /**
   * On a monotonic clock the cursor never moves back, and the logged
   * durations add up to the time from the first cursor to the last reading.
   */
  lemma {:induction false} Telescoping(cursor: nat, clock: seq<nat>)
    requires clock != [] && Monotone(cursor, clock)
    ensures cursor <= clock[|clock| - 1]
    ensures Sum(Durations(cursor, clock)) == clock[|clock| - 1] - cursor
    decreases |clock|
  {
    var rest := clock[1..];
    if rest != [] {
      Telescoping(clock[0], rest);
      assert rest[|rest| - 1] == clock[|clock| - 1];
    }
  }
}
