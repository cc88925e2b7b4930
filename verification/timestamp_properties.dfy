/** What the timestamp generator promises its callers, proved of the model
    in module TimestampGenerator: when a call returns, what it returns for a
    clock that stands still, moves on or moves back, and uniqueness of the
    values handed out over many calls. */
module TimestampProperties {
  import opened TimestampGenerator

  /** A successful exchange while the clock reads a nonzero millisecond ends
      the call, at that pass or earlier. */
  lemma {:induction false} ReturnsAtNonzeroReading(c: Packed, attempts: seq<Attempt>, i: nat)
    requires i < |attempts| && attempts[i].exchanged && TimestampFromMs(attempts[i].ms) != Zero
    ensures Run(c, attempts).result != Zero && Run(c, attempts).used <= i + 1
    decreases i
  {
    var p := PassOutcome(c, attempts[0]);
    if i > 0 && p.result == Zero {
      ReturnsAtNonzeroReading(p.next, attempts[1..], i - 1);
    }
  }

  /** From a cursor in millisecond 0 with a nonzero counter, such as the 1
      installed by an exchange that yielded 0, any successful exchange ends
      the call. */
  lemma {:induction false} ReturnsFromLowCursor(c: Packed, attempts: seq<Attempt>, j: nat)
    requires c.time == 0 && c.count != 0
    requires j < |attempts| && attempts[j].exchanged
    ensures Run(c, attempts).result != Zero && Run(c, attempts).used <= j + 1
    decreases j
  {
    if !attempts[0].exchanged {
      ReturnsFromLowCursor(c, attempts[1..], j - 1);
    }
  }

  /** `timestamp_now` returns by the second successful exchange whatever the
      clock says: an exchange can yield 0 only when the clock reads
      millisecond 0, and it then leaves the cursor at 1. */
  lemma {:induction false} ReturnsAfterTwoExchanges(c: Packed, attempts: seq<Attempt>, i: nat, j: nat)
    requires i < j < |attempts| && attempts[i].exchanged && attempts[j].exchanged
    ensures Run(c, attempts).result != Zero && Run(c, attempts).used <= j + 1
    decreases i
  {
    var p := PassOutcome(c, attempts[0]);
    if p.result == Zero {
      if i == 0 {
        assert p.next == Packed(0, 1);
        ReturnsFromLowCursor(p.next, attempts[1..], j - 1);
      } else {
        ReturnsAfterTwoExchanges(p.next, attempts[1..], i - 1, j - 1);
      }
    }
  }

  /** A generator that has never run, with the clock at 0 and every exchange
      succeeding: the first pass installs 1 and hands out 0, which does not
      end the loop, so the second pass returns 1 and leaves 2. */
  lemma ZeroClockOnFreshGenerator(attempts: seq<Attempt>)
    requires |attempts| >= 2 && attempts[0] == Attempt(0, true) && attempts[1] == Attempt(0, true)
    ensures Run(Zero, attempts) == Call(Packed(0, 1), Packed(0, 2), 2)
  {
    assert attempts[1..][0] == attempts[1];
  }

  /** While the clock stays in the cursor's millisecond, a call returns the
      cursor itself. */
  lemma {:induction false} SameMillisecondReturnsCursor(c: Packed, attempts: seq<Attempt>)
    requires c != Zero
    requires forall k :: 0 <= k < |attempts| ==> TimestampFromMs(attempts[k].ms) == ComponentTime(c)
    ensures Run(c, attempts).result != Zero ==> Run(c, attempts).result == c
    decreases |attempts|
  {
    if |attempts| > 0 && !attempts[0].exchanged {
      SameMillisecondReturnsCursor(c, attempts[1..]);
    }
  }

  /** Two calls in a row that read the same clock return `v` and `v + 1`, as
      long as the first did not use up the counter. */
  lemma ConsecutiveSameMillisecond(c: Packed, first: seq<Attempt>, second: seq<Attempt>)
    requires Run(c, first).result != Zero
    requires Run(c, first).result.count < CountMask
    requires forall k :: 0 <= k < |second| ==> second[k].ms == first[Run(c, first).used - 1].ms
    ensures var v := Run(c, first).result; var r := Run(Run(c, first).next, second);
      r.result != Zero ==> r.result == Packed(v.time, v.count + 1) && Value(r.result) == Value(v) + 1
  {
    SameMillisecondReturnsCursor(Run(c, first).next, second);
  }

  /** When every reading is a nonzero millisecond other than the cursor's, a
      call returns exactly the reading shifted into place: its counter
      restarts at 0. */
  lemma {:induction false} NewMillisecondRestartsCounter(c: Packed, attempts: seq<Attempt>, ms: u64)
    requires TimestampFromMs(ms) != Zero && TimestampFromMs(ms) != ComponentTime(c)
    requires forall k :: 0 <= k < |attempts| ==> attempts[k].ms == ms
    ensures Run(c, attempts).result != Zero ==> Run(c, attempts).result == TimestampFromMs(ms)
    decreases |attempts|
  {
    if |attempts| > 0 && !attempts[0].exchanged {
      NewMillisecondRestartsCounter(c, attempts[1..], ms);
    }
  }

  /** A call that follows another and reads a later millisecond returns that
      millisecond with counter 0.  When the first call took the last counter
      value, the cursor has already carried into the next millisecond; if the
      clock reads that one, the cursor returned is the same value. */
  lemma MillisecondCrossing(c: Packed, first: seq<Attempt>, second: seq<Attempt>, ms: u64)
    requires Run(c, first).result != Zero
    requires Run(c, first).result.time < TimestampFromMs(ms).time
    requires forall k :: 0 <= k < |second| ==> second[k].ms == ms
    ensures var r := Run(Run(c, first).next, second);
      r.result != Zero ==> r.result == TimestampFromMs(ms) && ComponentCount(r.result) == Zero
  {
    var n := Run(c, first).next;
    if ComponentTime(n) == TimestampFromMs(ms) {
      assert n != Zero;
      SameMillisecondReturnsCursor(n, second);
    } else {
      NewMillisecondRestartsCounter(n, second, ms);
    }
  }

  /** The clock going back is not hidden: a call that follows another and
      reads an earlier (nonzero) millisecond returns a smaller value. */
  lemma ClockRegression(c: Packed, first: seq<Attempt>, second: seq<Attempt>, ms: u64)
    requires Run(c, first).result != Zero
    requires TimestampFromMs(ms) != Zero && TimestampFromMs(ms).time < Run(c, first).result.time
    requires forall k :: 0 <= k < |second| ==> second[k].ms == ms
    ensures var r := Run(Run(c, first).next, second);
      r.result != Zero ==> Below(r.result, Run(c, first).result)
  {
    NewMillisecondRestartsCounter(Run(c, first).next, second, ms);
  }

  /** The values handed to callers, and the cursor left behind, when the
      passes of any number of callers are applied to a cursor holding `c` in
      the order their exchanges took effect.  A failed exchange changes
      nothing, so only the order of the successful ones matters. */
  datatype Trace = Trace(issued: seq<Packed>, next: Packed)

  function Replay(c: Packed, attempts: seq<Attempt>): (t: Trace)
    ensures |t.issued| <= |attempts|
    ensures forall k :: 0 <= k < |t.issued| ==> t.issued[k] != Zero
    decreases |attempts|
  {
    if |attempts| == 0 then Trace([], c)
    else
      var p := PassOutcome(c, attempts[0]);
      var rest := Replay(p.next, attempts[1..]);
      Trace((if p.result != Zero then [p.result] else []) + rest.issued, rest.next)
  }

  /** Replaying passes is the same as making calls one after another: the
      first call returns the first value handed out, and the remaining values
      come from the passes it left unused. */
  lemma {:induction false} ReplayIsCallsInSequence(c: Packed, attempts: seq<Attempt>)
    ensures var r := Run(c, attempts);
      Replay(c, attempts) ==
        if r.result != Zero then
          var rest := Replay(r.next, attempts[r.used..]);
          Trace([r.result] + rest.issued, rest.next)
        else Trace([], r.next)
    decreases |attempts|
  {
    if |attempts| > 0 {
      var p := PassOutcome(c, attempts[0]);
      if p.result == Zero {
        ReplayIsCallsInSequence(p.next, attempts[1..]);
        var r := Run(p.next, attempts[1..]);
        assert attempts[1..][r.used..] == attempts[r.used + 1..];
      }
    }
  }

  lemma ConcatAssociates<T>(x: seq<T>, y: seq<T>, z: seq<T>)
    ensures x + (y + z) == (x + y) + z
  {
  }

  /** Replaying two runs of passes one after the other. */
  lemma {:induction false} ReplayAppend(c: Packed, a: seq<Attempt>, b: seq<Attempt>)
    ensures var t := Replay(c, a); var u := Replay(t.next, b);
      Replay(c, a + b) == Trace(t.issued + u.issued, u.next)
    decreases |a|
  {
    if |a| > 0 {
      var p := PassOutcome(c, a[0]);
      var head: seq<Packed> := if p.result != Zero then [p.result] else [];
      assert (a + b)[0] == a[0];
      assert (a + b)[1..] == a[1..] + b;
      ReplayAppend(p.next, a[1..], b);
      var t' := Replay(p.next, a[1..]);
      var u := Replay(t'.next, b);
      ConcatAssociates(head, t'.issued, u.issued);
    } else {
      assert a + b == b;
    }
  }

  /** The conditions of one pass under which values stay in order: a
      successful exchange does not see a clock behind the cursor's
      millisecond, and does not find the cursor at the top word, whose
      increment wraps to 0. */
  predicate Forward(c: Packed, a: Attempt)
  {
    a.exchanged ==>
      c.time <= TimestampFromMs(a.ms).time && !(c.time == 0xFFF_FFFF_FFFF && c.count == CountMask)
  }

  /** Every pass of `attempts`, applied in turn from a cursor holding `c`,
      keeps to `Forward`. */
  predicate Tame(c: Packed, attempts: seq<Attempt>)
    decreases |attempts|
  {
    |attempts| == 0 ||
    (Forward(c, attempts[0]) && Tame(PassOutcome(c, attempts[0]).next, attempts[1..]))
  }

  /** Every value of `s` lies in the interval from `lo` (included) to `hi`
      (excluded), in the order of `Below`. */
  predicate Within(s: seq<Packed>, lo: Packed, hi: Packed)
  {
    forall k :: 0 <= k < |s| ==> !Below(s[k], lo) && Below(s[k], hi)
  }

  /** `s` is strictly increasing in the order of `Below`. */
  predicate Increasing(s: seq<Packed>)
  {
    forall i, j :: 0 <= i < j < |s| ==> Below(s[i], s[j])
  }

  /** A value below the interval of an increasing sequence may be put in
      front of it. */
  lemma Prepend(h: Packed, s: seq<Packed>, lo: Packed, mid: Packed, hi: Packed)
    requires !Below(h, lo) && Below(h, mid) && !Below(mid, lo) && !Below(hi, mid)
    requires Within(s, mid, hi) && Increasing(s)
    ensures Within([h] + s, lo, hi) && Increasing([h] + s)
  {
    var t := [h] + s;
    assert forall k :: 1 <= k < |t| ==> t[k] == s[k - 1];
  }

  /** The interval of a sequence may be widened downwards. */
  lemma Widen(s: seq<Packed>, lo: Packed, mid: Packed, hi: Packed)
    requires !Below(mid, lo) && Within(s, mid, hi)
    ensures Within(s, lo, hi)
  {
  }

  /** One pass that keeps to `Forward` moves the cursor forward, and a
      value it hands out lies between the old and the new cursor. */
  lemma PassMovesForward(c: Packed, a: Attempt)
    requires Forward(c, a)
    ensures var p := PassOutcome(c, a);
      !Below(p.next, c) && (p.result != Zero ==> !Below(p.result, c) && Below(p.result, p.next))
  {
  }

  /** Uniqueness and order: under those conditions the cursor never goes
      back, and every value handed out is at least the starting cursor, below
      the final cursor, and above every value handed out before it. */
  lemma {:induction false} TameIssuedIncreasing(c: Packed, attempts: seq<Attempt>)
    requires Tame(c, attempts)
    ensures var t := Replay(c, attempts);
      !Below(t.next, c) && Within(t.issued, c, t.next) && Increasing(t.issued)
    decreases |attempts|
  {
    if |attempts| > 0 {
      var p := PassOutcome(c, attempts[0]);
      PassMovesForward(c, attempts[0]);
      TameIssuedIncreasing(p.next, attempts[1..]);
      var rest := Replay(p.next, attempts[1..]);
      if p.result != Zero {
        Prepend(p.result, rest.issued, c, p.next, rest.next);
      } else {
        Widen(rest.issued, c, p.next, rest.next);
      }
    }
  }

  /** The first invariant of the generator: no value is handed out twice. */
  lemma TameIssuedUnique(c: Packed, attempts: seq<Attempt>)
    requires Tame(c, attempts)
    ensures var s := Replay(c, attempts).issued;
      forall i, j :: 0 <= i < |s| && 0 <= j < |s| && i != j ==> s[i] != s[j]
  {
    TameIssuedIncreasing(c, attempts);
    var s := Replay(c, attempts).issued;
    forall i, j | 0 <= i < |s| && 0 <= j < |s| && i != j
      ensures s[i] != s[j]
    {
      if i < j {
        assert Below(s[i], s[j]);
      } else {
        assert Below(s[j], s[i]);
      }
    }
  }

  /** `n` passes that all read `ms` and all succeed. */
  function Repeat(ms: u64, n: nat): (s: seq<Attempt>)
    ensures |s| == n && forall k :: 0 <= k < n ==> s[k] == Attempt(ms, true)
  {
    if n == 0 then [] else [Attempt(ms, true)] + Repeat(ms, n - 1)
  }

  /** Within one millisecond the values handed out count up by one from the
      cursor, as long as the counter has room. */
  lemma {:induction false} CountsUp(c: Packed, ms: u64, n: nat)
    requires c != Zero && ComponentTime(c) == TimestampFromMs(ms)
    requires c.count + n <= CountMask
    ensures var t := Replay(c, Repeat(ms, n));
      |t.issued| == n && t.next == Packed(c.time, c.count + n) &&
      forall k :: 0 <= k < n ==> t.issued[k] == Packed(c.time, c.count + k)
    decreases n
  {
    if n > 0 {
      assert Repeat(ms, n)[1..] == Repeat(ms, n - 1);
      CountsUp(Packed(c.time, c.count + 1), ms, n - 1);
    }
  }

  /** `Repeat` splits at any point. */
  lemma {:induction false} RepeatSplits(ms: u64, m: nat, n: nat)
    ensures Repeat(ms, m + n) == Repeat(ms, m) + Repeat(ms, n)
  {
  }

  /** What a fresh generator hands out while its clock stays on one
      millisecond for 2^20 + 1 passes. */
  lemma OverflowTrace(ms: u64, n: nat)
    requires 0 < ms < 0xFFF_FFFF_FFFF && n == CountMask + 2
    ensures var w := TimestampFromMs(ms); var s := Replay(Zero, Repeat(ms, n)).issued;
      |s| == n && s[n - 1] == w && forall k :: 0 <= k < n - 1 ==> s[k] == Packed(w.time, k)
  {
    var w := TimestampFromMs(ms);
    var a := Repeat(ms, 1);
    var b := Repeat(ms, n - 3);
    RepeatSplits(ms, 1, n - 3);
    RepeatSplits(ms, n - 2, 1);
    RepeatSplits(ms, n - 1, 1);
    assert Replay(Zero, a) == Trace([w], Packed(w.time, 1));
    CountsUp(Packed(w.time, 1), ms, n - 3);
    var ib := Replay(Packed(w.time, 1), b).issued;
    assert Replay(Packed(w.time, CountMask), a) == Trace([Packed(w.time, CountMask)], Packed(w.time + 1, 0));
    assert Replay(Packed(w.time + 1, 0), a) == Trace([w], Increment(w));
    ReplayAppend(Zero, a, b);
    ReplayAppend(Zero, a + b, a);
    ReplayAppend(Zero, a + b + a, a);
    var s := Replay(Zero, Repeat(ms, n)).issued;
    assert s == [w] + ib + [Packed(w.time, CountMask)] + [w];
  }

  /** The counter-overflow hazard is reproduced, not hidden: a fresh
      generator whose clock stays on one millisecond hands out that
      millisecond's 2^20 values in order, then carries into the next
      millisecond and hands out the first value again. */
  lemma ExhaustedCounterRepeatsValue(ms: u64, n: nat)
    requires 0 < ms < 0xFFF_FFFF_FFFF && n == CountMask + 2
    ensures var s := Replay(Zero, Repeat(ms, n)).issued;
      |s| == n && s[0] == TimestampFromMs(ms) && s[n - 1] == TimestampFromMs(ms)
      && forall k :: 0 < k < n - 1 ==> Below(s[k - 1], s[k])
  {
    OverflowTrace(ms, n);
  }

  /** Two calls on a fresh generator whose clock stays on one nonzero
      millisecond, the second of them seeing its first exchange fail
      spuriously (the cursor is left as it was) and retrying: the calls
      return the millisecond with counter 0, then with counter 1. */
  method FreshGeneratorTwoCalls(ms: u64) returns (first: Packed, second: Packed)
    requires TimestampFromMs(ms) != Zero
    ensures first == TimestampFromMs(ms) && ComponentCount(first) == Zero
    ensures second == Increment(first) && Value(second) == Value(first) + 1
  {
    var g := new Generator();
    var used: nat;
    first, used := g.TimestampNow([Attempt(ms, true)]);
    second, used := g.TimestampNow([Attempt(ms, false), Attempt(ms, true)]);
    assert [Attempt(ms, false), Attempt(ms, true)][1..] == [Attempt(ms, true)];
  }

}
