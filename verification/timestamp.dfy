/** A model of `nano::timestamp_generator` (nano/lib/timestamp.hpp).

    A packed timestamp is a 64-bit unsigned value made of two fields: the
    high 44 bits hold the milliseconds since the Unix epoch, the low 20 bits
    a counter that restarts at 0 each millisecond.  The model keeps the two
    fields apart (`Packed`); `Value` gives the 64-bit word they make up, and
    the lemmas of this module show that the operations on fields are the
    mask, shift, comparison and wrapping increment of `uint64_t` on words.

    The wall clock is not read here: every pass of the retry loop of
    `timestamp_now` is given, as an `Attempt`, the millisecond reading that
    `now()` would have taken and whether that pass's `compare_exchange_weak`
    succeeded.
 */
module TimestampGenerator {

  /** The values of `uint64_t`. */
  type u64 = x: int | 0 <= x < 0x1_0000_0000_0000_0000

  /** Width of the millisecond field. */
  const TimeBits: nat := 44
  /** Width of the per-millisecond counter. */
  const CountBits: nat := 20
  /** `~0ULL << count_bits`: every bit but the low 20. */
  const TimeMask: u64 := 0xFFFF_FFFF_FFF0_0000
  /** `~0ULL >> time_bits`: the low 20 bits. */
  const CountMask: u64 := 0xF_FFFF

  /** What the millisecond field can hold: 2^44 values. */
  type Millis = x: int | 0 <= x < 0x1000_0000_0000
  /** What the counter can hold: 2^20 values. */
  type Count = x: int | 0 <= x < 0x10_0000

  /** A packed timestamp, as its two fields. */
  datatype Packed = Packed(time: Millis, count: Count)

  /** The packed value 0, which `timestamp_now` never returns. */
  const Zero := Packed(0, 0)

  /** The 64-bit word a packed value stands for: the millisecond field
      shifted above the counter. */
  function Value(v: Packed): u64
  {
    v.time * 0x10_0000 + v.count
  }

  /** The fields of a 64-bit word: its high 44 bits and its low 20 bits. */
  function FromWord(w: u64): Packed
  {
    Packed(w / 0x10_0000, w % 0x10_0000)
  }

  /** The layout the generator's `static_assert` insists on: the two widths
      fill the word, and the two masks split it between them. */
  lemma MaskLayout()
    ensures TimeBits + CountBits == 64
    ensures CountMask + 1 == 0x10_0000 && TimeMask == 0x1_0000_0000_0000_0000 - 0x10_0000
    ensures TimeMask + CountMask == 0x1_0000_0000_0000_0000 - 1
  {
  }

  /** Division with remainder by 2^20 has only one answer. */
  lemma DivModUnique(x: int, q: int, r: int)
    requires 0 <= r < 0x10_0000 && x == q * 0x10_0000 + r
    ensures x / 0x10_0000 == q && x % 0x10_0000 == r
  {
  }

  /** Packed values and 64-bit words are in one-to-one correspondence. */
  lemma WordRoundTrip(v: Packed, w: u64)
    ensures FromWord(Value(v)) == v
    ensures Value(FromWord(w)) == w
  {
    DivModUnique(Value(v), v.time, v.count);
  }

  /** `component_time`: `value & time_mask`, the value with its counter cleared. */
  function ComponentTime(v: Packed): Packed
  {
    Packed(v.time, 0)
  }

  /** `component_count`: `value & count_mask`, the counter alone. */
  function ComponentCount(v: Packed): Packed
  {
    Packed(0, v.count)
  }

  /** On words, the two components are the value with its low 20 bits
      cleared and the low 20 bits alone: they share no bit (one is a
      multiple of 2^20, the other below it) and add up to the value. */
  lemma ComponentsAreMasks(v: Packed)
    ensures Value(ComponentCount(v)) == Value(v) % 0x10_0000 < 0x10_0000
    ensures Value(ComponentTime(v)) == Value(v) - Value(v) % 0x10_0000
    ensures Value(ComponentTime(v)) % 0x10_0000 == 0
    ensures Value(ComponentTime(v)) + Value(ComponentCount(v)) == Value(v)
  {
    DivModUnique(Value(v), v.time, v.count);
    DivModUnique(Value(ComponentTime(v)), v.time, 0);
  }

  /** `timestamp_from_ms`: `value << count_bits`.  Bits shifted past the top
      are lost, so only the milliseconds modulo 2^44 survive. */
  function TimestampFromMs(ms: u64): Packed
  {
    Packed(ms % 0x1000_0000_0000, 0)
  }

  /** On words the shift is a multiplication by 2^20 modulo 2^64; the counter
      of the result is 0, and a millisecond count below 2^44 is kept whole. */
  lemma TimestampFromMsShifts(ms: u64)
    ensures Value(TimestampFromMs(ms)) == (ms * 0x10_0000) % 0x1_0000_0000_0000_0000
    ensures ComponentCount(TimestampFromMs(ms)) == Zero
    ensures ComponentTime(TimestampFromMs(ms)) == TimestampFromMs(ms)
    ensures ms < 0x1000_0000_0000 ==> TimestampFromMs(ms).time == ms
  {
    var q := ms / 0x1000_0000_0000;
    var r := ms % 0x1000_0000_0000;
    assert ms * 0x10_0000 == q * 0x1_0000_0000_0000_0000 + r * 0x10_0000;
    assert 0 <= r * 0x10_0000 < 0x1_0000_0000_0000_0000;
  }

  /** `uint64_t` addition of one: the counter goes up, or it is full and
      carries into the milliseconds, which wrap to 0 at the top. */
  function Increment(v: Packed): Packed
  {
    if v.count < CountMask then Packed(v.time, v.count + 1)
    else if v.time < 0xFFF_FFFF_FFFF then Packed(v.time + 1, 0)
    else Zero
  }

  /** Division with remainder by 2^64 has only one remainder. */
  lemma DivModWord(x: int, q: int, r: int)
    requires 0 <= r < 0x1_0000_0000_0000_0000 && x == q * 0x1_0000_0000_0000_0000 + r
    ensures x % 0x1_0000_0000_0000_0000 == r
  {
  }

  /** On words, `Increment` adds one modulo 2^64. */
  lemma IncrementWraps(v: Packed)
    ensures Value(Increment(v)) == (Value(v) + 1) % 0x1_0000_0000_0000_0000
  {
    if v.count < CountMask {
      assert Value(Increment(v)) == Value(v) + 1;
      DivModWord(Value(v) + 1, 0, Value(v) + 1);
    } else if v.time < 0xFFF_FFFF_FFFF {
      assert Value(Increment(v)) == (v.time + 1) * 0x10_0000 == Value(v) + 1;
      DivModWord(Value(v) + 1, 0, Value(v) + 1);
    } else {
      assert Value(v) + 1 == 0x1_0000_0000_0000_0000;
      DivModWord(Value(v) + 1, 1, 0);
    }
  }

  /** Unsigned comparison of packed values: milliseconds first, then the counter. */
  predicate Below(a: Packed, b: Packed)
  {
    a.time < b.time || (a.time == b.time && a.count < b.count)
  }

  /** `Below` is `<` on the words. */
  lemma BelowIsUnsignedLess(a: Packed, b: Packed)
    ensures Below(a, b) <==> Value(a) < Value(b)
  {
  }

  /** One pass of the retry loop of `timestamp_now`: `ms` is the clock
      reading taken by `now()` in milliseconds, and `exchanged` says whether
      the pass's `compare_exchange_weak` succeeded. */
  datatype Attempt = Attempt(ms: u64, exchanged: bool)

  /** What one pass leaves behind: the loop variable `result` and the cursor `next`. */
  datatype Pass = Pass(result: Packed, next: Packed)

  /** The effect of one pass on a cursor holding `c`.  A successful exchange
      hands out a value stamped with the clock reading and leaves the cursor
      one past it: the reading itself when the cursor belongs to another
      millisecond, the cursor when it belongs to this one.  A failed exchange
      changes nothing and yields 0, so the loop goes round again. */
  function PassOutcome(c: Packed, a: Attempt): (p: Pass)
    ensures !a.exchanged ==> p == Pass(Zero, c)
    ensures a.exchanged ==> p.next == Increment(p.result)
    ensures a.exchanged ==> ComponentTime(p.result) == TimestampFromMs(a.ms)
    ensures a.exchanged && ComponentTime(c) == TimestampFromMs(a.ms) ==> p.result == c
    ensures a.exchanged && ComponentTime(c) != TimestampFromMs(a.ms) ==> ComponentCount(p.result) == Zero
  {
    var nowL := TimestampFromMs(a.ms);
    if ComponentTime(c) != nowL then
      if a.exchanged then Pass(nowL, Increment(nowL)) else Pass(Zero, c)
    else
      if a.exchanged then Pass(c, Increment(c)) else Pass(Zero, c)
  }

  /** The outcome of one call of `timestamp_now`: the value returned, the
      cursor afterwards, and how many passes of the loop it took. */
  datatype Call = Call(result: Packed, next: Packed, used: nat)

  /** One call of `timestamp_now` from a cursor holding `c`, fed the passes in
      `attempts`: the loop runs while `result == 0`.  If the passes run out
      first the call is reported with result 0 (the code would keep spinning).
      A call that returns ends on an exchange, leaves the cursor one past the
      value it returns, and that value carries the millisecond read on its
      last pass. */
  function Run(c: Packed, attempts: seq<Attempt>): (r: Call)
    ensures r.used <= |attempts|
    ensures r.result == Zero ==> r.used == |attempts|
    ensures r.result != Zero ==> 0 < r.used && attempts[r.used - 1].exchanged
    ensures r.result != Zero ==> r.next == Increment(r.result)
    ensures r.result != Zero ==> ComponentTime(r.result) == TimestampFromMs(attempts[r.used - 1].ms)
    decreases |attempts|
  {
    if |attempts| == 0 then Call(Zero, c, 0)
    else
      var p := PassOutcome(c, attempts[0]);
      if p.result != Zero then Call(p.result, p.next, 1)
      else
        var rest := Run(p.next, attempts[1..]);
        Call(rest.result, rest.next, rest.used + 1)
  }

  /** One pass of the loop, then the rest of the call unless that pass ended it. */
  lemma RunUnfolds(c: Packed, attempts: seq<Attempt>)
    requires |attempts| > 0
    ensures var p := PassOutcome(c, attempts[0]);
      Run(c, attempts) == if p.result != Zero then Call(p.result, p.next, 1)
                          else var rest := Run(p.next, attempts[1..]); Call(rest.result, rest.next, rest.used + 1)
  {
  }

  /** Where a call stands after `used` passes with loop variable `result`
      and cursor `next`: finished if `result` is nonzero, otherwise still to
      run on the remaining passes. */
  function Resume(result: Packed, next: Packed, used: nat, attempts: seq<Attempt>): Call
    requires used <= |attempts|
  {
    if result != Zero then Call(result, next, used)
    else var rest := Run(next, attempts[used..]); Call(rest.result, rest.next, rest.used + used)
  }

  /** The generator: its only state is the cursor `next`, the next candidate
      value, 0 when the generator is made. */
  class Generator {
    var next: Packed

    constructor ()
      ensures next == Zero
    {
      next := Zero;
    }

    /** `timestamp_now`: spins until a pass yields a nonzero value, consuming
        one attempt per pass. */
    method TimestampNow(attempts: seq<Attempt>) returns (result: Packed, used: nat)
      modifies this
      ensures Call(result, next, used) == Run(old(next), attempts)
      ensures result != Zero ==> next == Increment(result)
    {
      result := Zero;
      used := 0;
      while result == Zero && used < |attempts|
        invariant used <= |attempts|
        invariant Run(old(next), attempts) == Resume(result, next, used, attempts)
        decreases |attempts| - used
      {
        assert attempts[used..][1..] == attempts[used + 1..];
        ghost var c := next;
        result := next;
        var nowL := TimestampFromMs(attempts[used].ms);
        if ComponentTime(result) != nowL {
          if attempts[used].exchanged {
            next := Increment(nowL);
            result := nowL;
          } else {
            result := Zero;
          }
        } else {
          if attempts[used].exchanged {
            next := Increment(result);
          } else {
            result := Zero;
          }
        }
        assert Pass(result, next) == PassOutcome(c, attempts[used]);
        RunUnfolds(c, attempts[used..]);
        used := used + 1;
      }
    }
  }
}
