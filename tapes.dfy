/** The `Tape` value type of model.py: a fixed-width circular bit string,
    read from the most significant end, with a circular pattern search. */
module Tapes {
  import opened Bits
  import opened Options

  /** `width` is the tape's `_bits`, `value` its `tape` integer. */
  datatype Tape = Tape(width: nat, value: int)

  /** What the constructor guarantees of every tape it builds with a
      positive width. */
  predicate WellFormed(t: Tape)
  {
    t.width > 0 && 0 <= t.value < Pow2(t.width)
  }

  /** `Tape(hex_, bits)`: stores `hex_ - (hex_ >> bits << bits)`. */
  function MakeTape(hex: int, bits: nat): (t: Tape)
    ensures t.width == bits
    ensures t.value == hex % Pow2(bits)
    ensures 0 <= t.value < Pow2(bits)
  {
    LowBits(hex, bits);
    Tape(bits, hex - Shl(Shr(hex, bits), bits))
  }

  /** `__eq__`: two tapes are equal when their values are; the width is not
      compared. Among tapes of one width this is the datatype's equality. */
  function SameTape(a: Tape, b: Tape): (r: bool)
    ensures a.width == b.width ==> (r <==> a == b)
  {
    a.value == b.value
  }

  /** Bit `i` of a `w`-bit value, position 0 being the most significant. */
  function BitFromLeft(v: int, w: nat, i: nat): Bit
    requires i < w
  {
    BitAt(v, w - 1 - i)
  }

  /** `get_bit_from_left`: `tape >> (bits - i - 1) & 1` after `i %= bits`. */
  function GetBit(t: Tape, i: int): Bit
    requires t.width > 0
  {
    var j := i % t.width;
    BitAt(t.value, t.width - j - 1)
  }

  /** Reading a tape is circular: shifting the position by whole turns does
      not change the bit, and a position inside the tape reads that bit of
      the value from the left. */
  lemma GetBitPeriodic(t: Tape, i: int, turns: int)
    requires t.width > 0
    ensures GetBit(t, i + turns * t.width) == GetBit(t, i)
    ensures 0 <= i < t.width ==> GetBit(t, i) == BitFromLeft(t.value, t.width, i)
  {
    var w := t.width;
    assert i + turns * w == (i / w + turns) * w + i % w;
    DivModUnique(i + turns * w, w, i / w + turns, i % w);
    if 0 <= i < w {
      DivModUnique(i, w, 0, i);
    }
  }

  /** Bit `j` (from the left) of a `bits`-wide pattern:
      `pattern >> (bits - j - 1) & 1`. */
  function PatternBit(pattern: int, bits: nat, j: nat): Bit
    requires j < bits
  {
    BitAt(pattern, bits - j - 1)
  }

  /** The circular window of `bits` tape bits starting at `i` spells
      `pattern`, most significant bit first. */
  predicate Matches(t: Tape, pattern: int, bits: nat, i: int)
    requires t.width > 0
  {
    forall j :: 0 <= j < bits ==> GetBit(t, i + j) == PatternBit(pattern, bits, j)
  }

  /** The window at the position reached `e` steps after `start` matches. */
  predicate MatchesAfter(t: Tape, pattern: int, bits: nat, start: int, e: int)
    requires t.width > 0
  {
    Matches(t, pattern, bits, (start + e) % t.width)
  }

  /** The search as a function: the first of the offsets `d, d+1, ...,
      width-1` past `start` whose position matches. */
  function FirstMatchFrom(t: Tape, pattern: int, bits: nat, start: int, d: nat): (r: Option<nat>)
    requires t.width > 0
    ensures r.Some? ==> r.value < t.width
    decreases t.width - d
  {
    if d >= t.width then None
    else
      if MatchesAfter(t, pattern, bits, start, d) then Some((start + d) % t.width)
      else FirstMatchFrom(t, pattern, bits, start, d + 1)
  }

  /** What `search(pattern, bits, start_idx)` returns: on a tape of width 0
      the scan has no position to try. */
  function FirstMatch(t: Tape, pattern: int, bits: nat, start: int): (r: Option<nat>)
    ensures r.Some? ==> r.value < t.width
  {
    if t.width == 0 then None else FirstMatchFrom(t, pattern, bits, start, 0)
  }

  /** The inner loop of `search`: the flag `matched` starts at 1 and is
      cleared by the first pattern bit that differs from the window's. */
  method MatchAt(t: Tape, pattern: int, bits: nat, i: int) returns (matched: int)
    requires t.width > 0
    ensures matched == 0 || matched == 1
    ensures matched == 1 <==> Matches(t, pattern, bits, i)
  {
    matched := 1;
    for j := 0 to bits
      invariant matched == 1 <==> forall j' :: 0 <= j' < j ==> GetBit(t, i + j') == PatternBit(pattern, bits, j')
      invariant matched == 0 || matched == 1
    {
      // `matched &= ~(a ^ b)`: `~0` has every bit set and `~1` has bit 0
      // clear, so the flag survives exactly the pairs of equal bits.
      matched := if GetBit(t, i + j) == PatternBit(pattern, bits, j) then matched else 0;
    }
  }

  /** `search`: tries the `width` positions `start_idx, start_idx + 1, ...`
      (each reduced modulo the width) and returns the first whose window
      matches. */
  method Search(t: Tape, pattern: int, bits: nat, start: int) returns (r: Option<nat>)
    ensures r == FirstMatch(t, pattern, bits, start)
  {
    for k := start to start + t.width
      invariant t.width > 0 ==> FirstMatchFrom(t, pattern, bits, start, k - start) == FirstMatch(t, pattern, bits, start)
    {
      var i := k % t.width;
      assert MatchesAfter(t, pattern, bits, start, k - start) == Matches(t, pattern, bits, i);
      var matched := MatchAt(t, pattern, bits, i);
      if matched == 1 {
        return Some(i);
      }
    }
    return None;
  }

  /** Modular facts about the circular scan: the position reached after `e`
      steps from `start` is `e` steps away from it, and every position is
      reached after `(i - start) mod width` steps. */
  lemma CircularOffset(start: int, e: int, i: int, w: nat)
    requires w > 0 && 0 <= e < w && 0 <= i < w
    ensures i == (start + e) % w <==> (i - start) % w == e
  {
    var q := (start + e) / w;
    assert start + e == q * w + (start + e) % w;
    if i == (start + e) % w {
      assert i - start == (-q) * w + e;
      DivModUnique(i - start, w, -q, e);
    }
    if (i - start) % w == e {
      var q' := (i - start) / w;
      assert start + e == (-q') * w + i;
      DivModUnique(start + e, w, -q', i);
    }
  }

  lemma {:induction false} FirstMatchFromFacts(t: Tape, pattern: int, bits: nat, start: int, d: nat)
    requires t.width > 0 && d <= t.width
    ensures var r := FirstMatchFrom(t, pattern, bits, start, d);
      (r.None? <==> forall e :: d <= e < t.width ==> !MatchesAfter(t, pattern, bits, start, e)) &&
      (r.Some? ==>
        && Matches(t, pattern, bits, r.value)
        && d <= (r.value - start) % t.width
        && forall e :: d <= e < (r.value - start) % t.width ==> !MatchesAfter(t, pattern, bits, start, e))
    decreases t.width - d
  {
    if d < t.width {
      FirstMatchFromFacts(t, pattern, bits, start, d + 1);
      var i := (start + d) % t.width;
      if MatchesAfter(t, pattern, bits, start, d) {
        CircularOffset(start, d, i, t.width);
      }
    }
  }

  /** A found position is inside the tape, its window matches, and no
      position scanned before it (in circular order from `start`) does. */
  lemma SearchFindsFirst(t: Tape, pattern: int, bits: nat, start: int)
    requires FirstMatch(t, pattern, bits, start).Some?
    ensures var i := FirstMatch(t, pattern, bits, start).value;
      && 0 <= i < t.width
      && Matches(t, pattern, bits, i)
      && forall e :: 0 <= e < (i - start) % t.width ==> !MatchesAfter(t, pattern, bits, start, e)
  {
    FirstMatchFromFacts(t, pattern, bits, start, 0);
  }

  /** The search fails exactly when the pattern occurs at no position of the
      tape, whatever the starting index. */
  lemma SearchFailsIffAbsent(t: Tape, pattern: int, bits: nat, start: int)
    ensures FirstMatch(t, pattern, bits, start).None? <==>
      forall i :: 0 <= i < t.width ==> !Matches(t, pattern, bits, i)
  {
    if t.width > 0 {
      FirstMatchFromFacts(t, pattern, bits, start, 0);
    }
    if t.width > 0 && FirstMatch(t, pattern, bits, start).None? {
      forall i | 0 <= i < t.width
        ensures !Matches(t, pattern, bits, i)
      {
        var e := (i - start) % t.width;
        CircularOffset(start, e, i, t.width);
        assert !MatchesAfter(t, pattern, bits, start, e);
      }
    }
  }
}
