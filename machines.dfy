/** The `Machine` value type of model.py: four 4-bit fields packed in 16
    bits, derivable from a tape, and `rewrite_tape`, the two-state transducer
    that a machine runs over the stretch of a tape between its landmarks. */
module Machines {
  import opened Bits
  import opened Options
  import opened Tapes

  type Nibble = x: int | 0 <= x < 16

  /** `tranT` is the output table, `tranM` the state-transition table, `head`
      and `tail` the landmark patterns. */
  datatype Machine = Machine(tranT: Nibble, tranM: Nibble, head: Nibble, tail: Nibble)

  /** `initial_state`, the same for every machine. */
  const INITIAL_STATE: Bit := 1

  /** Width of the landmark patterns passed to `search`. */
  const PATTERN_BITS: nat := 4

  /** Bit `j` of a nibble, counted from its most significant end. */
  function NibbleBit(n: Nibble, j: nat): Bit
    requires j < 4
  {
    BitAt(n, 3 - j)
  }

  /** `get_hex`: `(tranT << 12) + (tranM << 8) + (head << 4) + tail`. */
  function GetHex(m: Machine): (h: int)
    ensures 0 <= h < 0x1_0000
  {
    HexShifts(m.tranT, m.tranM, m.head);
    Shl(m.tranT, 12) + Shl(m.tranM, 8) + Shl(m.head, 4) + m.tail
  }

  lemma HexShifts(a: int, b: int, c: int)
    ensures Shl(a, 12) == a * 4096 && Shl(b, 8) == b * 256 && Shl(c, 4) == c * 16
  {
    Pow2Nibbles();
    ShlIsMul(a, 12);
    ShlIsMul(b, 8);
    ShlIsMul(c, 4);
  }

  /** `get_hex` as a plain sum of multiples. */
  lemma GetHexValue(m: Machine)
    ensures GetHex(m) == m.tranT * 4096 + m.tranM * 256 + m.head * 16 + m.tail
  {
    HexShifts(m.tranT, m.tranM, m.head);
  }

  lemma ShrNibbles(h: int)
    ensures Shr(h, 12) == h / 4096 && Shr(h, 8) == h / 256 && Shr(h, 4) == h / 16
  {
    Pow2Nibbles();
    ShrIsFloorDiv(h, 12);
    ShrIsFloorDiv(h, 8);
    ShrIsFloorDiv(h, 4);
  }

  /** `from_hex`: each field is `hex_ >> k & 0b1111`. */
  function FromHex(h: int): Machine
  {
    Machine(Shr(h, 12) % 16, Shr(h, 8) % 16, Shr(h, 4) % 16, h % 16)
  }

  /** Encoding then decoding gives the machine back. */
  lemma HexRoundTrip(m: Machine)
    ensures FromHex(GetHex(m)) == m
  {
    var h := GetHex(m);
    GetHexValue(m);
    assert h == m.tranT * 4096 + m.tranM * 256 + m.head * 16 + m.tail;
    ShrNibbles(h);
    DivModUnique(h, 4096, m.tranT, m.tranM * 256 + m.head * 16 + m.tail);
    DivModUnique(h, 256, m.tranT * 16 + m.tranM, m.head * 16 + m.tail);
    DivModUnique(h, 16, m.tranT * 256 + m.tranM * 16 + m.head, m.tail);
    DivModUnique(m.tranT * 16 + m.tranM, 16, m.tranT, m.tranM);
    DivModUnique(m.tranT * 256 + m.tranM * 16 + m.head, 16, m.tranT * 16 + m.tranM, m.head);
  }

  /** `__eq__`: field-by-field comparison, which is the datatype's equality
      and, by the round trip, equality of the 16-bit encodings. */
  function SameMachine(a: Machine, b: Machine): (r: bool)
    ensures r <==> a == b
    ensures r <==> GetHex(a) == GetHex(b)
  {
    HexRoundTrip(a);
    HexRoundTrip(b);
    a.tranT == b.tranT && a.tranM == b.tranM && a.head == b.head && a.tail == b.tail
  }

  /** Decoding then encoding gives back the low 16 bits of any integer, so
      every `h` in `[0, 2^16)` survives the round trip. */
  lemma {:induction false} HexDecodeEncode(h: int)
    ensures GetHex(FromHex(h)) == h % 0x1_0000
    ensures 0 <= h < 0x1_0000 ==> GetHex(FromHex(h)) == h
  {
    var a, b, c, d := (h / 4096) % 16, (h / 256) % 16, (h / 16) % 16, h % 16;
    ShrNibbles(h);
    assert FromHex(h) == Machine(a, b, c, d);
    GetHexValue(Machine(a, b, c, d));
    NibblesOf(h);
    assert GetHex(FromHex(h)) == h % 0x1_0000;
    if 0 <= h < 0x1_0000 {
      DivModUnique(h, 0x1_0000, 0, h);
    }
  }

  /** The four low nibbles of `h`, read by division, add up to `h mod 2^16`. */
  lemma NibblesOf(h: int)
    ensures ((h / 4096) % 16) * 4096 + ((h / 256) % 16) * 256 + ((h / 16) % 16) * 16 + h % 16 == h % 0x1_0000
  {
    // h / 256 and h / 4096 are obtained by further divisions of h / 16.
    DivModUnique(h, 256, (h / 16) / 16, ((h / 16) % 16) * 16 + h % 16);
    DivModUnique(h, 4096, ((h / 16) / 16) / 16, (((h / 16) / 16) % 16) * 256 + ((h / 16) % 16) * 16 + h % 16);
    var low := ((h / 4096) % 16) * 4096 + ((h / 256) % 16) * 256 + ((h / 16) % 16) * 16 + h % 16;
    assert h == (h / 0x1_0000) * 0x1_0000 + low;
    DivModUnique(h, 0x1_0000, h / 0x1_0000, low);
  }

  lemma NibbleBits(a: Bit, b: Bit, c: Bit, d: Bit)
    ensures var n := Shl(a, 3) + Shl(b, 2) + Shl(c, 1) + d;
      0 <= n < 16 && BitAt(n, 3) == a && BitAt(n, 2) == b && BitAt(n, 1) == c && BitAt(n, 0) == d
  {
    var n := a * 8 + b * 4 + c * 2 + d;
    ShlIsMul(a, 3);
    ShlIsMul(b, 2);
    ShlIsMul(c, 1);
    assert Shl(a, 3) + Shl(b, 2) + Shl(c, 1) + d == n;
    ShrIsFloorDiv(n, 3);
    ShrIsFloorDiv(n, 2);
    ShrIsFloorDiv(n, 1);
    DivModUnique(n, 8, a, b * 4 + c * 2 + d);
    DivModUnique(n, 4, a * 2 + b, c * 2 + d);
    DivModUnique(n, 2, a * 4 + b * 2 + c, d);
    DivModUnique(a * 2 + b, 2, a, b);
    DivModUnique(a * 4 + b * 2 + c, 2, a * 2 + b, c);
  }

  /** The four bits at tape positions `p`, `p+2`, `p+4`, `p+6`, most
      significant first. */
  function Gather(t: Tape, p: int): (n: Nibble)
    requires t.width > 0
    ensures forall j :: 0 <= j < 4 ==> NibbleBit(n, j) == GetBit(t, p + 2 * j)
  {
    var a, b, c, d := GetBit(t, p), GetBit(t, p + 2), GetBit(t, p + 4), GetBit(t, p + 6);
    var n := Shl(a, 3) + Shl(b, 2) + Shl(c, 1) + d;
    NibbleBits(a, b, c, d);
    n
  }

  /** `from_tape`: each field gathered from four tape bits. */
  function FromTape(t: Tape): Machine
    requires t.width > 0
  {
    Machine(Gather(t, 0), Gather(t, 1), Gather(t, 8), Gather(t, 9))
  }

  /** The machine read off a tape takes its output table from the tape's
      bits 0, 2, 4, 6, its transition table from 1, 3, 5, 7, its head
      landmark from 8, 10, 12, 14 and its tail landmark from 9, 11, 13, 15,
      most significant bit first, positions taken around the tape. */
  lemma FromTapeBits(t: Tape)
    requires t.width > 0
    ensures var m := FromTape(t);
      forall j :: 0 <= j < 4 ==>
        && NibbleBit(m.tranT, j) == GetBit(t, 2 * j)
        && NibbleBit(m.tranM, j) == GetBit(t, 1 + 2 * j)
        && NibbleBit(m.head, j) == GetBit(t, 8 + 2 * j)
        && NibbleBit(m.tail, j) == GetBit(t, 9 + 2 * j)
  {
  }

  /** On a 7-bit tape the landmark bits wrap around onto the table bits: the
      head's first bit is tape bit 1, the transition table's first bit. */
  lemma FromTapeWraps(t: Tape)
    requires t.width == 7
    ensures NibbleBit(FromTape(t).head, 0) == NibbleBit(FromTape(t).tranM, 0)
    ensures NibbleBit(FromTape(t).tail, 0) == NibbleBit(FromTape(t).tranT, 1)
  {
    FromTapeBits(t);
    GetBitPeriodic(t, 1, 1);
    GetBitPeriodic(t, 2, 1);
  }

  // ---------------------------------------------------------------------
  // The transducer
  // ---------------------------------------------------------------------

  /** `(bit << 1) + state`. */
  function Key(bit: Bit, state: Bit): (key: int)
    ensures 0 <= key <= 3
  {
    2 * bit + state
  }

  /** `table >> (3 - key) & 1`. */
  function Lookup(table: Nibble, key: int): Bit
    requires 0 <= key <= 3
  {
    BitAt(table, 3 - key)
  }

  /** Whether the noise flips the bit written at step `k` of a reaction; the
      draws of `random.random() < noise` are given as `flips`, and steps past
      its end are not flipped. */
  function Flip(flips: seq<bool>, k: nat): bool
  {
    k < |flips| && flips[k]
  }

  /** The tape position visited at step `k` of a walk starting at `head`. */
  function Pos(t: Tape, head: nat, k: nat): nat
    requires t.width > 0
  {
    (head + k) % t.width
  }

  /** The state before step `k` of the walk. */
  function StateBefore(m: Machine, t: Tape, head: nat, k: nat): Bit
    requires t.width > 0
  {
    if k == 0 then INITIAL_STATE
    else
      var key := Key(GetBit(t, Pos(t, head, k - 1)), StateBefore(m, t, head, k - 1));
      Lookup(m.tranM, key)
  }

  /** The bit written at step `k`: the output table's entry for the bit read
      and the current state, flipped when the noise says so. */
  function Written(m: Machine, t: Tape, flips: seq<bool>, head: nat, k: nat): Bit
    requires t.width > 0
  {
    var out := Lookup(m.tranT, Key(GetBit(t, Pos(t, head, k)), StateBefore(m, t, head, k)));
    if Flip(flips, k) then 1 - out else out
  }

  /** Without noise the bit written at step `k` is `tranT >> (3 - key) & 1`
      for the bit read and the current state; noise changes the written bit
      exactly at the steps it flips. */
  lemma NoiseOnlyFlips(m: Machine, t: Tape, flips: seq<bool>, head: nat, k: nat)
    requires t.width > 0
    ensures Written(m, t, [], head, k) ==
      Shr(m.tranT, 3 - Key(GetBit(t, Pos(t, head, k)), StateBefore(m, t, head, k))) % 2
    ensures Written(m, t, flips, head, k) != Written(m, t, [], head, k) <==> Flip(flips, k)
  {
  }

  /** The in-place update of the working value:
      `(t - (t >> p << p)) + (t >> (p + 1) << (p + 1)) + (b << p)`
      with `p = bits - i - 1`. */
  function SetBitFromLeft(v: int, w: nat, i: nat, b: Bit): int
    requires i < w
  {
    var p := w - i - 1;
    (v - Shl(Shr(v, p), p)) + Shl(Shr(v, p + 1), p + 1) + Shl(b, p)
  }

  /** Around bit `p` (from the least significant end) a value splits into
      the bits below, bit `p` itself and the bits above; the update replaces
      only the middle part. */
  lemma SplitAt(v: int, p: nat, b: Bit)
    ensures var low, high := v - Shl(Shr(v, p), p), Shr(v, p + 1);
      && 0 <= low < Pow2(p)
      && low + Shl(high, p + 1) + Shl(b, p) == low + Pow2(p) * (b + 2 * high)
      && v == low + Pow2(p) * (Shr(v, p) % 2 + 2 * high)
  {
    var pp := Pow2(p);
    var hi := Shr(v, p);
    var high := Shr(v, p + 1);
    LowBits(v, p);
    ShrSucc(v, p);
    ShlIsMul(high, p + 1);
    ShlIsMul(b, p);
    assert Pow2(p + 1) == 2 * pp;
    SplitArith(pp, hi, high, b);
    assert Shl(high, p + 1) + Shl(b, p) == pp * (b + 2 * high);
    ShlIsMul(hi, p);
    assert Shl(hi, p) == pp * (hi % 2 + 2 * high);
  }

  lemma SplitArith(pp: int, hi: int, high: int, b: int)
    requires hi / 2 == high
    ensures high * (2 * pp) + b * pp == pp * (b + 2 * high)
    ensures hi * pp == pp * (hi % 2 + 2 * high)
  {
    assert hi == 2 * high + hi % 2;
  }

  /** The update writes `b` at position `i` and leaves every other position
      of the `w`-bit value as it was. */
  lemma SetBitFromLeftEffect(v: int, w: nat, i: nat, b: Bit, q: nat)
    requires i < w && q < w
    ensures BitFromLeft(SetBitFromLeft(v, w, i, b), w, q) == if q == i then b else BitFromLeft(v, w, q)
  {
    var p := w - i - 1;
    var low, high := v - Shl(Shr(v, p), p), Shr(v, p + 1);
    SplitAt(v, p, b);
    var qq := w - 1 - q;
    BitOfSum(low, b + 2 * high, p, qq);
    BitOfSum(low, Shr(v, p) % 2 + 2 * high, p, qq);
    if qq > p {
      assert (b + 2 * high) / 2 == high;
      assert (Shr(v, p) % 2 + 2 * high) / 2 == high;
    }
  }

  /** The working value after the first `n` steps of the walk. */
  function ValueAfter(m: Machine, t: Tape, flips: seq<bool>, head: nat, n: nat): int
    requires t.width > 0
  {
    if n == 0 then t.value
    else SetBitFromLeft(ValueAfter(m, t, flips, head, n - 1), t.width, Pos(t, head, n - 1), Written(m, t, flips, head, n - 1))
  }

  /** The end of `range(ihead, itail + bits if itail < ihead else itail)`. */
  function SpanEnd(head: nat, tail: nat, w: nat): nat
  {
    if tail < head then tail + w else tail
  }

  /** What `rewrite_tape` returns, `None` standing for Python's `None`. */
  function Rewrite(m: Machine, t: Tape, flips: seq<bool>): Option<Tape>
  {
    match FirstMatch(t, m.head, PATTERN_BITS, 0)
    case None => None
    case Some(ih) =>
      match FirstMatch(t, m.tail, PATTERN_BITS, ih + 1)
      case None => None
      case Some(it) =>
        if ih == it then None
        else Some(Rewritten(m, t, flips, ih, it))
  }

  /** The product tape of a reaction whose landmarks were found at `ih` and
      `it`: the working value after the walk from `ih` up to `it`, masked to
      the tape's width. */
  function Rewritten(m: Machine, t: Tape, flips: seq<bool>, ih: nat, it: nat): Tape
    requires ih < t.width
  {
    MakeTape(ValueAfter(m, t, flips, ih, SpanEnd(ih, it, t.width) - ih), t.width)
  }

  /** The loop of `rewrite_tape`, `for i in range(ihead, end)`: each step
      reads the original tape's bit at `i mod width`, writes the output
      table's bit (or its flip) there in the working value and moves the
      state. */
  method Walk(m: Machine, t: Tape, flips: seq<bool>, ih: nat, end: nat) returns (v: int)
    requires t.width > 0 && ih <= end
    ensures v == ValueAfter(m, t, flips, ih, end - ih)
  {
    var state := INITIAL_STATE;
    v := t.value;
    for i := ih to end
      invariant state == StateBefore(m, t, ih, i - ih)
      invariant v == ValueAfter(m, t, flips, ih, i - ih)
    {
      var pos := i % t.width;
      assert pos == Pos(t, ih, i - ih);
      var key := Key(GetBit(t, pos), state);
      var out := Lookup(m.tranT, key);
      state := Lookup(m.tranM, key);
      if Flip(flips, i - ih) {
        out := 1 - out;
      }
      assert out == Written(m, t, flips, ih, i - ih);
      WalkStep(m, t, flips, ih, i - ih);
      v := SetBitFromLeft(v, t.width, pos, out);
    }
  }

  /** One more step of the walk writes the step's bit at the step's position
      and moves the state by the transition table. */
  lemma WalkStep(m: Machine, t: Tape, flips: seq<bool>, ih: nat, k: nat)
    requires t.width > 0
    ensures ValueAfter(m, t, flips, ih, k + 1) ==
      SetBitFromLeft(ValueAfter(m, t, flips, ih, k), t.width, Pos(t, ih, k), Written(m, t, flips, ih, k))
    ensures StateBefore(m, t, ih, k + 1) ==
      Lookup(m.tranM, Key(GetBit(t, Pos(t, ih, k)), StateBefore(m, t, ih, k)))
  {
  }

  /** `rewrite_tape`: locate the head landmark, then the tail landmark from
      the position after it; give up when either is missing or they
      coincide; otherwise walk from the head up to the tail, writing the
      output table's bit at every position and moving the state by the
      transition table. */
  method RewriteTape(m: Machine, t: Tape, flips: seq<bool>) returns (r: Option<Tape>)
    ensures r == Rewrite(m, t, flips)
  {
    var ihead := Search(t, m.head, PATTERN_BITS, 0);
    if ihead.None? {
      return None;
    }
    var ih := ihead.value;
    var itail := Search(t, m.tail, PATTERN_BITS, ih + 1);
    if itail.None? || ih == itail.value {
      return None;
    }
    var it := itail.value;
    var end := if it < ih then it + t.width else it;
    var v := Walk(m, t, flips, ih, end);
    RewriteFound(m, t, flips, ih, it);
    return Some(MakeTape(v, t.width));
  }

  /** `Rewrite` once both landmarks are found at distinct positions. */
  lemma RewriteFound(m: Machine, t: Tape, flips: seq<bool>, ih: nat, it: nat)
    requires ih < t.width
    requires FirstMatch(t, m.head, PATTERN_BITS, 0) == Some(ih)
    requires FirstMatch(t, m.tail, PATTERN_BITS, ih + 1) == Some(it)
    requires ih != it
    ensures Rewrite(m, t, flips) == Some(Rewritten(m, t, flips, ih, it))
  {
  }

  /** After `n` steps from `head`, the positions `head, head+1, ...` (around
      the tape) that were visited hold the written bits and all other
      positions hold the tape's original bits. */
  lemma {:induction false} ValueAfterBits(m: Machine, t: Tape, flips: seq<bool>, head: nat, n: nat, q: nat)
    requires t.width > 0 && n <= t.width && q < t.width
    ensures BitFromLeft(ValueAfter(m, t, flips, head, n), t.width, q) ==
      if (q - head) % t.width < n then Written(m, t, flips, head, (q - head) % t.width)
      else BitFromLeft(t.value, t.width, q)
  {
    if n > 0 {
      var w := t.width;
      ValueAfterBits(m, t, flips, head, n - 1, q);
      SetBitFromLeftEffect(ValueAfter(m, t, flips, head, n - 1), w, Pos(t, head, n - 1), Written(m, t, flips, head, n - 1), q);
      CircularOffset(head, n - 1, q, w);
    }
  }

  /** The walk covers `(itail - ihead) mod bits` positions, at least one and
      at most all but one. */
  lemma SpanLength(head: nat, tail: nat, w: nat)
    requires head < w && tail < w && head != tail
    ensures SpanEnd(head, tail, w) - head == (tail - head) % w
    ensures 1 <= (tail - head) % w < w
  {
    if tail < head {
      DivModUnique(tail - head, w, -1, tail + w - head);
    } else {
      DivModUnique(tail - head, w, 0, tail - head);
    }
  }

  /** Read back through the mask, the value after `n` steps has the written
      bit at each visited position and the tape's bit elsewhere. */
  lemma WalkBit(m: Machine, t: Tape, flips: seq<bool>, ih: nat, n: nat, q: nat)
    requires t.width > 0 && n <= t.width && q < t.width
    ensures GetBit(MakeTape(ValueAfter(m, t, flips, ih, n), t.width), q) ==
      if (q - ih) % t.width < n then Written(m, t, flips, ih, (q - ih) % t.width) else GetBit(t, q)
  {
    var w := t.width;
    var v := ValueAfter(m, t, flips, ih, n);
    var r := MakeTape(v, w);
    GetBitPeriodic(r, q, 0);
    GetBitPeriodic(t, q, 0);
    MaskKeepsBits(v, w, w - 1 - q);
    ValueAfterBits(m, t, flips, ih, n, q);
  }

  /** When the head landmark is first found at `ih` and the tail landmark,
      searched from the next position, at a different `it`, the reaction
      succeeds and yields a well-formed tape of the same width that differs
      from the input only on the circular span from `ih` up to (not
      including) `it`, where it holds the transducer's output bits. */
  lemma RewriteChangesOnlySpan(m: Machine, t: Tape, flips: seq<bool>, ih: nat, it: nat)
    requires FirstMatch(t, m.head, PATTERN_BITS, 0) == Some(ih)
    requires FirstMatch(t, m.tail, PATTERN_BITS, ih + 1) == Some(it)
    requires ih != it
    ensures Rewrite(m, t, flips).Some?
    ensures var r := Rewrite(m, t, flips).value;
      var n := (it - ih) % t.width;
      && r.width == t.width
      && WellFormed(r)
      && 1 <= n < t.width
      && forall q :: 0 <= q < t.width ==>
           GetBit(r, q) == if (q - ih) % t.width < n then Written(m, t, flips, ih, (q - ih) % t.width) else GetBit(t, q)
  {
    RewriteFound(m, t, flips, ih, it);
    RewrittenBits(m, t, flips, ih, it);
  }

  /** The product tape for landmarks at distinct positions `ih` and `it`
      keeps the width, is well formed, and holds the written bits exactly on
      the `(it - ih) mod width` positions from `ih` on. */
  lemma RewrittenBits(m: Machine, t: Tape, flips: seq<bool>, ih: nat, it: nat)
    requires ih < t.width && it < t.width && ih != it
    ensures var r := Rewritten(m, t, flips, ih, it);
      var n := (it - ih) % t.width;
      && r.width == t.width
      && WellFormed(r)
      && 1 <= n < t.width
      && forall q :: 0 <= q < t.width ==>
           GetBit(r, q) == if (q - ih) % t.width < n then Written(m, t, flips, ih, (q - ih) % t.width) else GetBit(t, q)
  {
    var w := t.width;
    SpanLength(ih, it, w);
    var n := (it - ih) % w;
    var r := Rewritten(m, t, flips, ih, it);
    assert r == MakeTape(ValueAfter(m, t, flips, ih, n), w);
    forall q | 0 <= q < w
      ensures GetBit(r, q) == if (q - ih) % w < n then Written(m, t, flips, ih, (q - ih) % w) else GetBit(t, q)
    {
      WalkBit(m, t, flips, ih, n, q);
    }
  }

  /** The tail search, started just past `ih`, reaches `ih` last: it stops
      there exactly when `ih` is the only position where the pattern
      occurs. */
  lemma FoundLastIffOnly(t: Tape, pattern: int, ih: nat, it: nat)
    requires ih < t.width
    requires FirstMatch(t, pattern, PATTERN_BITS, ih + 1) == Some(it)
    ensures it == ih <==> forall i :: 0 <= i < t.width ==> (Matches(t, pattern, PATTERN_BITS, i) <==> i == ih)
  {
    var w := t.width;
    SearchFindsFirst(t, pattern, PATTERN_BITS, ih + 1);
    if it == ih {
      DivModUnique(-1, w, -1, w - 1);
      forall i | 0 <= i < w && i != ih
        ensures !Matches(t, pattern, PATTERN_BITS, i)
      {
        var e := (i - (ih + 1)) % w;
        CircularOffset(ih + 1, e, i, w);
        CircularOffset(ih + 1, w - 1, ih, w);
        assert !MatchesAfter(t, pattern, PATTERN_BITS, ih + 1, e);
      }
    }
  }

  /** A reaction fails exactly when the head landmark occurs nowhere on the
      tape, or the tail landmark occurs nowhere, or the tail landmark occurs
      only at the position where the head landmark was found. */
  lemma RewriteFailsIff(m: Machine, t: Tape, flips: seq<bool>)
    ensures Rewrite(m, t, flips).None? <==>
      || (forall i :: 0 <= i < t.width ==> !Matches(t, m.head, PATTERN_BITS, i))
      || (forall i :: 0 <= i < t.width ==> !Matches(t, m.tail, PATTERN_BITS, i))
      || (&& FirstMatch(t, m.head, PATTERN_BITS, 0).Some?
          && forall i :: 0 <= i < t.width ==>
               (Matches(t, m.tail, PATTERN_BITS, i) <==> i == FirstMatch(t, m.head, PATTERN_BITS, 0).value))
  {
    SearchFailsIffAbsent(t, m.head, PATTERN_BITS, 0);
    var head := FirstMatch(t, m.head, PATTERN_BITS, 0);
    if head.Some? {
      var ih := head.value;
      SearchFailsIffAbsent(t, m.tail, PATTERN_BITS, ih + 1);
      var tail := FirstMatch(t, m.tail, PATTERN_BITS, ih + 1);
      if tail.Some? {
        FoundLastIffOnly(t, m.tail, ih, tail.value);
        if tail.value != ih {
          RewriteChangesOnlySpan(m, t, flips, ih, tail.value);
        }
      }
    }
  }

  /** Whatever succeeds, a reaction's product is a well-formed tape of the
      reactant's width. */
  lemma RewriteKeepsWidth(m: Machine, t: Tape, flips: seq<bool>)
    requires Rewrite(m, t, flips).Some?
    ensures Rewrite(m, t, flips).value.width == t.width
    ensures WellFormed(Rewrite(m, t, flips).value)
  {
    var head := FirstMatch(t, m.head, PATTERN_BITS, 0);
    if head.Some? {
      var tail := FirstMatch(t, m.tail, PATTERN_BITS, head.value + 1);
      if tail.Some? && tail.value != head.value {
        RewriteChangesOnlySpan(m, t, flips, head.value, tail.value);
      }
    }
  }
}
