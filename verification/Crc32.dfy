/**
 * CRC-32 (section 8 of RFC 1952): the lazily filled table, the table-driven update, division one
 * bit at a time, and schoolbook division of polynomials over GF(2).
 *
 * A uint32_t is modelled as its 32 bits, the lowest first, so that ^, >> and & 0xFF are what they
 * are bit by bit.
 */
module Crc32 {
  import opened Bytes
  import opened BitStrings

  type Word = w: seq<bool> | |w| == 32 witness Zeros(32)

  function Xor(a: seq<bool>, b: seq<bool>): (x: seq<bool>)
    requires |a| == |b|
    ensures |x| == |a| && forall i :: 0 <= i < |x| ==> x[i] == (a[i] != b[i])
  {
    seq(|a|, i requires 0 <= i < |a| => a[i] != b[i])
  }

  /** w >> n */
  function ShiftDown(w: Word, n: nat): Word
    requires n <= 32
  {
    w[n..] + Zeros(n)
  }

  /** The `width` lowest bits of n, the lowest first. */
  function LowBits(n: nat, width: nat): (s: seq<bool>)
    ensures |s| == width
  {
    if width == 0 then [] else [n % 2 == 1] + LowBits(n / 2, width - 1)
  }

  function Value(s: seq<bool>): nat {
    if s == [] then 0 else (if s[0] then 1 else 0) + 2 * Value(s[1..])
  }

  const ZERO: Word := Zeros(32)
  const ONES: Word := Not(Zeros(32))

  /** The bits set in 0xEDB88320. */
  predicate IsTap(i: nat) {
    i in {5, 8, 9, 15, 19, 20, 21, 23, 24, 26, 27, 29, 30, 31}
  }

  function Taps(width: nat): (s: seq<bool>)
    ensures |s| == width && forall i :: 0 <= i < width ==> s[i] == IsTap(i)
  {
    seq(width, i requires 0 <= i < width => IsTap(i))
  }

  /** The generator polynomial without its leading term, highest power first. */
  const POLYNOMIAL: Word := Taps(32)

  function Nibble(s: seq<bool>): nat
    requires |s| >= 4
  {
    (if s[0] then 1 else 0) + (if s[1] then 2 else 0) + (if s[2] then 4 else 0) + (if s[3] then 8 else 0)
  }

  lemma NextNibble(s: seq<bool>, from: nat)
    requires from + 4 <= |s|
    ensures Value(s[from..]) == Nibble(s[from..]) + 16 * Value(s[from + 4..])
  {
    assert Value(s[from..]) == (if s[from] then 1 else 0) + 2 * Value(s[from + 1..]) by {
      assert s[from..][1..] == s[from + 1..];
    }
    assert Value(s[from + 1..]) == (if s[from + 1] then 1 else 0) + 2 * Value(s[from + 2..]) by {
      assert s[from + 1..][1..] == s[from + 2..];
    }
    assert Value(s[from + 2..]) == (if s[from + 2] then 1 else 0) + 2 * Value(s[from + 3..]) by {
      assert s[from + 2..][1..] == s[from + 3..];
    }
    assert Value(s[from + 3..]) == (if s[from + 3] then 1 else 0) + 2 * Value(s[from + 4..]) by {
      assert s[from + 3..][1..] == s[from + 4..];
    }
  }

  lemma FourNibbles(s: seq<bool>, from: nat)
    requires from + 16 <= |s|
    ensures Value(s[from..]) == Nibble(s[from..]) + 0x10 * Nibble(s[from + 4..]) + 0x100 * Nibble(s[from + 8..])
                                + 0x1000 * Nibble(s[from + 12..]) + 0x1_0000 * Value(s[from + 16..])
  {
    NextNibble(s, from);
    NextNibble(s, from + 4);
    NextNibble(s, from + 8);
    NextNibble(s, from + 12);
  }

  lemma EightNibbles(p: Word)
    ensures Value(p) == Nibble(p[0..]) + 0x10 * Nibble(p[4..]) + 0x100 * Nibble(p[8..])
                        + 0x1000 * Nibble(p[12..]) + 0x1_0000 * Nibble(p[16..]) + 0x10_0000 * Nibble(p[20..])
                        + 0x100_0000 * Nibble(p[24..]) + 0x1000_0000 * Nibble(p[28..])
  {
    FourNibbles(p, 0);
    FourNibbles(p, 16);
    assert p[0..] == p && p[32..] == [];
  }

  lemma PolynomialConstant(p: Word)
    requires p == POLYNOMIAL
    ensures Value(p) == 0xEDB8_8320
  {
    EightNibbles(p);
    assert Nibble(p[0..]) == 0 && Nibble(p[4..]) == 2 && Nibble(p[8..]) == 3 && Nibble(p[12..]) == 8;
    assert Nibble(p[16..]) == 8 && Nibble(p[20..]) == 0xB && Nibble(p[24..]) == 0xD && Nibble(p[28..]) == 0xE;
  }

  // ------------------------------------------------------------------------ one bit at a time

  function Shift(c: Word): Word {
    if c[0] then Xor(POLYNOMIAL, ShiftDown(c, 1)) else ShiftDown(c, 1)
  }

  function Shifts(c: Word, n: nat): Word
    decreases n
  {
    if n == 0 then c else Shifts(Shift(c), n - 1)
  }

  function Flip(c: Word, b: bool): Word {
    [c[0] != b] + c[1..]
  }

  /** The register after the bits have been divided into it, one after the other. */
  function Divide(c: Word, bits: seq<bool>): Word
    decreases |bits|
  {
    if bits == [] then c else Divide(Shift(Flip(c, bits[0])), bits[1..])
  }

  /** A buffer's bits, the lowest bit of each byte first. */
  function BufferBits(buf: seq<byte>): (s: seq<bool>)
    ensures |s| == 8 * |buf|
  {
    if buf == [] then [] else LowBits(buf[0], 8) + BufferBits(buf[1..])
  }

  /** The checksum by bit-at-a-time division. */
  function Crc(start: Word, buf: seq<byte>): Word {
    Xor(Divide(Xor(start, ONES), BufferBits(buf)), ONES)
  }

  lemma {:induction false} DivideConcat(c: Word, a: seq<bool>, b: seq<bool>)
    ensures Divide(c, a + b) == Divide(Divide(c, a), b)
    decreases |a|
  {
    if a == [] {
      assert a + b == b;
    } else {
      assert (a + b)[1..] == a[1..] + b;
      DivideConcat(Shift(Flip(c, a[0])), a[1..], b);
    }
  }

  lemma {:induction false} BufferBitsConcat(a: seq<byte>, b: seq<byte>)
    ensures BufferBits(a + b) == BufferBits(a) + BufferBits(b)
  {
    if a == [] {
      assert a + b == b;
    } else {
      assert (a + b)[1..] == a[1..] + b;
      BufferBitsConcat(a[1..], b);
    }
  }

  /** A checksum may be computed piece by piece. */
  lemma CrcConcat(start: Word, a: seq<byte>, b: seq<byte>)
    ensures Crc(Crc(start, a), b) == Crc(start, a + b)
  {
    BufferBitsConcat(a, b);
    DivideConcat(Xor(start, ONES), BufferBits(a), BufferBits(b));
    var c := Divide(Xor(start, ONES), BufferBits(a));
    assert Xor(Xor(c, ONES), ONES) == c;
  }

  // ------------------------------------------------------------------------ several bits at once

  /** A register with `bits` added to its lowest positions. */
  function Overlay(c: Word, bits: seq<bool>): Word
    requires |bits| <= 32
  {
    Xor(c, bits + Zeros(32 - |bits|))
  }

  lemma ShiftAt(c: Word, i: nat)
    requires i < 32
    ensures Shift(c)[i] == ((c[0] && POLYNOMIAL[i]) != (i < 31 && c[i + 1]))
  {
  }

  lemma OverlayAt(c: Word, bits: seq<bool>, i: nat)
    requires |bits| <= 32 && i < 32
    ensures Overlay(c, bits)[i] == (c[i] != (i < |bits| && bits[i]))
  {
  }

  lemma {:induction false} OverlayShifts(c: Word, bits: seq<bool>)
    requires 0 < |bits| <= 32
    ensures Shift(Overlay(c, bits)) == Overlay(Shift(Flip(c, bits[0])), bits[1..])
  {
    var x, d := Overlay(c, bits), Flip(c, bits[0]);
    OverlayAt(c, bits, 0);
    forall i | 0 <= i < 32
      ensures Shift(x)[i] == Overlay(Shift(d), bits[1..])[i]
    {
      ShiftAt(x, i);
      ShiftAt(d, i);
      OverlayAt(Shift(d), bits[1..], i);
      if i < 31 {
        OverlayAt(c, bits, i + 1);
      }
    }
  }

  /** Up to 32 bits can be added to the register first and shifted through afterwards. */
  lemma {:induction false} DivideIsShifts(c: Word, bits: seq<bool>)
    requires |bits| <= 32
    ensures Divide(c, bits) == Shifts(Overlay(c, bits), |bits|)
    decreases |bits|
  {
    if bits == [] {
      assert Overlay(c, []) == c;
    } else {
      var next, rest, n := Shift(Flip(c, bits[0])), bits[1..], |bits| - 1;
      OverlayShifts(c, bits);
      DivideIsShifts(next, rest);
      assert Divide(c, bits) == Divide(next, rest);
      assert Shifts(Overlay(c, bits), n + 1) == Shifts(Overlay(next, rest), n);
    }
  }

  lemma {:induction false} ShiftLinear(a: Word, b: Word)
    ensures Shift(Xor(a, b)) == Xor(Shift(a), Shift(b))
  {
    forall i | 0 <= i < 32
      ensures Shift(Xor(a, b))[i] == Xor(Shift(a), Shift(b))[i]
    {
      ShiftAt(Xor(a, b), i);
      ShiftAt(a, i);
      ShiftAt(b, i);
    }
  }

  lemma {:induction false} ShiftsLinear(a: Word, b: Word, n: nat)
    ensures Shifts(Xor(a, b), n) == Xor(Shifts(a, n), Shifts(b, n))
    decreases n
  {
    if n > 0 {
      ShiftLinear(a, b);
      ShiftsLinear(Shift(a), Shift(b), n - 1);
    }
  }

  /** Bits above the n shifted out just move down. */
  lemma {:induction false} ShiftsOfHigh(c: Word, n: nat)
    requires n <= 32 && c[..n] == Zeros(n)
    ensures Shifts(c, n) == ShiftDown(c, n)
    decreases n
  {
    if n == 0 {
      assert ShiftDown(c, 0) == c;
    } else {
      assert !c[..n][0] && c[0] == c[..n][0];
      var d := Shift(c);
      assert d[..n - 1] == c[1..n] == Zeros(n)[1..] == Zeros(n - 1);
      ShiftsOfHigh(d, n - 1);
      assert ShiftDown(d, n - 1) == ShiftDown(c, n);
    }
  }

  // ------------------------------------------------------------------------ the table

  function TableEntry(i: nat): Word {
    Shifts(LowBits(i, 32), 8)
  }

  lemma {:induction false} BitsOfValue(s: seq<bool>, width: nat)
    requires |s| <= width
    ensures LowBits(Value(s), width) == s + Zeros(width - |s|)
  {
    if s == [] {
      BitsOfZero(width);
      assert [] + Zeros(width) == Zeros(width);
    } else {
      BitsOfValue(s[1..], width - 1);
      assert s == [s[0]] + s[1..];
    }
  }

  lemma {:induction false} BitsOfZero(width: nat)
    ensures LowBits(0, width) == Zeros(width)
  {
    if width > 0 {
      BitsOfZero(width - 1);
      assert [false] + Zeros(width - 1) == Zeros(width);
    }
  }

  lemma {:induction false} ValueBound(s: seq<bool>)
    ensures Value(s) < Pow2(|s|)
  {
    if s != [] {
      ValueBound(s[1..]);
    }
  }

  /** The low byte goes through the table; the other three move down unchanged. */
  lemma TableStep(x: Word)
    ensures Shifts(x, 8) == Xor(TableEntry(Value(x[..8])), ShiftDown(x, 8))
  {
    var low, high := x[..8] + Zeros(24), Zeros(8) + x[8..];
    assert x == Xor(low, high);
    ShiftsLinear(low, high, 8);
    BitsOfValue(x[..8], 32);
    assert high[..8] == Zeros(8);
    ShiftsOfHigh(high, 8);
    assert ShiftDown(high, 8) == ShiftDown(x, 8);
  }

  lemma {:induction false} BitsWiden(n: nat, narrow: nat, width: nat)
    requires narrow <= width && n < Pow2(narrow)
    ensures LowBits(n, width) == LowBits(n, narrow) + Zeros(width - narrow)
  {
    if narrow == 0 {
      BitsOfZero(width);
      assert [] + Zeros(width) == Zeros(width);
    } else {
      BitsWiden(n / 2, narrow - 1, width - 1);
    }
  }

  /** One byte of the table loop is eight steps of the division. */
  lemma ByteStep(c: Word, b: byte)
    ensures var x := Xor(c, LowBits(b, 32));
            Divide(c, LowBits(b, 8)) == Xor(TableEntry(Value(x[..8])), ShiftDown(c, 8))
  {
    ByteOverlay(c, b);
    DivideIsShifts(c, LowBits(b, 8));
    TableStep(Xor(c, LowBits(b, 32)));
  }

  /** A byte reaches only the low bits of the register. */
  lemma {:induction false} ByteOverlay(c: Word, b: byte)
    ensures var x := Xor(c, LowBits(b, 32));
            Overlay(c, LowBits(b, 8)) == x && ShiftDown(x, 8) == ShiftDown(c, 8)
  {
    assert Pow2(8) == 256;
    BitsWiden(b, 8, 32);
  }

  // ------------------------------------------------------------------------ reversing a step

  function Unshift(c: Word): Word {
    if c[31] then [true] + Xor(c, POLYNOMIAL)[..31] else [false] + c[..31]
  }

  lemma UnshiftOfShift(c: Word)
    ensures Unshift(Shift(c)) == c
  {
    assert POLYNOMIAL[31];
    assert Shift(c)[31] == c[0];
    if c[0] {
      assert Xor(Shift(c), POLYNOMIAL)[..31] == c[1..];
    } else {
      assert Shift(c)[..31] == c[1..];
    }
    assert [c[0]] + c[1..] == c;
  }

  lemma ShiftOfUnshift(c: Word)
    ensures Shift(Unshift(c)) == c
  {
    assert POLYNOMIAL[31];
    var u := Unshift(c);
    if c[31] {
      assert u[1..] == Xor(c, POLYNOMIAL)[..31];
      assert ShiftDown(u, 1) == Xor(c, POLYNOMIAL);
      assert Xor(POLYNOMIAL, Xor(c, POLYNOMIAL)) == c;
    } else {
      assert u[1..] == c[..31];
      assert ShiftDown(u, 1) == c;
    }
  }

  function Undivide(c: Word, bits: seq<bool>): Word
    decreases |bits|
  {
    if bits == [] then c else Flip(Unshift(Undivide(c, bits[1..])), bits[0])
  }

  lemma {:induction false} DivideInverse(c: Word, bits: seq<bool>)
    ensures Undivide(Divide(c, bits), bits) == c && Divide(Undivide(c, bits), bits) == c
    decreases |bits|
  {
    if bits != [] {
      var d := Flip(c, bits[0]);
      DivideInverse(Shift(d), bits[1..]);
      DivideInverse(c, bits[1..]);
      UnshiftOfShift(d);
      ShiftOfUnshift(Undivide(c, bits[1..]));
      assert Flip(d, bits[0]) == c;
      var e := Unshift(Undivide(c, bits[1..]));
      assert Flip(Flip(e, bits[0]), bits[0]) == e;
    }
  }

  function CrcInverse(crc: Word, buf: seq<byte>): Word {
    Xor(Undivide(Xor(crc, ONES), BufferBits(buf)), ONES)
  }

  /** For a fixed buffer the checksum is a bijection of the start value. */
  lemma CrcIsBijection(start: Word, buf: seq<byte>)
    ensures CrcInverse(Crc(start, buf), buf) == start && Crc(CrcInverse(start, buf), buf) == start
  {
    var bits := BufferBits(buf);
    DivideInverse(Xor(start, ONES), bits);
    var c, u := Divide(Xor(start, ONES), bits), Undivide(Xor(start, ONES), bits);
    assert Xor(Xor(c, ONES), ONES) == c && Xor(Xor(u, ONES), ONES) == u;
    assert Xor(Xor(start, ONES), ONES) == start;
  }

  // ------------------------------------------------------------------------ bursts

  lemma {:induction false} ShiftsInjective(a: Word, b: Word, n: nat)
    requires Shifts(a, n) == Shifts(b, n)
    ensures a == b
    decreases n
  {
    if n > 0 {
      ShiftsInjective(Shift(a), Shift(b), n - 1);
      UnshiftOfShift(a);
      UnshiftOfShift(b);
    }
  }

  lemma {:induction false} DivideInjective(a: Word, b: Word, bits: seq<bool>)
    requires Divide(a, bits) == Divide(b, bits)
    ensures a == b
  {
    DivideInverse(a, bits);
    DivideInverse(b, bits);
  }

  /** From one register, different strings of at most 32 bits lead to different registers. */
  lemma {:induction false} BurstChangesRegister(c: Word, x: seq<bool>, y: seq<bool>)
    requires |x| == |y| <= 32 && Divide(c, x) == Divide(c, y)
    ensures x == y
  {
    DivideIsShifts(c, x);
    DivideIsShifts(c, y);
    var p, q := Overlay(c, x), Overlay(c, y);
    ShiftsInjective(p, q, |x|);
    forall i | 0 <= i < |x|
      ensures x[i] == y[i]
    {
      assert p[i] == (c[i] != x[i]) && q[i] == (c[i] != y[i]);
    }
  }

  lemma {:induction false} BufferBitsInjective(a: seq<byte>, b: seq<byte>)
    requires |a| == |b| && BufferBits(a) == BufferBits(b)
    ensures a == b
  {
    if a != [] {
      var x, y := BufferBits(a), BufferBits(b);
      assert LowBits(a[0], 8) == x[..8] && LowBits(b[0], 8) == y[..8];
      assert BufferBits(a[1..]) == x[8..] && BufferBits(b[1..]) == y[8..];
      assert Pow2(8) == 256;
      ValueOfBits(a[0], 8);
      ValueOfBits(b[0], 8);
      BufferBitsInjective(a[1..], b[1..]);
      assert a == [a[0]] + a[1..] && b == [b[0]] + b[1..];
    }
  }

  lemma {:induction false} ValueOfBits(n: nat, width: nat)
    requires n < Pow2(width)
    ensures Value(LowBits(n, width)) == n
  {
    if width > 0 {
      ValueOfBits(n / 2, width - 1);
      assert LowBits(n, width)[1..] == LowBits(n / 2, width - 1);
    }
  }

  /**
   * Burst detection: buffers of one length that differ, but only inside 32 consecutive bits at any
   * bit position, never have the same checksum.
   */
  lemma {:induction false} BurstDetected(start: Word, a: seq<byte>, b: seq<byte>, from: nat)
    requires |a| == |b| && a != b
    requires forall i :: 0 <= i < 8 * |a| && !(from <= i < from + 32) ==> BufferBits(a)[i] == BufferBits(b)[i]
    ensures Crc(start, a) != Crc(start, b)
  {
    var x, y := BufferBits(a), BufferBits(b);
    var lo, hi := Min(from, |x|), Min(from + 32, |x|);
    assert x[..lo] == y[..lo] && x[hi..] == y[hi..];
    assert x == x[..lo] + x[lo..hi] + x[hi..] && y == x[..lo] + y[lo..hi] + x[hi..];
    if Crc(start, a) == Crc(start, b) {
      var c := Xor(start, ONES);
      XorInjective(Divide(c, x), Divide(c, y), ONES);
      var d := Divide(c, x[..lo]);
      DivideConcat(c, x[..lo] + x[lo..hi], x[hi..]);
      DivideConcat(c, x[..lo], x[lo..hi]);
      DivideConcat(c, x[..lo] + y[lo..hi], x[hi..]);
      DivideConcat(c, x[..lo], y[lo..hi]);
      DivideInjective(Divide(d, x[lo..hi]), Divide(d, y[lo..hi]), x[hi..]);
      BurstChangesRegister(d, x[lo..hi], y[lo..hi]);
      BufferBitsInjective(a, b);
    }
  }

  lemma XorInjective(a: Word, b: Word, mask: Word)
    requires Xor(a, mask) == Xor(b, mask)
    ensures a == b
  {
    assert a == Xor(Xor(a, mask), mask) && b == Xor(Xor(b, mask), mask);
  }

  // ------------------------------------------------------------------------ polynomials

  /**
   * Schoolbook division of polynomials over GF(2), coefficients of the highest power first: cancel
   * the leading term with a multiple of the generator until 32 coefficients are left.
   */
  function Remainder(dividend: seq<bool>): Word
    requires |dividend| >= 32
    decreases |dividend|
  {
    if |dividend| == 32 then dividend
    else if dividend[0] then Remainder(Xor(dividend[..33], [true] + POLYNOMIAL)[1..] + dividend[33..])
    else Remainder(dividend[1..])
  }

  /** A dividend with the register added to its 32 leading coefficients. */
  function AddLeading(c: Word, dividend: seq<bool>): (s: seq<bool>)
    requires |dividend| >= 32
    ensures |s| == |dividend|
  {
    Xor(c, dividend[..32]) + dividend[32..]
  }

  lemma {:induction false} DivisionStep(c: Word, b: bool, rest: seq<bool>)
    requires |rest| >= 32
    ensures Remainder(AddLeading(c, [b] + rest)) == Remainder(AddLeading(Shift(Flip(c, b)), rest))
  {
    var dividend := AddLeading(c, [b] + rest);
    var next := if dividend[0] then Xor(dividend[..33], [true] + POLYNOMIAL)[1..] + dividend[33..] else dividend[1..];
    assert Remainder(dividend) == Remainder(next);
    var d := Flip(c, b);
    assert d[0] == dividend[0];
    var s := Shift(d);
    forall i | 0 <= i < |rest|
      ensures next[i] == AddLeading(s, rest)[i]
    {
      assert dividend[i + 1] == if i < 31 then c[i + 1] != rest[i] else rest[i];
      assert next[i] == if dividend[0] && i < 32 then dividend[i + 1] != POLYNOMIAL[i] else dividend[i + 1];
      if i < 32 {
        assert ShiftDown(d, 1)[i] == (i < 31 && c[i + 1]);
        assert s[i] == if d[0] then POLYNOMIAL[i] != ShiftDown(d, 1)[i] else ShiftDown(d, 1)[i];
        assert AddLeading(s, rest)[i] == (s[i] != rest[i]);
      }
    }
    assert next == AddLeading(s, rest);
  }

  /** The register is the remainder of the bits followed by 32 zeros, the start value added in front. */
  lemma {:induction false} DivideIsRemainder(c: Word, bits: seq<bool>)
    ensures Divide(c, bits) == Remainder(AddLeading(c, bits + Zeros(32)))
    decreases |bits|
  {
    if bits == [] {
      assert [] + Zeros(32) == Zeros(32);
      assert AddLeading(c, Zeros(32)) == c;
    } else {
      var rest := bits[1..] + Zeros(32);
      assert bits + Zeros(32) == [bits[0]] + rest;
      DivisionStep(c, bits[0], rest);
      DivideIsRemainder(Shift(Flip(c, bits[0])), bits[1..]);
    }
  }

  /**
   * CRC-32 is polynomial division: the message times x^32, its first 32 bits complemented, is
   * divided by the generator, and the complement of the remainder is the checksum.
   */
  lemma CrcIsPolynomialRemainder(buf: seq<byte>)
    ensures Crc(ZERO, buf) == Not(Remainder(AddLeading(ONES, BufferBits(buf) + Zeros(32))))
  {
    assert Xor(ZERO, ONES) == ONES;
    DivideIsRemainder(ONES, BufferBits(buf));
    var r := Divide(ONES, BufferBits(buf));
    assert Xor(r, ONES) == Not(r);
  }

  // ------------------------------------------------------------------------ the code

  class Crc32Calculator {
    const table: array<Word>
    /** How often the table was filled. */
    ghost var fills: nat

    /** The table is all zero and was never filled, or it is fully correct and was filled once. */
    ghost predicate Valid()
      reads this, table
    {
      && table.Length == 256 && fills <= 1
      && (fills == 0 ==> forall i :: 0 <= i < 256 ==> table[i] == ZERO)
      && (fills == 1 ==> Inited())
    }

    ghost predicate Inited()
      reads this, table
    {
      table.Length == 256 && forall i :: 0 <= i < 256 ==> table[i] == TableEntry(i)
    }

    constructor ()
      ensures Valid() && fresh(table) && fills == 0
    {
      table := new Word[256](_ => ZERO);
      fills := 0;
    }

    /** The test of the last entry tells a filled table from an empty one. */
    method EnsureCrc32TableInited()
      requires Valid()
      modifies this, table
      ensures Valid() && Inited() && fills == 1
      ensures old(fills) == 1 ==> table[..] == old(table[..])
    {
      EntryNonZero(255);
      if table[table.Length - 1] == ZERO {
        FillTable();
        fills := fills + 1;
      }
    }

    method FillTable()
      requires table.Length == 256
      modifies table
      ensures Inited()
    {
      var n := table.Length;
      for i := 0 to n
        invariant forall k :: 0 <= k < i ==> table[k] == TableEntry(k)
      {
        var c := ComputeEntry(i);
        table[i] := c;
      }
    }

    /** Eight steps from the table index. */
    method ComputeEntry(i: nat) returns (c: Word)
      ensures c == TableEntry(i)
    {
      c := LowBits(i, 32);
      for j := 0 to 8
        invariant Shifts(c, 8 - j) == TableEntry(i)
      {
        if c[0] {
          c := Xor(POLYNOMIAL, ShiftDown(c, 1));
        } else {
          c := ShiftDown(c, 1);
        }
      }
    }

    method UpdateByte(c: Word, b: byte) returns (next: Word)
      requires Inited()
      ensures next == Divide(c, LowBits(b, 8))
    {
      var x: Word := Xor(c, LowBits(b, 32));
      IndexInRange(x);
      ByteStep(c, b);
      next := Xor(table[Value(x[..8])], ShiftDown(c, 8));
    }

    /** The table loop computes the bit-at-a-time division. */
    method UpdateCrc32(start: Word, buf: seq<byte>) returns (crc: Word)
      requires Valid()
      modifies this, table
      ensures Valid() && fills == 1 && crc == Crc(start, buf)
    {
      EnsureCrc32TableInited();
      var c: Word := Xor(start, ONES);
      assert BufferBits(buf[..0]) == [];
      for i := 0 to |buf|
        invariant Valid() && fills == 1 && c == Divide(Xor(start, ONES), BufferBits(buf[..i]))
      {
        DivideNextByte(Xor(start, ONES), buf, i);
        c := UpdateByte(c, buf[i]);
      }
      assert buf[..|buf|] == buf;
      crc := Xor(c, ONES);
    }
  }

  lemma IndexInRange(x: Word)
    ensures Value(x[..8]) < 256
  {
    ValueBound(x[..8]);
    assert Pow2(8) == 256;
  }

  lemma {:induction false} DivideNextByte(c: Word, buf: seq<byte>, i: nat)
    requires i < |buf|
    ensures Divide(c, BufferBits(buf[..i + 1])) == Divide(Divide(c, BufferBits(buf[..i])), LowBits(buf[i], 8))
  {
    var one := [buf[i]];
    assert BufferBits(one) == LowBits(buf[i], 8) by {
      assert one[1..] == [];
      assert BufferBits(one) == LowBits(one[0], 8) + BufferBits(one[1..]);
    }
    assert buf[..i + 1] == buf[..i] + one;
    BufferBitsConcat(buf[..i], one);
    DivideConcat(c, BufferBits(buf[..i]), BufferBits(one));
  }

  /** The test for an initialised table is sound: an odd entry, such as the last, cannot be zero. */
  lemma {:induction false} EntryNonZero(i: nat)
    requires i % 2 == 1
    ensures TableEntry(i) != ZERO
  {
    assert LowBits(i, 32)[0] && !ZERO[0];
    if TableEntry(i) == ZERO {
      ZeroStays();
      ShiftsInjective(LowBits(i, 32), ZERO, 8);
    }
  }

  lemma {:induction false} ZeroStays()
    ensures Shifts(ZERO, 8) == ZERO
  {
    assert ZERO[..8] == Zeros(8);
    ShiftsOfHigh(ZERO, 8);
    assert ShiftDown(ZERO, 8) == ZERO;
  }
}
