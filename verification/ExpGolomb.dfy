/** The Exp-Golomb code as a code on bit sequences: an encoder, a decoder, and that they are inverse. */
module ExpGolomb {
  import opened BitStrings
  import opened Bytes

  const UINT32_MAX: nat := 0xFFFF_FFFF

  /** The number of bits in n's binary representation. */
  function BitLength(n: nat): nat {
    if n == 0 then 0 else 1 + BitLength(n / 2)
  }

  lemma {:induction false} BitLengthBounds(n: nat)
    requires n > 0
    ensures BitLength(n) > 0 && Pow2(BitLength(n) - 1) <= n < Pow2(BitLength(n))
  {
    if n > 1 {
      BitLengthBounds(n / 2);
    } else {
      assert BitLength(0) == 0 && Pow2(0) == 1 && Pow2(1) == 2 * Pow2(0);
    }
  }

  lemma {:induction false} Pow2Monotone(a: nat, b: nat)
    requires a <= b
    ensures Pow2(a) <= Pow2(b)
  {
    if a < b {
      Pow2Monotone(a, b - 1);
    }
  }

  /** Numbers of at most 32 bits have length at most 32. */
  lemma {:induction false} BitLengthAtMost(n: nat, limit: nat)
    requires n < Pow2(limit)
    ensures BitLength(n) <= limit
  {
    if n > 0 {
      BitLengthBounds(n);
      if BitLength(n) > limit {
        Pow2Monotone(limit, BitLength(n) - 1);
      }
    }
  }

  lemma Pow2Of32()
    ensures Pow2(32) == 0x1_0000_0000
  {
    assert Pow2(8) == 256;
    Pow2Add(8, 8);
    Pow2Add(16, 16);
  }

  lemma {:induction false} Pow2Add(a: nat, b: nat)
    ensures Pow2(a + b) == Pow2(a) * Pow2(b)
  {
    if a > 0 {
      Pow2Add(a - 1, b);
    }
  }

  lemma FitsIn32(n: nat)
    requires n <= UINT32_MAX
    ensures BitLength(n) <= 32
  {
    Pow2Of32();
    BitLengthAtMost(n, 32);
  }

  lemma ValueFitsIn32(w: Bits)
    requires |w| <= 32
    ensures ValueOf(w) <= UINT32_MAX
  {
    BitsOfValueOf(w);
    Pow2Of32();
    Pow2Monotone(|w|, 32);
  }

  /** A word starts with a one exactly when its value needs all of its bits. */
  lemma {:induction false} LeadingOne(s: Bits)
    requires s != []
    ensures s[0] <==> Pow2(|s| - 1) <= ValueOf(s)
  {
    if |s| == 1 {
      assert s[..0] == [];
    } else {
      LeadingOne(s[..|s| - 1]);
    }
  }

  // ------------------------------------------------------------------------ code and decode

  /** v + 1 in its own length, behind one zero fewer than that. */
  function Code(v: nat): Bits {
    var c := BitLength(v + 1);
    BitLengthBounds(v + 1);
    BitsOf(v + 1, 2 * c - 1)
  }

  /** How many zeros there are from `from` on. */
  function ZeroRun(s: Bits, from: nat): (z: nat)
    requires from <= |s|
    ensures from + z <= |s| && (from + z < |s| ==> s[from + z]) && forall i :: from <= i < from + z ==> !s[i]
    decreases |s| - from
  {
    if from == |s| || s[from] then 0 else 1 + ZeroRun(s, from + 1)
  }

  /** The value at `from` and the position behind its code, or None if there is no 32-bit code there. */
  function Decode(s: Bits, from: nat): Option<(nat, nat)>
    requires from <= |s|
  {
    var z := ZeroRun(s, from);
    if z + 1 > 32 || from + 2 * z + 1 > |s| then None
    else
      LeadingOne(s[from + z..from + 2 * z + 1]);
      Some((ValueOf(s[from + z..from + 2 * z + 1]) - 1, from + 2 * z + 1))
  }

  /** What the decoder makes of z zeros. */
  lemma {:induction false} DecodeAt(s: Bits, from: nat, z: nat, one: nat)
    requires from <= |s| && z == ZeroRun(s, from) && one == from + z
    ensures z < 32 && one + (z + 1) <= |s| ==>
              var w := s[one..one + (z + 1)];
              ValueOf(w) > 0 && Decode(s, from) == Some((ValueOf(w) - 1, one + (z + 1)))
    ensures z >= 32 || one + (z + 1) > |s| ==> Decode(s, from).None?
  {
    assert from + 2 * z + 1 == one + (z + 1);
    if z < 32 && one + (z + 1) <= |s| {
      LeadingOne(s[one..one + (z + 1)]);
    }
  }

  lemma {:induction false} CodeShape(v: nat)
    ensures var c := BitLength(v + 1);
            && c > 0 && Code(v) == Zeros(c - 1) + BitsOf(v + 1, c)
            && BitsOf(v + 1, c)[0] && ValueOf(BitsOf(v + 1, c)) == v + 1
  {
    var c := BitLength(v + 1);
    BitLengthBounds(v + 1);
    BitsOfWider(v + 1, c, 2 * c - 1);
    ValueOfBitsOf(v + 1, c);
    LeadingOne(BitsOf(v + 1, c));
  }

  lemma {:induction false} ZeroRunIs(s: Bits, from: nat, z: nat)
    requires from + z < |s| && s[from + z] && forall i :: from <= i < from + z ==> !s[i]
    ensures ZeroRun(s, from) == z
    decreases z
  {
    if z > 0 {
      ZeroRunIs(s, from + 1, z - 1);
    }
  }

  lemma {:induction false} DecodeParts(s: Bits, from: nat, z: nat, w: Bits)
    requires z < 32 && |w| == z + 1 && w[0] && from + 2 * z + 1 <= |s|
    requires s[from..from + z] == Zeros(z) && s[from + z..from + z + |w|] == w
    ensures ValueOf(w) > 0 && Decode(s, from) == Some((ValueOf(w) - 1, from + 2 * z + 1))
  {
    forall i | from <= i < from + z
      ensures !s[i]
    {
      assert s[i] == s[from..from + z][i - from];
    }
    assert s[from + z] == s[from + z..from + z + |w|][0];
    ZeroRunIs(s, from, z);
    LeadingOne(w);
  }

  lemma {:induction false} DecodeWord(s: Bits, from: nat, w: Bits)
    requires 0 < |w| <= 32 && w[0] && from + 2 * |w| - 1 <= |s|
    requires s[from..from + 2 * |w| - 1] == Zeros(|w| - 1) + w
    ensures ValueOf(w) > 0 && Decode(s, from) == Some((ValueOf(w) - 1, from + 2 * |w| - 1))
  {
    SliceParts(s, from, Zeros(|w| - 1), w);
    DecodeParts(s, from, |w| - 1, w);
  }

  /** Decoding at a code gives its value and its end, wherever it stands. */
  lemma {:induction false} DecodeCode(s: Bits, from: nat, v: nat)
    requires v < UINT32_MAX && from + |Code(v)| <= |s| && s[from..from + |Code(v)|] == Code(v)
    ensures Decode(s, from) == Some((v, from + |Code(v)|))
  {
    CodeShape(v);
    FitsIn32(v + 1);
    DecodeShape(s, from, Code(v), BitsOf(v + 1, BitLength(v + 1)));
  }

  lemma {:induction false} DecodeShape(s: Bits, from: nat, code: Bits, w: Bits)
    requires 0 < |w| <= 32 && w[0] && code == Zeros(|w| - 1) + w
    requires from + |code| <= |s| && s[from..from + |code|] == code
    ensures ValueOf(w) > 0 && Decode(s, from) == Some((ValueOf(w) - 1, from + |code|))
  {
    assert |code| == 2 * |w| - 1;
    DecodeWord(s, from, w);
  }

  lemma {:induction false} CodeOfLength(n: nat, c: nat)
    requires n > 0 && BitLength(n) == c
    ensures c > 0 && Code(n - 1) == Zeros(c - 1) + BitsOf(n, c)
  {
    CodeShape(n - 1);
  }

  lemma {:induction false} CodeOfWord(w: Bits)
    requires w != [] && w[0]
    ensures ValueOf(w) > 0 && Code(ValueOf(w) - 1) == Zeros(|w| - 1) + w
  {
    var n, c := ValueOf(w), |w|;
    LeadingOne(w);
    BitsOfValueOf(w);
    BitLengthIs(n, c);
    CodeOfLength(n, c);
  }

  /** Whatever decodes is a code: the code is complete for its values and has no second spelling. */
  lemma {:induction false} CodeOfDecode(s: Bits, from: nat)
    requires from <= |s| && Decode(s, from).Some?
    ensures var (v, end) := Decode(s, from).value;
            v < UINT32_MAX && from <= end <= |s| && s[from..end] == Code(v)
  {
    var z := ZeroRun(s, from);
    var w := s[from + z..from + 2 * z + 1];
    CodeOfWord(w);
    ValueFitsIn32(w);
    assert s[from..from + z] == Zeros(z);
    SliceJoin(s, from, from + z, from + 2 * z + 1);
  }

  lemma BitLengthIs(n: nat, c: nat)
    requires c > 0 && Pow2(c - 1) <= n < Pow2(c)
    ensures BitLength(n) == c
  {
    BitLengthBounds(n);
    if BitLength(n) < c {
      Pow2Monotone(BitLength(n), c - 1);
    } else if c < BitLength(n) {
      Pow2Monotone(c, BitLength(n) - 1);
    }
  }

  function Codes(values: seq<nat>): Bits {
    if values == [] then [] else Codes(values[..|values| - 1]) + Code(values[|values| - 1])
  }

  /** The first codes of table 9-2. */
  lemma CodeTable()
    ensures Code(0) == [true] && Code(1) == [false, true, false] && Code(2) == [false, true, true]
    ensures Code(3) == [false, false, true, false, false]
  {
    assert BitLength(1) == 1 && BitLength(2) == 2 && BitLength(3) == 2 && BitLength(4) == 3;
    assert BitsOf(1, 1) == [true];
    assert BitsOf(2, 3) == [false, true, false] && BitsOf(3, 3) == [false, true, true];
    assert BitsOf(4, 5) == [false, false, true, false, false];
  }

  // ------------------------------------------------------------------------ signed values

  function Signed(u: nat): int {
    if u % 2 == 0 then -(u / 2) else (u + 1) / 2
  }

  function Unsigned(k: int): nat {
    if k <= 0 then -2 * k else 2 * k - 1
  }

  /** The table of clause 9.1.1: 0, 1, -1, 2, -2 and so on. */
  lemma SignedTable(k: int)
    requires k > 0
    ensures Signed(0) == 0 && Signed(2 * k - 1) == k && Signed(2 * k) == -k
  {
    assert 2 * k % 2 == 0 && 2 * k / 2 == k && (2 * k - 1) % 2 == 1;
  }

  /** The signed mapping is a bijection from 0..2^32-2 onto -(2^31-1)..2^31-1. */
  lemma SignedIsBijection(u: nat, k: int)
    ensures Unsigned(Signed(u)) == u && Signed(Unsigned(k)) == k
    ensures u < UINT32_MAX <==> -0x7FFF_FFFF <= Signed(u) <= 0x7FFF_FFFF
  {
    assert u % 2 == 0 ==> u == 2 * (u / 2);
    assert u % 2 == 1 ==> u + 1 == 2 * ((u + 1) / 2);
  }
}
