/**
 * Machine words as bit strings, the highest bit first, and their values. ^, &, |, ~, << and >> on a
 * word of a given width are what they are bit by bit.
 */
module BitStrings {

  type Bits = seq<bool>

  function Zeros(n: nat): (z: Bits)
    ensures |z| == n && forall i :: 0 <= i < n ==> !z[i]
  {
    seq(n, _ => false)
  }

  function Ones(n: nat): (z: Bits)
    ensures |z| == n && forall i :: 0 <= i < n ==> z[i]
  {
    seq(n, _ => true)
  }

  function And(a: Bits, b: Bits): (r: Bits)
    requires |a| == |b|
    ensures |r| == |a| && forall i :: 0 <= i < |r| ==> r[i] == (a[i] && b[i])
  {
    seq(|a|, i requires 0 <= i < |a| => a[i] && b[i])
  }

  function Or(a: Bits, b: Bits): (r: Bits)
    requires |a| == |b|
    ensures |r| == |a| && forall i :: 0 <= i < |r| ==> r[i] == (a[i] || b[i])
  {
    seq(|a|, i requires 0 <= i < |a| => a[i] || b[i])
  }

  function Not(a: Bits): (r: Bits)
    ensures |r| == |a| && forall i :: 0 <= i < |r| ==> r[i] == !a[i]
  {
    seq(|a|, i requires 0 <= i < |a| => !a[i])
  }

  /** a << n, in a's width */
  function Shl(a: Bits, n: nat): (r: Bits)
    requires n <= |a|
    ensures |r| == |a|
  {
    a[n..] + Zeros(n)
  }

  /** a >> n */
  function Shr(a: Bits, n: nat): (r: Bits)
    requires n <= |a|
    ensures |r| == |a|
  {
    Zeros(n) + a[..|a| - n]
  }

  function Pow2(n: nat): (p: nat)
    ensures p > 0
  {
    if n == 0 then 1 else 2 * Pow2(n - 1)
  }

  /** The `width` lowest bits of n. */
  function BitsOf(n: nat, width: nat): (s: Bits)
    ensures |s| == width
  {
    if width == 0 then [] else BitsOf(n / 2, width - 1) + [n % 2 == 1]
  }

  function ValueOf(s: Bits): nat {
    if s == [] then 0 else 2 * ValueOf(s[..|s| - 1]) + (if s[|s| - 1] then 1 else 0)
  }

  lemma {:induction false} ValueOfBitsOf(n: nat, width: nat)
    requires n < Pow2(width)
    ensures ValueOf(BitsOf(n, width)) == n
  {
    if width > 0 {
      ValueOfBitsOf(n / 2, width - 1);
      assert BitsOf(n, width)[..width - 1] == BitsOf(n / 2, width - 1);
    }
  }

  lemma {:induction false} BitsOfValueOf(s: Bits)
    ensures BitsOf(ValueOf(s), |s|) == s && ValueOf(s) < Pow2(|s|)
  {
    if s != [] {
      BitsOfValueOf(s[..|s| - 1]);
    }
  }

  lemma {:induction false} ValueOfZeros(n: nat)
    ensures ValueOf(Zeros(n)) == 0
  {
    if n > 0 {
      assert Zeros(n)[..n - 1] == Zeros(n - 1);
      ValueOfZeros(n - 1);
    }
  }

  lemma {:induction false} ValueOfPadded(zeros: nat, s: Bits)
    ensures ValueOf(Zeros(zeros) + s) == ValueOf(s)
  {
    if s == [] {
      assert Zeros(zeros) + s == Zeros(zeros);
      ValueOfZeros(zeros);
    } else {
      assert (Zeros(zeros) + s)[..zeros + |s| - 1] == Zeros(zeros) + s[..|s| - 1];
      ValueOfPadded(zeros, s[..|s| - 1]);
    }
  }

  /** A number in a wider word has zeros in front. */
  lemma {:induction false} BitsOfWider(n: nat, width: nat, wider: nat)
    requires n < Pow2(width) && width <= wider
    ensures BitsOf(n, wider) == Zeros(wider - width) + BitsOf(n, width)
  {
    var s := Zeros(wider - width) + BitsOf(n, width);
    ValueOfPadded(wider - width, BitsOf(n, width));
    ValueOfBitsOf(n, width);
    BitsOfValueOf(s);
  }

  /** The low bits of a word are the low bits of its number. */
  lemma {:induction false} BitsOfNarrower(n: nat, narrow: nat, width: nat)
    requires narrow <= width
    ensures BitsOf(n, width)[width - narrow..] == BitsOf(n, narrow)
  {
    if narrow > 0 {
      BitsOfNarrower(n / 2, narrow - 1, width - 1);
      assert BitsOf(n, width)[width - narrow..] == BitsOf(n / 2, width - 1)[width - narrow..] + [n % 2 == 1];
    } else {
      assert BitsOf(n, width)[width..] == [];
    }
  }

  /** (1 << n) - 1 */
  lemma {:induction false} ValueOfOnes(n: nat)
    ensures ValueOf(Ones(n)) == Pow2(n) - 1
  {
    if n > 0 {
      assert Ones(n)[..n - 1] == Ones(n - 1);
      ValueOfOnes(n - 1);
    }
  }

  /** The mask of the n lowest bits of a word. */
  lemma {:induction false} LowMask(n: nat, width: nat)
    requires n <= width
    ensures BitsOf(Pow2(n) - 1, width) == Zeros(width - n) + Ones(n)
  {
    ValueOfOnes(n);
    BitsOfValueOf(Ones(n));
    BitsOfWider(Pow2(n) - 1, n, width);
  }
}
