/** Integers as bytes, in network and in little-endian order. */
module ByteOrder {
  import opened Bytes

  /** SetBE16, SetBE32, SetBE64: the k low bytes, the highest first. */
  function SetBE(v: nat, k: nat): (s: seq<byte>)
    ensures |s| == k
  {
    if k == 0 then [] else SetBE(v / 256, k - 1) + [v % 256]
  }

  function GetBE(s: seq<byte>): nat {
    if s == [] then 0 else 256 * GetBE(s[..|s| - 1]) + s[|s| - 1]
  }

  function SetLE(v: nat, k: nat): (s: seq<byte>)
    ensures |s| == k
  {
    if k == 0 then [] else [v % 256] + SetLE(v / 256, k - 1)
  }

  function GetLE(s: seq<byte>): nat {
    if s == [] then 0 else (s[0] as int) + 256 * GetLE(s[1..])
  }

  function Pow256(k: nat): (p: nat)
    ensures p > 0
  {
    if k == 0 then 1 else 256 * Pow256(k - 1)
  }

  lemma MultipleBelow(a: nat, b: nat, m: nat)
    requires a < b
    ensures a * m + m <= b * m
  {
    assert b * m == (a + 1) * m + (b - a - 1) * m;
  }

  lemma RemainderIs(v: nat, m: nat, q: nat, r: nat)
    requires r < m && v == q * m + r
    ensures v % m == r
  {
    if v / m < q {
      MultipleBelow(v / m, q, m);
    } else if q < v / m {
      MultipleBelow(q, v / m, m);
    }
  }

  /** The remainder by 256 * p, byte by byte. */
  lemma RemainderSplits(v: nat, p: nat)
    requires p > 0
    ensures v % (256 * p) == 256 * (v / 256 % p) + v % 256
  {
    var high := v / 256;
    var q, r := high / p, high % p;
    assert high == q * p + r;
    assert 256 * high == q * (256 * p) + 256 * r;
    RemainderIs(v, 256 * p, q, 256 * r + v % 256);
  }

  /** Reading undoes writing, up to the bytes that were cut off. */
  lemma {:induction false} BigEndianRoundTrip(v: nat, k: nat)
    ensures GetBE(SetBE(v, k)) == v % Pow256(k)
  {
    if k > 0 {
      BigEndianRoundTrip(v / 256, k - 1);
      assert SetBE(v, k)[..k - 1] == SetBE(v / 256, k - 1);
      RemainderSplits(v, Pow256(k - 1));
    }
  }

  lemma {:induction false} LittleEndianRoundTrip(v: nat, k: nat)
    ensures GetLE(SetLE(v, k)) == v % Pow256(k)
  {
    if k > 0 {
      LittleEndianRoundTrip(v / 256, k - 1);
      assert SetLE(v, k)[1..] == SetLE(v / 256, k - 1);
      RemainderSplits(v, Pow256(k - 1));
    }
  }

  lemma {:induction false} DivideTwice(v: nat, k: nat)
    ensures v / 256 / Pow256(k) == v / Pow256(k + 1)
  {
    var p, w := Pow256(k), v / 256;
    var q, r := w / p, w % p;
    assert w == q * p + r && Pow256(k + 1) == 256 * p;
    assert 256 * w == q * (256 * p) + 256 * r;
    QuotientIs(v, 256 * p, q, 256 * r + v % 256);
  }

  lemma QuotientIs(v: nat, m: nat, q: nat, r: nat)
    requires r < m && v == q * m + r
    ensures v / m == q
  {
    if v / m < q {
      MultipleBelow(v / m, q, m);
    } else if q < v / m {
      MultipleBelow(q, v / m, m);
    }
  }

  /** Big-endian: the byte at i has weight 256^(k - 1 - i). */
  lemma {:induction false} BigEndianByte(v: nat, k: nat, i: nat)
    requires i < k
    ensures SetBE(v, k)[i] == v / Pow256(k - 1 - i) % 256
  {
    if i < k - 1 {
      BigEndianByte(v / 256, k - 1, i);
      DivideTwice(v, k - 2 - i);
    }
  }

  /** Little-endian: the byte at i has weight 256^i. */
  lemma {:induction false} LittleEndianByte(v: nat, k: nat, i: nat)
    requires i < k
    ensures SetLE(v, k)[i] == v / Pow256(i) % 256
  {
    if i > 0 {
      LittleEndianByte(v / 256, k - 1, i - 1);
      DivideTwice(v, i - 1);
    }
  }

  /** Writing undoes reading. */
  lemma {:induction false} BigEndianBytes(s: seq<byte>)
    ensures GetBE(s) < Pow256(|s|) && SetBE(GetBE(s), |s|) == s
  {
    if s != [] {
      BigEndianBytes(s[..|s| - 1]);
      assert s == s[..|s| - 1] + [s[|s| - 1]];
    }
  }

  lemma {:induction false} LittleEndianBytes(s: seq<byte>)
    ensures GetLE(s) < Pow256(|s|) && SetLE(GetLE(s), |s|) == s
  {
    if s != [] {
      var first: int, rest := s[0], GetLE(s[1..]);
      LittleEndianBytes(s[1..]);
      assert GetLE(s) == first + 256 * rest;
      assert GetLE(s) % 256 == first && GetLE(s) / 256 == rest;
      assert s == [s[0]] + s[1..];
    }
  }
}
