/**
 * A cursor over a byte array that reads and writes any number of bits, and the Exp-Golomb code of
 * clauses 9.1 and 9.1.1 of ITU-T H.264 on top of it.
 */
module BitBuffer {
  import opened BitStrings
  import opened Bytes
  import opened ExpGolomb

  /** A uint8_t. */
  type Octet = s: Bits | |s| == 8 witness Zeros(8)

  // ------------------------------------------------------------------------ bytes

  /** byte & ((1 << count) - 1); the mask's value is that of its bits (LowMask). */
  function LowestBits(b: Octet, count: nat): Octet
    requires count <= 8
  {
    And(b, Zeros(8 - count) + Ones(count))
  }

  /** (byte & (0xFF << (8 - count))) >> (8 - count) */
  function HighestBits(b: Octet, count: nat): Octet
    requires count <= 8
  {
    Shr(And(b, Shl(Ones(8), 8 - count)), 8 - count)
  }

  function WritePartialByte(source: Octet, count: nat, target: Octet, offset: nat): Octet
    requires offset < 8 && count <= 8 - offset
  {
    var mask := Shr(Shl(Ones(8), 8 - count), offset);
    Or(And(target, Not(mask)), Shr(source, offset))
  }

  /**
   * The source is never masked: the result is the target with `count` bits replaced exactly when
   * the source has no stray bit that lands on a clear bit behind them.
   */
  lemma WritePartialByteExact(source: Octet, count: nat, target: Octet, offset: nat)
    requires offset < 8 && count <= 8 - offset
    ensures WritePartialByte(source, count, target, offset)
              == target[..offset] + source[..count] + target[offset + count..]
       <==> forall i :: count <= i < 8 - offset && source[i] ==> target[offset + i]
  {
    var mask := Shr(Shl(Ones(8), 8 - count), offset);
    assert mask == Zeros(offset) + Ones(count) + Zeros(8 - offset - count);
    var r := WritePartialByte(source, count, target, offset);
    var w := target[..offset] + source[..count] + target[offset + count..];
    forall i | 0 <= i < 8
      ensures i < offset + count ==> r[i] == w[i]
      ensures i >= offset + count ==> r[i] == (target[i] || source[i - offset]) && w[i] == target[i]
    {
    }
    if forall i :: count <= i < 8 - offset && source[i] ==> target[offset + i] {
      assert forall i :: 0 <= i < 8 ==> r[i] == w[i];
      assert r == w;
    } else {
      var i :| count <= i < 8 - offset && source[i] && !target[offset + i];
      assert r[offset + i] != w[offset + i];
    }
  }

  lemma {:induction false} LowestBitsExact(b: Octet, count: nat)
    requires count <= 8
    ensures LowestBits(b, count) == And(b, BitsOf(Pow2(count) - 1, 8))
    ensures LowestBits(b, count) == Zeros(8 - count) + b[8 - count..]
  {
    LowMask(count, 8);
  }

  lemma HighestBitsExact(b: Octet, count: nat)
    requires count <= 8
    ensures HighestBits(b, count) == Zeros(8 - count) + b[..count]
  {
    assert Shl(Ones(8), 8 - count) == Ones(count) + Zeros(8 - count);
  }

  lemma TopBits(b: Octet, count: nat)
    requires count <= 8
    ensures Zeros(24) + HighestBits(b, count) == Zeros(32 - count) + b[..count]
  {
    HighestBitsExact(b, count);
    assert Zeros(32 - count) == Zeros(24) + Zeros(8 - count);
    ConcatAssociative(Zeros(24), Zeros(8 - count), b[..count]);
  }

  /** Masking off the bits in front and shifting out those behind leaves the bits in between. */
  lemma MiddleBits(b: Octet, offset: nat, count: nat)
    requires offset + count <= 8
    ensures ValueOf(HighestBits(LowestBits(b, 8 - offset), offset + count)) == ValueOf(b[offset..offset + count])
  {
    var low, want := LowestBits(b, 8 - offset), b[offset..offset + count];
    LowestBitsExact(b, 8 - offset);
    HighestBitsExact(low, offset + count);
    assert low[..offset + count] == Zeros(offset) + want;
    assert HighestBits(low, offset + count) == Zeros(8 - count) + want;
    ValueOfPadded(8 - count, want);
  }

  /** The first byte in a 32-bit word, without the bits in front of the cursor. */
  lemma FirstBits(b: Octet, offset: nat)
    requires offset <= 8
    ensures Zeros(24) + LowestBits(b, 8 - offset) == Zeros(24 + offset) + b[offset..8]
  {
    LowestBitsExact(b, 8 - offset);
    assert b[offset..] == b[offset..8];
  }

  // ------------------------------------------------------------------------ the bit sequence

  function AllBits(bytes: seq<Octet>): (s: Bits)
    ensures |s| == 8 * |bytes|
  {
    if bytes == [] then [] else bytes[0] + AllBits(bytes[1..])
  }

  lemma {:induction false} BitsOfByte(bytes: seq<Octet>, i: nat)
    requires i < |bytes|
    ensures AllBits(bytes)[8 * i..8 * i + 8] == bytes[i]
  {
    if i > 0 {
      BitsOfByte(bytes[1..], i - 1);
      assert AllBits(bytes)[8 * i..8 * i + 8] == AllBits(bytes[1..])[8 * (i - 1)..8 * (i - 1) + 8];
    } else {
      assert AllBits(bytes)[0..8] == bytes[0];
    }
  }

  /** Overwriting a byte overwrites its eight bits. */
  lemma {:induction false} BitsOfUpdate(bytes: seq<Octet>, i: nat, b: Octet)
    requires i < |bytes|
    ensures AllBits(bytes[i := b]) == AllBits(bytes)[..8 * i] + b + AllBits(bytes)[8 * i + 8..]
  {
    if i > 0 {
      BitsOfUpdate(bytes[1..], i - 1, b);
      assert bytes[i := b][1..] == bytes[1..][i - 1 := b];
      var first, s, at := bytes[0], AllBits(bytes[1..]), 8 * (i - 1);
      SliceBehind(first, s, at);
      SliceBehind(first, s, at + 8);
      ConcatAssociative(first, s[..at] + b, s[at + 8..]);
      ConcatAssociative(first, s[..at], b);
    } else {
      assert bytes[0 := b][1..] == bytes[1..];
      assert AllBits(bytes)[8..] == AllBits(bytes[1..]);
    }
  }

  /** s with the bits from `at` on replaced by `w`. */
  function Replace(s: Bits, at: nat, w: Bits): (r: Bits)
    requires at + |w| <= |s|
    ensures |r| == |s|
  {
    s[..at] + w + s[at + |w|..]
  }

  /** Extending a replacement by the next bits of v. */
  lemma ReplaceGrows(s: Bits, at: nat, v: Bits, done: nat, w: Bits)
    requires at + |v| <= |s| && done + |w| <= |v| && w == v[done..done + |w|]
    ensures Replace(Replace(s, at, v[..done]), at + done, w) == Replace(s, at, v[..done + |w|])
  {
    assert v[..done] + w == v[..done + |w|];
  }

  lemma ReplaceInside(s: Bits, at: nat, b: Bits, offset: nat, w: Bits)
    requires at + |b| <= |s| && b == s[at..at + |b|] && offset + |w| <= |b|
    ensures s[..at] + Replace(b, offset, w) + s[at + |b|..] == Replace(s, at + offset, w)
  {
    assert s[..at] + b[..offset] == s[..at + offset];
    assert b[offset + |w|..] + s[at + |b|..] == s[at + offset + |w|..];
  }

  /** Replacing bits inside one byte. */
  lemma {:induction false} BitsOfPartialUpdate(bytes: seq<Octet>, i: nat, offset: nat, w: Bits)
    requires i < |bytes| && offset + |w| <= 8
    ensures AllBits(bytes[i := Replace(bytes[i], offset, w)]) == Replace(AllBits(bytes), 8 * i + offset, w)
  {
    BitsOfUpdate(bytes, i, Replace(bytes[i], offset, w));
    BitsOfByte(bytes, i);
    ReplaceInside(AllBits(bytes), 8 * i, bytes[i], offset, w);
  }

  /** Shifting the next bits of a stream into the low end of a 32-bit word. */
  lemma ShiftIn(s: Bits, from: nat, at: nat, v: Bits)
    requires from <= at && at + |v| <= |s| && at - from + |v| <= 32 && v == s[at..at + |v|]
    ensures Or(Shl(Zeros(32 - (at - from)) + s[from..at], |v|), Zeros(32 - |v|) + v)
         == Zeros(32 - (at - from) - |v|) + s[from..at + |v|]
  {
  }

  /** Taking bits off the front of a 64-bit word. */
  lemma ShiftOut(v: Bits, done: nat, k: nat, word: Bits)
    requires done + k <= |v| && |v| - done <= 64 && word == v[done..] + Zeros(64 - (|v| - done))
    ensures word[..k] == v[done..done + k]
    ensures Shl(word, k) == v[done + k..] + Zeros(64 - (|v| - done - k))
  {
  }

  /** val <<= 64 - count */
  lemma WordOfValue(val: nat, count: nat)
    requires count <= 64
    ensures Shl(BitsOf(val, 64), 64 - count) == BitsOf(val, count) + Zeros(64 - count)
  {
    BitsOfNarrower(val, count, 64);
  }

  /** The highest byte of the word; behind the last bits there are zeros. */
  lemma TopByte(v: Bits, done: nat, k: nat, word: Bits)
    requires 0 < k <= 8 && done + k <= |v| <= 64 && (k == 8 || done + k == |v|)
    requires word == v[done..] + Zeros(64 - (|v| - done))
    ensures word[..8][..k] == word[..k] && (k < 8 ==> word[..8][k..] == Zeros(8 - k))
  {
  }

  // ------------------------------------------------------------------------ the buffer

  class BitBufferWriter {
    const bytes: array<Octet>
    var byteOffset: nat
    var bitOffset: nat

    ghost predicate Valid()
      reads this
    {
      byteOffset <= bytes.Length && bitOffset < 8 && (byteOffset == bytes.Length ==> bitOffset == 0)
    }

    /** The buffer as a plain bit sequence, and the cursor as an index into it. */
    ghost function Stream(): (s: Bits)
      reads bytes
      ensures |s| == 8 * bytes.Length
    {
      AllBits(bytes[..])
    }

    ghost function Pos(): nat
      reads this
    {
      8 * byteOffset + bitOffset
    }

    constructor (contents: seq<Octet>)
      ensures Valid() && fresh(bytes) && bytes[..] == contents && Pos() == 0
    {
      bytes := new Octet[|contents|](i requires 0 <= i < |contents| => contents[i]);
      byteOffset, bitOffset := 0, 0;
    }

    function RemainingBitCount(): (n: nat)
      requires Valid()
      reads this
      ensures n == 8 * bytes.Length - Pos()
    {
      (bytes.Length - byteOffset) * 8 - bitOffset
    }

    /** The bits of byte i from `from` on are those of the stream. */
    lemma ByteInStream(i: nat, from: nat, to: nat)
      requires i < bytes.Length && from <= to <= 8
      ensures bytes[i][from..to] == Stream()[8 * i + from..8 * i + to]
    {
      BitsOfByte(bytes[..], i);
      SliceOfSlice(Stream(), 8 * i, 8 * i + 8, from, to);
    }

    lemma ByteIsIn(i: nat)
      requires i < bytes.Length
      ensures bytes[i] == Stream()[8 * i..8 * i + 8]
    {
      BitsOfByte(bytes[..], i);
    }

    /** The value of the next bits, which stay unread. */
    method PeekBits(count: nat) returns (val: Option<nat>)
      requires Valid() && (count >= 1 || RemainingBitCount() > 0)
      ensures val == if count <= RemainingBitCount() && count <= 32
                     then Some(ValueOf(Stream()[Pos()..Pos() + count])) else None
    {
      if count > RemainingBitCount() || count > 32 {
        return None;
      }
      if count < 8 - bitOffset {
        val := PeekWithin(count);
      } else {
        var first := LowestBits(bytes[byteOffset], 8 - bitOffset);
        FirstBits(bytes[byteOffset], bitOffset);
        ByteInStream(byteOffset, bitOffset, 8);
        val := PeekRest(count, Zeros(24) + first);
      }
    }

    /** All the bits are in the current byte. */
    method PeekWithin(count: nat) returns (val: Option<nat>)
      requires Valid() && byteOffset < bytes.Length && count < 8 - bitOffset
      ensures val == Some(ValueOf(Stream()[Pos()..Pos() + count]))
    {
      var first := LowestBits(bytes[byteOffset], 8 - bitOffset);
      MiddleBits(bytes[byteOffset], bitOffset, count);
      ByteInStream(byteOffset, bitOffset, bitOffset + count);
      return Some(ValueOf(HighestBits(first, bitOffset + count)));
    }

    /** The bytes after the first one, for a 32-bit word that holds the first bits. */
    method PeekRest(count: nat, first: Bits) returns (val: Option<nat>)
      requires Valid() && 8 - bitOffset <= count <= 32 && count <= RemainingBitCount()
      requires first == Zeros(24 + bitOffset) + Stream()[Pos()..Pos() + 8 - bitOffset]
      ensures val == Some(ValueOf(Stream()[Pos()..Pos() + count]))
    {
      var bits, i, left := PeekBytes(count, first);
      if left > 0 {
        bits := PeekLast(i, left, bits, Stream(), Pos());
      }
      ValueOfPadded(32 - count, Stream()[Pos()..Pos() + count]);
      val := Some(ValueOf(bits));
    }

    /** Full bytes are shifted in while at least eight bits are wanted. */
    method PeekBytes(count: nat, first: Bits) returns (bits: Bits, i: nat, left: nat)
      requires Valid() && 8 - bitOffset <= count <= 32 && count <= RemainingBitCount()
      requires first == Zeros(24 + bitOffset) + Stream()[Pos()..Pos() + 8 - bitOffset]
      ensures left < 8 && left <= count && 8 * i == Pos() + (count - left)
      ensures bits == Zeros(32 - (count - left)) + Stream()[Pos()..8 * i]
    {
      ghost var s, pos := Stream(), Pos();
      bits, left, i := first, count - (8 - bitOffset), byteOffset + 1;
      while left >= 8
        invariant 0 <= left <= count && 8 * i == pos + (count - left)
        invariant bits == Zeros(32 - (8 * i - pos)) + s[pos..8 * i]
      {
        bits := PeekByte(i, bits, s, pos);
        i, left := i + 1, left - 8;
      }
    }

    method PeekByte(i: nat, before: Bits, ghost s: Bits, ghost pos: nat) returns (bits: Bits)
      requires i < bytes.Length && s == Stream() && pos <= 8 * i && 8 * i - pos + 8 <= 32
      requires before == Zeros(32 - (8 * i - pos)) + s[pos..8 * i]
      ensures bits == Zeros(32 - (8 * i - pos) - 8) + s[pos..8 * i + 8]
    {
      ByteIsIn(i);
      ShiftIn(s, pos, 8 * i, bytes[i]);
      bits := Or(Shl(before, 8), Zeros(24) + bytes[i]);
    }

    /** Fewer than eight bits from the front of byte i. */
    method PeekLast(i: nat, left: nat, before: Bits, ghost s: Bits, ghost pos: nat) returns (bits: Bits)
      requires i < bytes.Length && 0 < left < 8 && s == Stream()
      requires pos <= 8 * i && 8 * i - pos + left <= 32
      requires before == Zeros(32 - (8 * i - pos)) + s[pos..8 * i]
      ensures bits == Zeros(32 - (8 * i - pos) - left) + s[pos..8 * i + left]
    {
      ghost var v := bytes[i][..left];
      TopBits(bytes[i], left);
      ByteInStream(i, 0, left);
      assert v == bytes[i][0..left];
      ShiftIn(s, pos, 8 * i, v);
      bits := Shl(before, left);
      bits := Or(bits, Zeros(24) + HighestBits(bytes[i], left));
    }

    method ConsumeBits(count: nat) returns (ok: bool)
      requires Valid()
      modifies this
      ensures Valid()
      ensures ok <==> old(Pos()) + count <= 8 * bytes.Length
      ensures Pos() == old(Pos()) + (if ok then count else 0)
    {
      if count > RemainingBitCount() {
        return false;
      }
      var next := bitOffset + count;
      byteOffset := byteOffset + next / 8;
      bitOffset := next % 8;
      return true;
    }

    method ReadBits(count: nat) returns (val: Option<nat>)
      requires Valid() && (count >= 1 || RemainingBitCount() > 0)
      modifies this
      ensures Valid()
      ensures val == if old(Pos()) + count <= 8 * bytes.Length && count <= 32
                     then Some(ValueOf(Stream()[old(Pos())..old(Pos()) + count])) else None
      ensures Pos() == old(Pos()) + (if val.Some? then count else 0)
    {
      val := PeekBits(count);
      if val.Some? {
        var _ := ConsumeBits(count);
      }
    }

    method Seek(byteOffset': nat, bitOffset': nat) returns (ok: bool)
      requires Valid()
      modifies this
      ensures Valid()
      ensures ok <==> bitOffset' <= 7 && 8 * byteOffset' + bitOffset' <= 8 * bytes.Length
      ensures if ok then byteOffset == byteOffset' && bitOffset == bitOffset'
              else byteOffset == old(byteOffset) && bitOffset == old(bitOffset)
    {
      if byteOffset' > bytes.Length || bitOffset' > 7 || (byteOffset' == bytes.Length && bitOffset' > 0) {
        return false;
      }
      byteOffset, bitOffset := byteOffset', bitOffset';
      return true;
    }

    /** Writes the `count` highest bits of `source` into byte i; the rest of `source` must not matter. */
    method PutBits(i: nat, offset: nat, source: Octet, count: nat)
      requires i < bytes.Length && offset < 8 && count <= 8 - offset
      requires count == 8 - offset || source[count..] == Zeros(8 - count)
      modifies bytes
      ensures Stream() == Replace(old(Stream()), 8 * i + offset, source[..count])
    {
      forall k | count <= k < 8 - offset
        ensures !source[k]
      {
        assert source[k] == source[count..][k - count];
      }
      WritePartialByteExact(source, count, bytes[i], offset);
      BitsOfPartialUpdate(bytes[..], i, offset, source[..count]);
      ghost var before := bytes[..];
      bytes[i] := WritePartialByte(source, count, bytes[i], offset);
      assert bytes[..] == before[i := Replace(before[i], offset, source[..count])];
    }

    /** Replaces exactly the next `count` bits by the low bits of val, and moves past them. */
    method WriteBits(val: nat, count: nat) returns (ok: bool)
      requires Valid() && 1 <= count <= 64
      modifies this, bytes
      ensures Valid()
      ensures ok <==> old(Pos()) + count <= 8 * bytes.Length
      ensures Pos() == old(Pos()) + (if ok then count else 0)
      ensures Stream() == if ok then Replace(old(Stream()), old(Pos()), BitsOf(val, count)) else old(Stream())
    {
      if count > RemainingBitCount() {
        return false;
      }
      var word := Shl(BitsOf(val, 64), 64 - count);
      WordOfValue(val, count);
      WriteWord(count, word, BitsOf(val, count));
      ok := ConsumeBits(count);
    }

    /** Writes v, which stands in front of the word, at the cursor. */
    method WriteWord(count: nat, word: Bits, ghost v: Bits)
      requires Valid() && 1 <= count <= 64 && count <= RemainingBitCount()
      requires |v| == count && word == v + Zeros(64 - count)
      modifies bytes
      ensures Stream() == Replace(old(Stream()), Pos(), v)
    {
      ghost var s := Stream();
      WriteFirst(count, word, v);
      var inFirst := Min(count, 8 - bitOffset);
      if count > 8 - bitOffset {
        assert v[0..] == v;
        ShiftOut(v, 0, inFirst, word);
        WriteRest(count, Shl(word, inFirst), v, s);
      } else {
        assert v[..count] == v;
      }
    }

    /** The part of the current byte behind the cursor. */
    method WriteFirst(count: nat, word: Bits, ghost v: Bits)
      requires Valid() && 1 <= count <= 64 && count <= RemainingBitCount()
      requires |v| == count && word == v + Zeros(64 - count)
      modifies bytes
      ensures Stream() == Replace(old(Stream()), Pos(), v[..Min(count, 8 - bitOffset)])
    {
      var inFirst := Min(count, 8 - bitOffset);
      assert word[..8][..inFirst] == v[..inFirst];
      assert inFirst < 8 - bitOffset ==> word[..8][inFirst..] == Zeros(8 - inFirst);
      PutBits(byteOffset, bitOffset, word[..8], inFirst);
    }

    /** The bytes after the first one. `word` holds the bits that are left, in front. */
    method WriteRest(count: nat, first: Bits, ghost v: Bits, ghost s: Bits)
      requires Valid() && 8 - bitOffset < count <= 64 && count <= RemainingBitCount()
      requires |v| == count && |s| == 8 * bytes.Length
      requires first == v[8 - bitOffset..] + Zeros(64 - count + 8 - bitOffset)
      requires Stream() == Replace(s, Pos(), v[..8 - bitOffset])
      modifies bytes
      ensures Stream() == Replace(s, Pos(), v)
    {
      ghost var pos, done := Pos(), 8 - bitOffset;
      var word, left, i := first, count - (8 - bitOffset), byteOffset + 1;
      while left >= 8
        invariant left + done == count && 0 < done <= count && 8 * i == pos + done
        invariant word == v[done..] + Zeros(64 - (count - done))
        invariant Stream() == Replace(s, pos, v[..done])
      {
        WriteNext(i, 8, word, v, done, s, pos);
        ShiftOut(v, done, 8, word);
        word := Shl(word, 8);
        i, left, done := i + 1, left - 8, done + 8;
      }
      if left > 0 {
        WriteNext(i, left, word, v, done, s, pos);
      }
      assert v[..count] == v;
    }

    /** The first k bits of `word` go to the front of byte i. */
    method WriteNext(i: nat, k: nat, word: Bits, ghost v: Bits, ghost done: nat, ghost s: Bits, ghost pos: nat)
      requires i < bytes.Length && 0 < k <= 8 && 8 * i == pos + done
      requires done + k <= |v| <= 64 && (k == 8 || done + k == |v|)
      requires word == v[done..] + Zeros(64 - (|v| - done))
      requires |s| == 8 * bytes.Length && pos + |v| <= |s| && Stream() == Replace(s, pos, v[..done])
      modifies bytes
      ensures Stream() == Replace(s, pos, v[..done + k])
    {
      ShiftOut(v, done, k, word);
      TopByte(v, done, k, word);
      PutBits(i, 0, word[..8], k);
      ReplaceGrows(s, pos, v, done, word[..k]);
    }

    /** Reads the Exp-Golomb code at the cursor; when there is none, the cursor does not move. */
    method ReadExponentialGolomb() returns (val: Option<nat>)
      requires Valid()
      modifies this
      ensures Valid()
      ensures var r := Decode(Stream(), old(Pos()));
              if r.Some? then val == Some(r.value.0) && Pos() == r.value.1
              else val == None && byteOffset == old(byteOffset) && bitOffset == old(bitOffset)
    {
      var originalByte, originalBit := byteOffset, bitOffset;
      ghost var start := Pos();
      var zeros := SkipZeros();
      val := ReadBehindZeros(zeros, start);
      if val.None? {
        var _ := Seek(originalByte, originalBit);
      }
    }

    /** The value behind the zeros from `start` on: as many bits and one more. */
    method ReadBehindZeros(zeros: nat, ghost start: nat) returns (val: Option<nat>)
      requires Valid() && start + zeros == Pos() && zeros == ZeroRun(Stream(), start)
      modifies this
      ensures Valid()
      ensures var r := Decode(Stream(), start);
              if r.Some? then val == Some(r.value.0) && Pos() == r.value.1 else val == None
    {
      ghost var s := Stream();
      DecodeAt(s, start, zeros, Pos());
      if zeros + 1 > 32 {
        return None;
      }
      val := ReadBits(zeros + 1);
      if val.Some? {
        val := Some(val.value - 1);
      }
    }

    /** Peeks and consumes zero bits, one at a time. */
    method SkipZeros() returns (zeros: nat)
      requires Valid()
      modifies this
      ensures Valid() && zeros == ZeroRun(Stream(), old(Pos())) && Pos() == old(Pos()) + zeros
    {
      zeros := 0;
      var peeked := PeekBit();
      while peeked == Some(false)
        invariant Valid() && Pos() == old(Pos()) + zeros
        invariant ZeroRun(Stream(), old(Pos())) == zeros + ZeroRun(Stream(), Pos())
        invariant peeked == if Pos() < |Stream()| then Some(Stream()[Pos()]) else None
        decreases |Stream()| - Pos()
      {
        zeros := zeros + 1;
        var _ := ConsumeBits(1);
        peeked := PeekBit();
      }
    }

    /** PeekBits of one bit. */
    method PeekBit() returns (bit: Option<bool>)
      requires Valid()
      ensures bit == if Pos() < |Stream()| then Some(Stream()[Pos()]) else None
    {
      var peeked := PeekBits(1);
      if peeked.None? {
        return None;
      }
      OneBit(Stream(), Pos());
      return Some(peeked.value != 0);
    }

    method ReadSignedExponentialGolomb() returns (val: Option<int>)
      requires Valid()
      modifies this
      ensures Valid()
      ensures var r := Decode(Stream(), old(Pos()));
              if r.Some? then val == Some(Signed(r.value.0)) && Pos() == r.value.1
              else val == None && byteOffset == old(byteOffset) && bitOffset == old(bitOffset)
      ensures val.Some? ==> -0x7FFF_FFFF <= val.value <= 0x7FFF_FFFF
      ensures val.Some? ==>
                var u: int := Decode(Stream(), old(Pos())).value.0;
                2 * val.value == if u % 2 == 1 then u + 1 else -u
    {
      ghost var start := Pos();
      var u := ReadExponentialGolomb();
      if u.None? {
        return None;
      }
      CodeOfDecode(Stream(), start);
      SignedIsBijection(u.value, 0);
      if u.value % 2 == 0 {
        var half: int := u.value / 2;
        return Some(-half);
      } else {
        return Some((u.value + 1) / 2);
      }
    }

    /** Counts the bits of val by shifting them out. */
    method CountBits(val: nat) returns (count: nat)
      ensures count == BitLength(val)
    {
      count := 0;
      var v := val;
      while v != 0
        invariant count + BitLength(v) == BitLength(val)
      {
        count := count + 1;
        v := v / 2;
      }
    }

    /** Writes val's code, unless val is UINT32_MAX or its code does not fit. */
    method WriteExponentialGolomb(val: nat) returns (ok: bool)
      requires Valid() && val <= UINT32_MAX
      modifies this, bytes
      ensures Valid()
      ensures ok <==> val < UINT32_MAX && old(Pos()) + |Code(val)| <= 8 * bytes.Length
      ensures Pos() == old(Pos()) + (if ok then |Code(val)| else 0)
      ensures Stream() == if ok then Replace(old(Stream()), old(Pos()), Code(val)) else old(Stream())
    {
      if val == UINT32_MAX {
        return false;
      }
      var count := CountBits(val + 1);
      BitLengthBounds(val + 1);
      FitsIn32(val + 1);
      ok := WriteBits(val + 1, 2 * count - 1);
    }

    /** One more code behind those written since `start`. */
    method WriteBehind(value: nat, ghost s: Bits, ghost start: nat, ghost done: Bits) returns (ok: bool)
      requires Valid() && value < UINT32_MAX && Pos() == start + |done| <= |s| == 8 * bytes.Length
      requires Stream() == Replace(s, start, done)
      modifies this, bytes
      ensures Valid() && (ok <==> start + |done + Code(value)| <= |s|)
      ensures ok ==> Pos() == start + |done + Code(value)| && Stream() == Replace(s, start, done + Code(value))
    {
      ok := WriteExponentialGolomb(value);
      if ok {
        ReplaceNext(s, start, done, Code(value));
      }
    }

    /** Writes codes one after the other; `ok` when all of them fitted. */
    method WriteAll(values: seq<nat>) returns (ok: bool)
      requires Valid() && forall i :: 0 <= i < |values| ==> values[i] < UINT32_MAX
      modifies this, bytes
      ensures Valid()
      ensures ok <==> old(Pos()) + |Codes(values)| <= 8 * bytes.Length
      ensures ok ==> Pos() == old(Pos()) + |Codes(values)|
      ensures ok ==> Stream() == Replace(old(Stream()), old(Pos()), Codes(values))
    {
      ghost var s, start := Stream(), Pos();
      assert Replace(s, start, []) == s;
      for i := 0 to |values|
        invariant Valid() && Pos() == start + |Codes(values[..i])| <= |s|
        invariant Stream() == Replace(s, start, Codes(values[..i]))
      {
        CodesStep(values, i);
        ok := WriteBehind(values[i], s, start, Codes(values[..i]));
        if !ok {
          return false;
        }
      }
      assert values[..|values|] == values;
      return true;
    }

    /** Reads as many codes as `values` has, where those codes stand. */
    method ReadAll(n: nat, ghost values: seq<nat>) returns (read: seq<nat>)
      requires Valid() && |values| == n && forall i :: 0 <= i < n ==> values[i] < UINT32_MAX
      requires Pos() + |Codes(values)| <= |Stream()|
      requires Stream()[Pos()..Pos() + |Codes(values)|] == Codes(values)
      modifies this
      ensures Valid() && read == values && Pos() == old(Pos()) + |Codes(values)|
    {
      ghost var s, start := Stream(), Pos();
      read := [];
      for i := 0 to n
        invariant Valid() && read == values[..i] && Pos() == start + |Codes(values[..i])|
      {
        CodesStep(values, i);
        CodeInPlace(s, start, values, i);
        DecodeCode(s, Pos(), values[i]);
        var v := ReadExponentialGolomb();
        read := read + [v.value];
      }
      assert values[..n] == values;
    }

    /**
     * Writing any values that fit, from any position over any contents, seeking back and reading as
     * many returns the same values and ends at the same position.
     */
    method RoundTrip(values: seq<nat>) returns (ok: bool, read: seq<nat>)
      requires Valid() && forall i :: 0 <= i < |values| ==> values[i] < UINT32_MAX
      modifies this, bytes
      ensures Valid()
      ensures ok <==> old(Pos()) + |Codes(values)| <= 8 * bytes.Length
      ensures ok ==> read == values && Pos() == old(Pos()) + |Codes(values)|
    {
      var startByte, startBit := byteOffset, bitOffset;
      ok := WriteAll(values);
      read := [];
      if ok {
        var _ := Seek(startByte, startBit);
        read := ReadAll(|values|, values);
      }
    }
  }

  lemma CodesStep(values: seq<nat>, i: nat)
    requires i < |values|
    ensures values[..i + 1] == values[..i] + [values[i]]
    ensures Codes(values[..i + 1]) == Codes(values[..i]) + Code(values[i])
    ensures |Codes(values[..i + 1])| <= |Codes(values)|
  {
    assert values[..i + 1][..i] == values[..i];
    CodesGrow(values, i + 1);
  }

  lemma ReplaceNext(s: Bits, at: nat, v: Bits, w: Bits)
    requires at + |v| + |w| <= |s|
    ensures Replace(Replace(s, at, v), at + |v|, w) == Replace(s, at, v + w)
  {
  }

  lemma OneBit(s: Bits, at: nat)
    requires at < |s|
    ensures ValueOf(s[at..at + 1]) == if s[at] then 1 else 0
  {
    assert s[at..at + 1][..0] == [];
  }

  lemma {:induction false} CodesGrow(values: seq<nat>, n: nat)
    requires n <= |values|
    ensures |Codes(values[..n])| <= |Codes(values)|
    ensures Codes(values)[..|Codes(values[..n])|] == Codes(values[..n])
    decreases |values|
  {
    if n == |values| {
      assert values[..n] == values;
    } else {
      var init := values[..|values| - 1];
      CodesGrow(init, n);
      assert init[..n] == values[..n];
    }
  }

  /** The i-th code is where the codes before it end. */
  lemma {:induction false} CodeInPlace(s: Bits, start: nat, values: seq<nat>, i: nat)
    requires i < |values| && start + |Codes(values)| <= |s|
    requires s[start..start + |Codes(values)|] == Codes(values)
    ensures var at := start + |Codes(values[..i])|;
            at + |Code(values[i])| <= |s| && s[at..at + |Code(values[i])|] == Code(values[i])
  {
    CodesStep(values, i);
    CodesGrow(values, i + 1);
    var all, upto, before := Codes(values), Codes(values[..i + 1]), Codes(values[..i]);
    SliceOfSlice(s, start, start + |all|, 0, |upto|);
    assert all[0..|upto|] == upto;
    SliceParts(s, start, before, Code(values[i]));
  }
}
