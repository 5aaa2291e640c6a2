/**
 * Base64 (section 4 of RFC 4648): the encoder, and the decoder with its three parse modes, its
 * padding and termination rules, and the roll-back of bad padding.
 */
module Base64 {
  import opened Bytes

  datatype ParseMode = ParseStrict | ParseWhite | ParseAny
  datatype PadMode = PadYes | PadAny | PadNo
  datatype TermMode = TermBuffer | TermChar | TermAny

  const PAD: byte := 61
  // Entries of the decode table that are not sextets.
  const PD: nat := 0xFD
  const SP: nat := 0xFE
  const IL: nat := 0xFF

  type Sextet = n: nat | n < 64

  /** "ABC...Zabc...z0...9+/" */
  function Base64Table(c: Sextet): byte {
    if c < 26 then 65 + c else if c < 52 then 71 + c else if c < 62 then c - 4 else if c == 62 then 43 else 47
  }

  function DecodeTable(ch: byte): nat {
    if 65 <= ch <= 90 then ch - 65
    else if 97 <= ch <= 122 then ch - 71
    else if 48 <= ch <= 57 then ch + 4
    else if ch == 43 then 62
    else if ch == 47 then 63
    else if ch == 61 then PD
    else if 9 <= ch <= 13 || ch == 32 then SP
    else IL
  }

  predicate IsBase64Char(ch: byte) {
    65 <= ch <= 90 || 97 <= ch <= 122 || 48 <= ch <= 57 || ch == 43 || ch == 47
  }

  /** The two tables are inverse, and agree with IsBase64Char. */
  lemma TablesInverse(c: Sextet, ch: byte)
    ensures DecodeTable(Base64Table(c)) == c && IsBase64Char(Base64Table(c))
    ensures IsBase64Char(ch) <==> DecodeTable(ch) < 64
    ensures DecodeTable(ch) < 64 ==> Base64Table(DecodeTable(ch)) == ch
    ensures DecodeTable(ch) == PD <==> ch == PAD
  {
  }

  // ------------------------------------------------------------------------ the code

  /** The four sextets of three bytes. The bits that | joins do not overlap, so it is addition. */
  function Sextets(b0: byte, b1: byte, b2: byte): (s: seq<Sextet>)
    ensures |s| == 4
  {
    [b0 / 4, b0 % 4 * 16 + b1 / 16, b1 % 16 * 4 + b2 / 64, b2 % 64]
  }

  function Octets(q: seq<Sextet>): (b: seq<byte>)
    requires |q| == 4
    ensures |b| == 3
  {
    var q0: int, q1: int, q2: int, q3: int := q[0], q[1], q[2], q[3];
    [q0 * 4 + q1 / 16, q1 % 16 * 16 + q2 / 4, q2 % 4 * 64 + q3]
  }

  lemma SextetsOfOctets(q: seq<Sextet>)
    requires |q| == 4
    ensures var b := Octets(q);
            Sextets(b[0], b[1], b[2]) == q
  {
    var b := Octets(q);
    assert b[0] / 4 == q[0] && b[0] % 4 == q[1] / 16;
    assert b[1] / 16 == q[1] % 16 && b[1] % 16 == q[2] / 4;
    assert b[2] / 64 == q[2] % 4 && b[2] % 64 == q[3];
  }

  lemma OctetsOfSextets(b0: byte, b1: byte, b2: byte)
    ensures Octets(Sextets(b0, b1, b2)) == [b0, b1, b2]
  {
  }

  function Letters(q: seq<Sextet>): (s: seq<byte>)
    ensures |s| == |q|
  {
    seq(|q|, i requires 0 <= i < |q| => Base64Table(q[i]))
  }

  function Encode(data: seq<byte>): seq<byte> {
    if data == [] then []
    else if |data| == 1 then Letters(Sextets(data[0], 0, 0)[..2]) + [PAD, PAD]
    else if |data| == 2 then Letters(Sextets(data[0], data[1], 0)[..3]) + [PAD]
    else Letters(Sextets(data[0], data[1], data[2])) + Encode(data[3..])
  }

  // ------------------------------------------------------------------------ one quantum

  /** A quantum being read: its sextets, the pads after them, what is left, what was left at the first pad. */
  datatype Quantum = Quantum(q: seq<Sextet>, pads: nat, rest: seq<byte>, padRest: seq<byte>)

  /** One character, or None where the loop stops. */
  function ScanOne(mode: ParseMode, noPads: bool, z: Quantum): Option<Quantum>
    requires |z.q| < 4 && z.rest != []
  {
    var t, next := DecodeTable(z.rest[0]), z.(rest := z.rest[1..]);
    if t == IL || (noPads && t == PD) then
      if !mode.ParseAny? then None else Some(next)
    else if t == SP then
      if mode.ParseStrict? then None else Some(next)
    else if t == PD then
      if |z.q| < 2 || |z.q| + z.pads >= 4 then
        if !mode.ParseAny? then None else Some(next)
      else
        Some(next.(pads := z.pads + 1, padRest := if z.pads == 0 then z.rest else z.padRest))
    else
      if z.pads > 0 && !mode.ParseAny? then None
      else Some(next.(pads := 0, q := z.q + [t]))
  }

  function Scan(mode: ParseMode, noPads: bool, z: Quantum): (r: Quantum)
    requires |z.q| <= 4 && (|z.q| == 4 ==> z.pads == 0)
    ensures |z.q| <= |r.q| <= 4 && |r.q| - |z.q| <= |z.rest| - |r.rest|
    ensures |r.q| == 4 ==> r.pads == 0
    decreases |z.rest|
  {
    if |z.q| == 4 || z.rest == [] then z
    else
      match ScanOne(mode, noPads, z)
      case None => z
      case Some(next) => Scan(mode, noPads, next)
  }

  function Start(rest: seq<byte>): Quantum {
    Quantum([], 0, rest, [])
  }

  predicate Padded(z: Quantum) {
    |z.q| + z.pads == 4
  }

  /** What is left after the quantum: bad padding is given back. */
  function RestAfter(z: Quantum): seq<byte> {
    if !Padded(z) && z.pads > 0 then z.padRest else z.rest
  }

  // ------------------------------------------------------------------------ the whole string

  datatype Decoded = Decoded(ok: bool, bytes: seq<byte>, rest: seq<byte>)

  /** The bytes of a quantum, zeros standing for missing sextets. */
  function QuantumBytes(q: seq<Sextet>): seq<byte>
    requires |q| <= 4
  {
    Octets(q + Zeros(4 - |q|))[..if |q| < 2 then 0 else |q| - 1]
  }

  function Zeros(n: nat): (z: seq<Sextet>)
    ensures |z| == n
  {
    seq(n, _ => 0)
  }

  /** The bits of a short quantum that belong to no byte. */
  function Leftover(q: seq<Sextet>): nat
    requires |q| < 4
  {
    Octets(q + Zeros(4 - |q|))[if |q| < 2 then 0 else |q| - 1]
  }

  function DecodeLoop(mode: ParseMode, pad: PadMode, term: TermMode, rest: seq<byte>): Decoded
    decreases |rest|
  {
    if rest == [] then Decoded(true, [], [])
    else
      var z := Scan(mode, pad.PadNo?, Start(rest));
      if |z.q| == 4 then
        var d := DecodeLoop(mode, pad, term, RestAfter(z));
        d.(bytes := QuantumBytes(z.q) + d.bytes)
      else
        Decoded((term.TermAny? || Leftover(z.q) == 0) && (pad.PadYes? ==> Padded(z)), QuantumBytes(z.q), RestAfter(z))
  }

  function Decode(mode: ParseMode, pad: PadMode, term: TermMode, data: seq<byte>): Decoded {
    var d := DecodeLoop(mode, pad, term, data);
    d.(ok := d.ok && (term.TermBuffer? ==> d.rest == []))
  }

  // ------------------------------------------------------------------------ strict decoding

  lemma {:induction false} ScanUnfolds(mode: ParseMode, noPads: bool, z: Quantum)
    requires |z.q| < 4 && z.rest != []
    ensures var next := ScanOne(mode, noPads, z);
            Scan(mode, noPads, z) == if next.None? then z else Scan(mode, noPads, next.value)
  {
  }

  lemma ScanLetter(mode: ParseMode, noPads: bool, z: Quantum, letter: Sextet)
    requires |z.q| < 4 && z.pads == 0 && z.rest != [] && z.rest[0] == Base64Table(letter)
    ensures ScanOne(mode, noPads, z) == Some(z.(q := z.q + [letter], rest := z.rest[1..]))
  {
    TablesInverse(letter, 0);
  }

  lemma FirstLetter(letters: seq<Sextet>, tail: seq<byte>)
    requires letters != []
    ensures var text := Letters(letters) + tail;
            text[0] == Base64Table(letters[0]) && text[1..] == Letters(letters[1..]) + tail
  {
  }

  /** Letters go into the quantum in any mode. */
  lemma {:induction false} ScanLetters(
    mode: ParseMode, noPads: bool, z: Quantum, letters: seq<Sextet>, tail: seq<byte>)
    requires |z.q| + |letters| <= 4 && z.pads == 0 && z.rest == Letters(letters) + tail
    ensures Scan(mode, noPads, z) == Scan(mode, noPads, z.(q := z.q + letters, rest := tail))
    decreases |letters|
  {
    if letters == [] {
      assert z.rest == tail && z.q + letters == z.q;
    } else {
      var next := z.(q := z.q + [letters[0]], rest := z.rest[1..]);
      FirstLetter(letters, tail);
      ScanLetter(mode, noPads, z, letters[0]);
      ScanUnfolds(mode, noPads, z);
      ScanLetters(mode, noPads, next, letters[1..], tail);
      ConcatAssociative(z.q, [letters[0]], letters[1..]);
      assert [letters[0]] + letters[1..] == letters;
    }
  }

  lemma ScanPads(q: seq<Sextet>, n: nat)
    requires 2 <= |q| <= 3 && n == 4 - |q|
    ensures var r := Scan(ParseStrict, false, Quantum(q, 0, Pads(n), []));
            r.q == q && r.pads == n && r.rest == []
  {
    var z := Quantum(q, 0, Pads(n), []);
    var z1 := Quantum(q, 1, Pads(n)[1..], Pads(n));
    assert ScanOne(ParseStrict, false, z) == Some(z1);
    if n == 2 {
      var z2 := Quantum(q, 2, z1.rest[1..], Pads(n));
      assert ScanOne(ParseStrict, false, z1) == Some(z2);
      assert Scan(ParseStrict, false, z1) == Scan(ParseStrict, false, z2) == z2;
    }
  }

  function Pads(n: nat): (p: seq<byte>)
    ensures |p| == n
  {
    seq(n, _ => PAD)
  }

  /** Strict decoding of an encoding gives the data back and uses the whole string. */
  lemma {:induction false} StrictRoundTrip(data: seq<byte>)
    ensures DecodeLoop(ParseStrict, PadYes, TermBuffer, Encode(data)) == Decoded(true, data, [])
  {
    if |data| >= 3 {
      FullRoundTrip(data);
      StrictRoundTrip(data[3..]);
      assert data == data[..3] + data[3..];
    } else if |data| == 2 {
      OctetsOfSextets(data[0], data[1], 0);
      assert Pads(1) == [PAD];
      ShortRoundTrip(data, Sextets(data[0], data[1], 0), 3);
    } else if |data| == 1 {
      OctetsOfSextets(data[0], 0, 0);
      assert Pads(2) == [PAD, PAD];
      ShortRoundTrip(data, Sextets(data[0], 0, 0), 2);
    }
  }

  /** The first quantum of an encoding decodes to the first three bytes. */
  lemma {:induction false} FullRoundTrip(data: seq<byte>)
    requires |data| >= 3
    ensures var d := DecodeLoop(ParseStrict, PadYes, TermBuffer, Encode(data[3..]));
            DecodeLoop(ParseStrict, PadYes, TermBuffer, Encode(data)) == d.(bytes := data[..3] + d.bytes)
  {
    var q := Sextets(data[0], data[1], data[2]);
    ScanLetters(ParseStrict, false, Start(Encode(data)), q, Encode(data[3..]));
    assert [] + q == q && q + Zeros(0) == q;
    OctetsOfSextets(data[0], data[1], data[2]);
    assert data[..3] == [data[0], data[1], data[2]];
  }

  lemma {:induction false} ShortRoundTrip(data: seq<byte>, sextets: seq<Sextet>, n: nat)
    requires 2 <= n <= 3 && |data| == n - 1 && |sextets| == 4
    requires Octets(sextets)[..n - 1] == data && Octets(sextets)[n - 1] == 0
    requires forall i :: n <= i < 4 ==> sextets[i] == 0
    ensures DecodeLoop(ParseStrict, PadYes, TermBuffer, Letters(sextets[..n]) + Pads(4 - n)) == Decoded(true, data, [])
  {
    var q := sextets[..n];
    ShortScan(q);
    assert q + Zeros(4 - n) == sextets;
  }

  lemma {:induction false} ShortScan(q: seq<Sextet>)
    requires 2 <= |q| <= 3
    ensures var r := Scan(ParseStrict, false, Start(Letters(q) + Pads(4 - |q|)));
            r.q == q && r.pads == 4 - |q| && r.rest == []
  {
    ScanLetters(ParseStrict, false, Start(Letters(q) + Pads(4 - |q|)), q, Pads(4 - |q|));
    assert [] + q == q;
    ScanPads(q, 4 - |q|);
  }

  /** In strict mode nothing is skipped: the string read so far is the letters and the pads. */
  ghost predicate ReadsExactly(text: seq<byte>, z: Quantum) {
    && text == Letters(z.q) + Pads(z.pads) + z.rest
    && (z.pads > 0 ==> 2 <= |z.q| && |z.q| + z.pads <= 4)
  }

  lemma {:induction false} StrictScanReadsExactly(text: seq<byte>, z: Quantum)
    requires |z.q| <= 4 && (|z.q| == 4 ==> z.pads == 0) && ReadsExactly(text, z)
    ensures ReadsExactly(text, Scan(ParseStrict, false, z))
    decreases |z.rest|
  {
    if |z.q| < 4 && z.rest != [] && ScanOne(ParseStrict, false, z).Some? {
      var next := ScanOne(ParseStrict, false, z).value;
      var ch := z.rest[0];
      TablesInverse(0, ch);
      assert z.rest == [ch] + next.rest;
      if ch == PAD {
        assert Pads(z.pads) + [ch] == Pads(z.pads + 1);
      } else {
        assert Letters(z.q) + [ch] == Letters(next.q);
      }
      StrictScanReadsExactly(text, next);
    }
  }

  /** A string that decodes strictly is the encoding of what it decodes to. */
  lemma {:induction false} StrictDecodeIsEncode(text: seq<byte>)
    requires var d := DecodeLoop(ParseStrict, PadYes, TermBuffer, text);
             d.ok && d.rest == []
    ensures Encode(DecodeLoop(ParseStrict, PadYes, TermBuffer, text).bytes) == text
    decreases |text|
  {
    if text != [] {
      var z := Scan(ParseStrict, false, Start(text));
      StrictScanReadsExactly(text, Start(text));
      if |z.q| == 4 {
        assert text == Letters(z.q) + z.rest;
        assert z.q + Zeros(0) == z.q;
        SextetsOfOctets(z.q);
        var d := DecodeLoop(ParseStrict, PadYes, TermBuffer, z.rest);
        assert (QuantumBytes(z.q) + d.bytes)[3..] == d.bytes;
        StrictDecodeIsEncode(z.rest);
      } else {
        assert text == Letters(z.q) + Pads(4 - |z.q|);
        ShortEncode(z.q);
      }
    }
  }

  lemma {:induction false} ShortEncode(q: seq<Sextet>)
    requires 2 <= |q| <= 3 && Leftover(q) == 0
    ensures Encode(QuantumBytes(q)) == Letters(q) + Pads(4 - |q|)
  {
    var full := q + Zeros(4 - |q|);
    SextetsOfOctets(full);
    var b := Octets(full);
    assert full[..|q|] == q;
    if |q| == 2 {
      assert b[1] == 0 && b[2] == 0;
      assert QuantumBytes(q) == [b[0]];
      assert Pads(2) == [PAD, PAD];
    } else {
      assert b[2] == 0;
      assert QuantumBytes(q) == [b[0], b[1]];
      assert Pads(1) == [PAD];
    }
  }

  /**
   * Strict decoding succeeds exactly on encodings, and then it returns the encoded bytes and uses
   * the whole string.
   */
  lemma {:induction false} StrictIsBijection(text: seq<byte>)
    ensures Decode(ParseStrict, PadYes, TermBuffer, text).ok <==> exists data: seq<byte> :: Encode(data) == text
    ensures forall data: seq<byte> :: Encode(data) == text ==>
              Decode(ParseStrict, PadYes, TermBuffer, text) == Decoded(true, data, [])
  {
    var d := Decode(ParseStrict, PadYes, TermBuffer, text);
    if d.ok {
      StrictDecodeIsEncode(text);
      assert Encode(d.bytes) == text;
    }
    forall data: seq<byte> | Encode(data) == text
      ensures d == Decoded(true, data, [])
    {
      StrictRoundTrip(data);
    }
  }

  // ------------------------------------------------------------------------ lenient decoding

  /** The sextets of a string's alphabet characters. */
  function Alphabet(s: seq<byte>): seq<Sextet> {
    if s == [] then []
    else if DecodeTable(s[0]) < 64 then [DecodeTable(s[0])] + Alphabet(s[1..])
    else Alphabet(s[1..])
  }

  function KeepAlphabet(s: seq<byte>): seq<byte> {
    if s == [] then []
    else if IsBase64Char(s[0]) then [s[0]] + KeepAlphabet(s[1..])
    else KeepAlphabet(s[1..])
  }

  /** The bytes in a run of sextets: three for every four, and what a short end holds. */
  function BytesOf(q: seq<Sextet>): seq<byte> {
    if |q| < 4 then QuantumBytes(q) else Octets(q[..4]) + BytesOf(q[4..])
  }

  lemma {:induction false} BytesOfFront(q: seq<Sextet>, more: seq<Sextet>)
    requires |q| == 4
    ensures BytesOf(q + more) == QuantumBytes(q) + BytesOf(more)
  {
    assert (q + more)[..4] == q && (q + more)[4..] == more;
    assert q + Zeros(0) == q;
  }

  lemma {:induction false} AnyScanOneKeepsAlphabet(noPads: bool, z: Quantum)
    requires |z.q| < 4 && z.rest != []
    ensures var next := ScanOne(ParseAny, noPads, z);
            next.Some? && next.value.q + Alphabet(next.value.rest) == z.q + Alphabet(z.rest)
  {
    var next, t := ScanOne(ParseAny, noPads, z).value, DecodeTable(z.rest[0]);
    if t < 64 {
      assert z.q + ([t] + Alphabet(next.rest)) == z.q + [t] + Alphabet(next.rest);
    }
  }

  lemma {:induction false} AnyScanKeepsAlphabet(noPads: bool, z: Quantum)
    requires |z.q| <= 4 && (|z.q| == 4 ==> z.pads == 0)
    ensures var r := Scan(ParseAny, noPads, z);
            r.q + Alphabet(r.rest) == z.q + Alphabet(z.rest) && (|r.q| == 4 || r.rest == [])
    decreases |z.rest|
  {
    if |z.q| < 4 && z.rest != [] {
      AnyScanOneKeepsAlphabet(noPads, z);
      AnyScanKeepsAlphabet(noPads, ScanOne(ParseAny, noPads, z).value);
    }
  }

  /** Under ParseAny only the alphabet characters count, whatever the padding and termination rules. */
  lemma {:induction false} AnyDecodesAlphabet(pad: PadMode, term: TermMode, rest: seq<byte>)
    ensures DecodeLoop(ParseAny, pad, term, rest).bytes == BytesOf(Alphabet(rest))
    decreases |rest|
  {
    if rest != [] {
      var z := Scan(ParseAny, pad.PadNo?, Start(rest));
      AnyScanKeepsAlphabet(pad.PadNo?, Start(rest));
      assert [] + Alphabet(rest) == Alphabet(rest);
      if |z.q| == 4 {
        AnyDecodesAlphabet(pad, term, z.rest);
        BytesOfFront(z.q, Alphabet(z.rest));
      } else {
        assert z.q + [] == z.q;
      }
    }
  }

  lemma {:induction false} AlphabetOfKept(s: seq<byte>)
    ensures Alphabet(KeepAlphabet(s)) == Alphabet(s)
  {
    if s != [] {
      AlphabetOfKept(s[1..]);
      TablesInverse(0, s[0]);
      if IsBase64Char(s[0]) {
        assert KeepAlphabet(s)[1..] == KeepAlphabet(s[1..]);
      }
    }
  }

  /** Dropping everything outside the alphabet does not change the bytes decoded under ParseAny. */
  lemma AnyIgnoresTheRest(pad: PadMode, term: TermMode, s: seq<byte>)
    ensures Decode(ParseAny, pad, term, s).bytes == Decode(ParseAny, pad, term, KeepAlphabet(s)).bytes
  {
    AnyDecodesAlphabet(pad, term, s);
    AnyDecodesAlphabet(pad, term, KeepAlphabet(s));
    AlphabetOfKept(s);
  }

  function Squeeze(s: seq<byte>): seq<byte> {
    if s == [] then []
    else if DecodeTable(s[0]) == SP then Squeeze(s[1..])
    else [s[0]] + Squeeze(s[1..])
  }

  function SqueezeQuantum(z: Quantum): Quantum {
    z.(rest := Squeeze(z.rest), padRest := Squeeze(z.padRest))
  }

  lemma {:induction false} WhiteScanIsStrict(noPads: bool, z: Quantum)
    requires |z.q| <= 4 && (|z.q| == 4 ==> z.pads == 0)
    ensures SqueezeQuantum(Scan(ParseWhite, noPads, z)) == Scan(ParseStrict, noPads, SqueezeQuantum(z))
    decreases |z.rest|
  {
    if |z.q| < 4 && z.rest != [] {
      var s := SqueezeQuantum(z);
      if DecodeTable(z.rest[0]) == SP {
        WhiteScanIsStrict(noPads, z.(rest := z.rest[1..]));
      } else {
        assert s.rest[0] == z.rest[0] && s.rest[1..] == Squeeze(z.rest[1..]);
        var w := ScanOne(ParseWhite, noPads, z);
        if w.Some? {
          assert ScanOne(ParseStrict, noPads, s) == Some(SqueezeQuantum(w.value));
          WhiteScanIsStrict(noPads, w.value);
        } else {
          assert ScanOne(ParseStrict, noPads, s).None?;
        }
      }
    }
  }

  /** Under ParseWhite the bytes are those of strict parsing of the string without its white space. */
  lemma {:induction false} WhiteIsStrictWithoutSpaces(pad: PadMode, term: TermMode, s: seq<byte>)
    ensures Decode(ParseWhite, pad, term, s).bytes == Decode(ParseStrict, pad, term, Squeeze(s)).bytes
    decreases |s|
  {
    if s != [] {
      var z := Scan(ParseWhite, pad.PadNo?, Start(s));
      WhiteScanIsStrict(pad.PadNo?, Start(s));
      assert SqueezeQuantum(Start(s)) == Start(Squeeze(s));
      if |z.q| == 4 {
        WhiteIsStrictWithoutSpaces(pad, term, z.rest);
      }
    }
  }

  // ------------------------------------------------------------------------ the success flag

  /**
   * z's rest is the end of s; its padding, if any, starts with a pad; and if it is full it ended on
   * a letter.
   */
  ghost predicate EndsWith(s: seq<byte>, z: Quantum) {
    && |z.rest| <= |s| && s[|s| - |z.rest|..] == z.rest
    && (z.pads > 0 ==> z.padRest != [] && z.padRest[0] == PAD)
    && (|z.q| == 4 && z.rest == [] ==> s != [] && DecodeTable(s[|s| - 1]) != SP)
  }

  /** A white-space scan stops at the end, or before a character that is not white space. */
  lemma {:induction false} WhiteScanStops(noPads: bool, s: seq<byte>, z: Quantum)
    requires |z.q| <= 4 && (|z.q| == 4 ==> z.pads == 0) && EndsWith(s, z)
    ensures var r := Scan(ParseWhite, noPads, z);
            EndsWith(s, r) && (|r.q| == 4 || r.rest == [] || DecodeTable(r.rest[0]) != SP)
    decreases |z.rest|
  {
    if |z.q| < 4 && z.rest != [] {
      ScanUnfolds(ParseWhite, noPads, z);
      var next := ScanOne(ParseWhite, noPads, z);
      if next.Some? {
        TablesInverse(0, z.rest[0]);
        SliceOfSlice(s, |s| - |z.rest|, |s|, 1, |z.rest|);
        WhiteScanStops(noPads, s, next.value);
      }
    }
  }

  predicate AllLetters(t: seq<byte>) {
    forall i :: 0 <= i < |t| ==> IsBase64Char(t[i])
  }

  /** Whole quanta with white space behind the last one. */
  predicate SpaceAfterWholeQuanta(s: seq<byte>) {
    && s != [] && DecodeTable(s[|s| - 1]) == SP
    && |Squeeze(s)| % 4 == 0 && AllLetters(Squeeze(s))
  }

  lemma {:induction false} FourLettersScan(t: seq<byte>)
    requires |t| >= 4 && AllLetters(t)
    ensures |Scan(ParseStrict, false, Start(t)).q| == 4
  {
    forall i | 0 <= i < 4
      ensures DecodeTable(t[i]) < 64 && Base64Table(DecodeTable(t[i])) == t[i]
    {
      TablesInverse(0, t[i]);
    }
    var q: seq<Sextet> := [DecodeTable(t[0]), DecodeTable(t[1]), DecodeTable(t[2]), DecodeTable(t[3])];
    assert t == Letters(q) + t[4..];
    ScanLetters(ParseStrict, false, Start(t), q, t[4..]);
  }

  lemma {:induction false} SqueezeKeepsStart(s: seq<byte>)
    requires s != [] && DecodeTable(s[0]) != SP
    ensures Squeeze(s) != []
  {
  }

  lemma LettersBehind(a: seq<byte>, b: seq<byte>)
    requires AllLetters(a)
    ensures AllLetters(a + b) <==> AllLetters(b)
  {
    if AllLetters(a + b) {
      forall i | 0 <= i < |b|
        ensures IsBase64Char(b[i])
      {
        assert b[i] == (a + b)[|a| + i];
      }
    }
  }

  lemma {:induction false} LettersAreLetters(q: seq<Sextet>)
    ensures AllLetters(Letters(q))
  {
    forall i | 0 <= i < |q|
      ensures IsBase64Char(Letters(q)[i])
    {
      TablesInverse(q[i], 0);
    }
  }

  /** A scan that skips white space, and the strict scan of the string without it. */
  lemma {:induction false} WhiteScanFromStart(noPads: bool, s: seq<byte>, z: Quantum)
    requires z == Scan(ParseWhite, noPads, Start(s))
    ensures SqueezeQuantum(z) == Scan(ParseStrict, noPads, Start(Squeeze(s)))
    ensures EndsWith(s, z) && (|z.q| == 4 || z.rest == [] || DecodeTable(z.rest[0]) != SP)
  {
    WhiteScanIsStrict(noPads, Start(s));
    assert SqueezeQuantum(Start(s)) == Start(Squeeze(s));
    WhiteScanStops(noPads, s, Start(s));
  }

  lemma {:induction false} SqueezedQuantum(s: seq<byte>, z: Quantum)
    requires |z.q| == 4 && SqueezeQuantum(z) == Scan(ParseStrict, false, Start(Squeeze(s)))
    ensures Squeeze(s) == Letters(z.q) + Squeeze(z.rest)
  {
    var t := Squeeze(s);
    assert Letters([]) + Pads(0) + t == t;
    StrictScanReadsExactly(t, Start(t));
    assert Letters(z.q) + Pads(0) == Letters(z.q);
  }

  /** After a full quantum, white space behind whole quanta is still behind whole quanta. */
  lemma {:induction false} NextQuanta(s: seq<byte>, z: Quantum)
    requires EndsWith(s, z) && |z.q| == 4 && Squeeze(s) == Letters(z.q) + Squeeze(z.rest)
    ensures SpaceAfterWholeQuanta(s) <==> SpaceAfterWholeQuanta(z.rest)
  {
    LettersAreLetters(z.q);
    LettersBehind(Letters(z.q), Squeeze(z.rest));
    if z.rest != [] {
      assert s[|s| - 1] == s[|s| - |z.rest|..][|z.rest| - 1];
    }
  }

  /** Only an empty rest squeezes to nothing where a short quantum stopped. */
  lemma {:induction false} ShortRest(s: seq<byte>, noPads: bool, z: Quantum)
    requires z == Scan(ParseWhite, noPads, Start(s)) && |z.q| < 4
    ensures RestAfter(z) == [] <==> Squeeze(RestAfter(z)) == []
  {
    WhiteScanFromStart(noPads, s, z);
    if RestAfter(z) != [] {
      assert DecodeTable(PAD) != SP;
      SqueezeKeepsStart(RestAfter(z));
    }
  }

  /** A short quantum is not a string of whole quanta, unless there was nothing but white space. */
  lemma {:induction false} ShortQuanta(s: seq<byte>, z: Quantum)
    requires s != [] && SqueezeQuantum(z) == Scan(ParseStrict, false, Start(Squeeze(s))) && |z.q| < 4
    ensures SpaceAfterWholeQuanta(s) <==> Squeeze(s) == []
  {
    if Squeeze(s) == [] {
      SqueezedAway(s);
    } else if SpaceAfterWholeQuanta(s) {
      FourLettersScan(Squeeze(s));
    }
  }

  lemma {:induction false} OnlySpace(s: seq<byte>, noPads: bool, z: Quantum)
    requires Squeeze(s) == [] && z == Scan(ParseWhite, noPads, Start(s))
    ensures z.q == [] && z.pads == 0 && RestAfter(z) == []
  {
    WhiteScanFromStart(noPads, s, z);
    if z.rest != [] {
      SqueezeKeepsStart(z.rest);
    }
  }

  lemma {:induction false} SqueezedAway(s: seq<byte>)
    requires s != [] && Squeeze(s) == []
    ensures DecodeTable(s[|s| - 1]) == SP
  {
    if |s| > 1 {
      SqueezedAway(s[1..]);
    }
  }

  /** What the two modes make of the same letters, round by round. */
  lemma {:induction false} WhiteLoopSuccess(pad: PadMode, term: TermMode, s: seq<byte>)
    ensures var white, strict := DecodeLoop(ParseWhite, pad, term, s), DecodeLoop(ParseStrict, pad, term, Squeeze(s));
            && (white.ok <==> strict.ok && !(pad.PadYes? && SpaceAfterWholeQuanta(s)))
            && (white.rest == [] <==> strict.rest == [])
    decreases |s|
  {
    if s != [] {
      var z := Scan(ParseWhite, pad.PadNo?, Start(s));
      WhiteScanFromStart(pad.PadNo?, s, z);
      if |z.q| == 4 {
        WhiteLoopSuccess(pad, term, z.rest);
        if pad.PadYes? {
          SqueezedQuantum(s, z);
          NextQuanta(s, z);
        }
      } else {
        ShortRest(s, pad.PadNo?, z);
        if pad.PadYes? {
          ShortQuanta(s, z);
        }
        if Squeeze(s) == [] {
          OnlySpace(s, pad.PadNo?, z);
        }
      }
    }
  }

  /**
   * Skipping white space changes the success flag exactly when padding is demanded and white space
   * follows complete quanta: it is then taken for a quantum that lacks its padding.
   */
  lemma {:induction false} WhiteSuccess(pad: PadMode, term: TermMode, s: seq<byte>)
    ensures Decode(ParseWhite, pad, term, s).ok <==>
            Decode(ParseStrict, pad, term, Squeeze(s)).ok && !(pad.PadYes? && SpaceAfterWholeQuanta(s))
  {
    WhiteLoopSuccess(pad, term, s);
  }

  lemma {:induction false} SqueezeLetters(t: seq<byte>)
    requires AllLetters(t)
    ensures Squeeze(t) == t && Squeeze(t + [32]) == t
  {
    if t == [] {
      assert Squeeze([32]) == Squeeze([32][1..]);
    } else {
      SqueezeLetters(t[1..]);
      assert (t + [32])[1..] == t[1..] + [32];
      assert t == [t[0]] + t[1..];
    }
  }

  /** A space behind an unpadded encoding leaves the bytes alone and clears the flag. */
  lemma {:induction false} SpaceAfterEncodingFails(data: seq<byte>)
    requires AllLetters(Encode(data)) && |Encode(data)| % 4 == 0
    ensures var d := Decode(ParseWhite, PadYes, TermBuffer, Encode(data));
            d.ok && d.bytes == data
    ensures var d := Decode(ParseWhite, PadYes, TermBuffer, Encode(data) + [32]);
            !d.ok && d.bytes == data
  {
    var text := Encode(data);
    StrictRoundTrip(data);
    SqueezeLetters(text);
    WhiteSuccess(PadYes, TermBuffer, text);
    WhiteSuccess(PadYes, TermBuffer, text + [32]);
    WhiteIsStrictWithoutSpaces(PadYes, TermBuffer, text);
    WhiteIsStrictWithoutSpaces(PadYes, TermBuffer, text + [32]);
  }

  /** "QUJD " gives the bytes of "ABC" and fails. */
  lemma {:induction false} SpaceAfterQuantumFails(text: seq<byte>)
    requires text == [81, 85, 74, 68, 32]
    ensures var d := Decode(ParseWhite, PadYes, TermBuffer, text);
            !d.ok && d.bytes == [65, 66, 67]
  {
    var data: seq<byte> := [65, 66, 67];
    assert data[3..] == [] && Encode([]) == [];
    assert Encode(data) == Letters(Sextets(65, 66, 67)) + [] == text[..4];
    assert text[..4] + [32] == text;
    SpaceAfterEncodingFails(data);
  }

  // ------------------------------------------------------------------------ the code

  /** (b >> 2) & 0x3f, (b << 4) & 0x3f and so on, as parts of a byte. */
  lemma MaskedParts(b: byte)
    ensures b / 4 % 64 == b / 4 && (b as int) * 16 % 64 == b % 4 * 16 && b / 16 % 16 == b / 16
    ensures (b as int) * 4 % 64 == b % 16 * 4 && b / 64 % 4 == b / 64
  {
  }

  function FirstQuantum(data: seq<byte>): (s: seq<byte>)
    requires data != []
    ensures |s| == 4
  {
    var q := Sextets(data[0], if |data| > 1 then data[1] else 0, if |data| > 2 then data[2] else 0);
    [Base64Table(q[0]), Base64Table(q[1]), if |data| > 1 then Base64Table(q[2]) else PAD,
     if |data| > 2 then Base64Table(q[3]) else PAD]
  }

  lemma {:induction false} ShortUnfolds(data: seq<byte>)
    requires 1 <= |data| <= 2
    ensures Encode(data) == FirstQuantum(data)
  {
    var q := Sextets(data[0], if |data| > 1 then data[1] else 0, 0);
    if |data| == 1 {
      assert Letters(q[..2]) == [Base64Table(q[0]), Base64Table(q[1])];
    } else {
      assert Letters(q[..3]) == [Base64Table(q[0]), Base64Table(q[1]), Base64Table(q[2])];
    }
  }

  lemma {:induction false} EncodeUnfolds(data: seq<byte>)
    requires data != []
    ensures Encode(data) == FirstQuantum(data) + Encode(data[Min(3, |data|)..])
  {
    if |data| <= 2 {
      ShortUnfolds(data);
      assert data[|data|..] == [];
      assert FirstQuantum(data) + [] == FirstQuantum(data);
    } else {
      var q := Sextets(data[0], data[1], data[2]);
      assert Letters(q) == [Base64Table(q[0]), Base64Table(q[1]), Base64Table(q[2]), Base64Table(q[3])];
    }
  }

  lemma {:induction false} EncodeUnfoldsAt(data: seq<byte>, from: nat)
    requires from < |data|
    ensures Encode(data[from..]) == FirstQuantum(data[from..]) + Encode(data[Min(from + 3, |data|)..])
  {
    EncodeUnfolds(data[from..]);
    assert data[from..][Min(3, |data| - from)..] == data[Min(from + 3, |data|)..];
  }

  /** data[at], or zero past the end. */
  function ByteAt(data: seq<byte>, at: nat): byte {
    if at < |data| then data[at] else 0
  }

  lemma FirstQuantumAt(data: seq<byte>, from: nat)
    requires from < |data|
    ensures var q := Sextets(data[from], ByteAt(data, from + 1), ByteAt(data, from + 2));
            FirstQuantum(data[from..]) ==
            [Base64Table(q[0]), Base64Table(q[1]), if from + 1 < |data| then Base64Table(q[2]) else PAD,
             if from + 2 < |data| then Base64Table(q[3]) else PAD]
  {
    var d := data[from..];
    assert |d| > 1 ==> d[1] == data[from + 1];
    assert |d| > 2 ==> d[2] == data[from + 2];
  }

  /** The sextets at data[from..] by masks and shifts; bytes past the end count as zero. */
  method SextetsAt(data: seq<byte>, from: nat) returns (c0: Sextet, c1: Sextet, c2: Sextet, c3: Sextet)
    requires from < |data|
    ensures [c0, c1, c2, c3] == Sextets(data[from], ByteAt(data, from + 1), ByteAt(data, from + 2))
  {
    var b0: int, b1: int, b2: int := data[from], ByteAt(data, from + 1), ByteAt(data, from + 2);
    MaskedParts(b0);
    MaskedParts(b1);
    MaskedParts(b2);
    c0, c1 := b0 / 4 % 64, b0 * 16 % 64 + b1 / 16 % 16;
    c2, c3 := b1 * 4 % 64 + b2 / 64 % 4, b2 % 64;
  }

  /** The four characters of the quantum at data[from..], short or not. */
  method EncodeQuantum(data: seq<byte>, from: nat) returns (quantum: seq<byte>, i: nat)
    requires from < |data|
    ensures i == Min(from + 3, |data|) && quantum == FirstQuantum(data[from..])
  {
    FirstQuantumAt(data, from);
    var c0, c1, c2, c3 := SextetsAt(data, from);
    var third, fourth := PAD, PAD;
    i := from + 1;
    if i < |data| {
      third := Base64Table(c2);
      i := i + 1;
      if i < |data| {
        fourth := Base64Table(c3);
        i := i + 1;
      }
    }
    quantum := [Base64Table(c0), Base64Table(c1), third, fourth];
  }

  /** Fills the result four characters at a time. */
  method EncodeFromArray(data: seq<byte>) returns (result: array<byte>)
    ensures fresh(result) && result[..] == Encode(data)
  {
    result := new byte[(|data| + 2) / 3 * 4](_ => 0);
    var i, dest := 0, 0;
    EncodeLength(data);
    assert data[0..] == data && result[..0] == [];
    while i < |data|
      invariant 0 <= i <= |data| && 0 <= dest && dest + |Encode(data[i..])| == result.Length
      invariant Encode(data) == result[..dest] + Encode(data[i..])
      decreases |data| - i
    {
      EncodeUnfoldsAt(data, i);
      ghost var done, next := result[..dest], Encode(data[Min(i + 3, |data|)..]);
      var quantum;
      quantum, i := EncodeQuantum(data, i);
      PutQuantum(result, dest, quantum);
      ConcatAssociative(done, quantum, next);
      dest := dest + 4;
    }
    assert result[..dest] == result[..];
  }

  method PutQuantum(result: array<byte>, dest: nat, quantum: seq<byte>)
    requires dest + 4 <= result.Length && |quantum| == 4
    modifies result
    ensures result[..dest + 4] == old(result[..dest]) + quantum
  {
    result[dest], result[dest + 1], result[dest + 2], result[dest + 3] :=
      quantum[0], quantum[1], quantum[2], quantum[3];
  }

  lemma {:induction false} EncodeLength(data: seq<byte>)
    ensures |Encode(data)| == (|data| + 2) / 3 * 4
  {
    if |data| >= 3 {
      EncodeLength(data[3..]);
    }
  }

  /** qbuf and the two counters hold the quantum read so far. */
  ghost predicate Holds(qbuf: array<nat>, byteLen: nat, padLen: nat, z: Quantum)
    reads qbuf
  {
    && qbuf.Length == 4 && byteLen == |z.q| <= 4 && qbuf[..byteLen] == z.q
    && padLen == z.pads && (byteLen == 4 ==> padLen == 0)
  }

  /** One character of a quantum. Where `stop`, the loop breaks before it. */
  method ScanChar(
    mode: ParseMode, noPads: bool, ch: byte, qbuf: array<nat>, byteLen: nat, padLen: nat, ghost z: Quantum)
    returns (stop: bool, byteLen': nat, padLen': nat)
    requires Holds(qbuf, byteLen, padLen, z) && byteLen < 4 && z.rest != [] && z.rest[0] == ch
    modifies qbuf
    ensures stop == ScanOne(mode, noPads, z).None?
    ensures stop ==> Holds(qbuf, byteLen, padLen, z)
    ensures !stop ==>
              var next := ScanOne(mode, noPads, z).value;
              && Holds(qbuf, byteLen', padLen', next) && next.rest == z.rest[1..]
              && next.padRest == if padLen == 0 && padLen' == 1 then z.rest else z.padRest
  {
    PutCode(qbuf, byteLen, DecodeTable(ch));
    var t := qbuf[byteLen];
    stop, byteLen', padLen' := false, byteLen, padLen;
    if t == IL || (noPads && t == PD) {
      stop := !mode.ParseAny?;
    } else if t == SP {
      stop := mode.ParseStrict?;
    } else if t == PD {
      if byteLen < 2 {
        stop := !mode.ParseAny?;
      } else if byteLen + padLen >= 4 {
        stop := !mode.ParseAny?;
      } else {
        padLen' := padLen + 1;
      }
    } else if padLen > 0 && !mode.ParseAny? {
      stop := true;
    } else {
      padLen' := 0;
      byteLen' := byteLen + 1;
      assert qbuf[..byteLen'] == qbuf[..byteLen] + [t];
    }
  }

  /** Reads characters into qbuf until the quantum is full or a character stops it. */
  method ScanQuantum(mode: ParseMode, noPads: bool, data: seq<byte>, from: nat, qbuf: array<nat>)
    returns (byteLen: nat, padLen: nat, dpos: nat, padStart: nat)
    requires from <= |data| && qbuf.Length == 4
    modifies qbuf
    ensures dpos <= |data| && padStart <= |data|
    ensures var z := Scan(mode, noPads, Start(data[from..]));
            && Holds(qbuf, byteLen, padLen, z) && data[dpos..] == z.rest
            && (padLen > 0 ==> data[padStart..] == z.padRest)
  {
    ghost var z := Start(data[from..]);
    ghost var whole := Scan(mode, noPads, z);
    byteLen, padLen, dpos, padStart := 0, 0, from, 0;
    while byteLen < 4 && dpos < |data|
      invariant from <= dpos <= |data| && padStart <= |data|
      invariant Holds(qbuf, byteLen, padLen, z)
      invariant z.rest == data[dpos..] && (padLen > 0 ==> z.padRest == data[padStart..])
      invariant whole == Scan(mode, noPads, z)
      decreases |data| - dpos
    {
      assert data[dpos..][0] == data[dpos] && data[dpos..][1..] == data[dpos + 1..];
      ScanUnfolds(mode, noPads, z);
      var stop, byteLen', padLen' := ScanChar(mode, noPads, data[dpos], qbuf, byteLen, padLen, z);
      if stop {
        break;
      }
      if padLen == 0 && padLen' == 1 {
        padStart := dpos;
      }
      byteLen, padLen, z := byteLen', padLen', ScanOne(mode, noPads, z).value;
      dpos := dpos + 1;
    }
  }

  /** One quantum, into qbuf. Returns the number of sextets, the new position and whether it is padded. */
  method GetNextQuantum(mode: ParseMode, noPads: bool, data: seq<byte>, from: nat, qbuf: array<nat>)
    returns (byteLen: nat, dpos: nat, padded: bool)
    requires from <= |data| && qbuf.Length == 4
    modifies qbuf
    ensures var z := Scan(mode, noPads, Start(data[from..]));
            && byteLen == |z.q| && dpos <= |data| && data[dpos..] == RestAfter(z)
            && padded == Padded(z) && qbuf[..] == z.q + Zeros(4 - |z.q|)
  {
    var padLen, padStart;
    byteLen, padLen, dpos, padStart := ScanQuantum(mode, noPads, data, from, qbuf);
    ClearTail(qbuf, byteLen);
    padded := byteLen + padLen == 4;
    if !padded && padLen > 0 {
      dpos := padStart;
    }
  }

  method PutCode(qbuf: array<nat>, at: nat, code: nat)
    requires at < qbuf.Length
    modifies qbuf
    ensures qbuf[..at] == old(qbuf[..at]) && qbuf[at] == code
  {
    qbuf[at] := code;
  }

  method ClearTail(qbuf: array<nat>, from: nat)
    requires from <= qbuf.Length == 4
    modifies qbuf
    ensures qbuf[..] == old(qbuf[..from]) + Zeros(4 - from)
  {
    for i := from to 4
      invariant qbuf[..from] == old(qbuf[..from]) && forall k :: from <= k < i ==> qbuf[k] == 0
    {
      qbuf[i] := 0;
    }
  }

  /** (q0 << 2) | ((q1 >> 4) & 0x3) and so on, truncated to a byte. */
  lemma OctetsByMasks(q: seq<Sextet>)
    requires |q| == 4
    ensures var o := Octets(q);
            && o[0] == ((q[0] as int) * 4 + q[1] / 16 % 4) % 256
            && o[1] == (q[1] as int) * 16 % 256 + q[2] / 4 % 16
            && o[2] == (q[2] as int) * 64 % 256 + q[3]
  {
    var q0: int, q1: int, q2: int := q[0], q[1], q[2];
    assert q1 / 16 % 4 == q1 / 16 && q1 * 16 % 256 == q1 % 16 * 16;
    assert q2 / 4 % 16 == q2 / 4 && q2 * 64 % 256 == q2 % 4 * 64;
  }

  /** The bytes of a quantum, and the bits that are left over when it is short. */
  method QuantumParts(qbuf: array<nat>, qlen: nat, ghost q: seq<Sextet>) returns (bytes: seq<byte>, c: nat)
    requires qbuf.Length == 4 && qlen == |q| <= 4 && qbuf[..] == q + Zeros(4 - |q|)
    ensures bytes == QuantumBytes(q) && (qlen < 4 ==> c == Leftover(q))
  {
    ghost var full := q + Zeros(4 - |q|);
    ghost var o := Octets(full);
    assert qbuf[0] == full[0] && qbuf[1] == full[1] && qbuf[2] == full[2] && qbuf[3] == full[3];
    OctetsByMasks(full);
    bytes := [];
    c := (qbuf[0] * 4 + qbuf[1] / 16 % 4) % 256;
    if qlen >= 2 {
      bytes := bytes + [c];
      c := qbuf[1] * 16 % 256 + qbuf[2] / 4 % 16;
      if qlen >= 3 {
        bytes := bytes + [c];
        c := qbuf[2] * 64 % 256 + qbuf[3];
        if qlen >= 4 {
          bytes := bytes + [c];
          c := 0;
        }
      }
    }
  }

  /** One round of the decoding loop: the bytes of the next quantum and, if it is short, the verdict. */
  method DecodeQuantum(mode: ParseMode, pad: PadMode, term: TermMode, data: seq<byte>, from: nat, qbuf: array<nat>)
    returns (qlen: nat, used: nat, bytes: seq<byte>, ok: bool)
    requires from < |data| && qbuf.Length == 4
    modifies qbuf
    ensures used <= |data|
    ensures qlen < 4 ==> DecodeLoop(mode, pad, term, data[from..]) == Decoded(ok, bytes, data[used..])
    ensures qlen >= 4 ==> ok && from < used
    ensures qlen >= 4 ==>
              DecodeLoop(mode, pad, term, data[from..]) == Behind(bytes, DecodeLoop(mode, pad, term, data[used..]))
  {
    ghost var z := Scan(mode, pad.PadNo?, Start(data[from..]));
    var padded, c;
    qlen, used, padded := GetNextQuantum(mode, pad.PadNo?, data, from, qbuf);
    bytes, c := QuantumParts(qbuf, qlen, z.q);
    ok := true;
    if qlen < 4 {
      if !term.TermAny? && c != 0 {
        ok := false;
      }
      if pad.PadYes? && !padded {
        ok := false;
      }
    }
  }

  /** Decodes the whole string; `used` is where decoding stopped. */
  method DecodeFromArray(mode: ParseMode, pad: PadMode, term: TermMode, data: seq<byte>)
    returns (success: bool, result: seq<byte>, used: nat)
    ensures used <= |data|
    ensures Decode(mode, pad, term, data) == Decoded(success, result, data[used..])
  {
    result, used, success := [], 0, true;
    var qbuf, finished := new nat[4](_ => 0), false;
    ghost var whole := DecodeLoop(mode, pad, term, data);
    assert data[0..] == data;
    assert [] + whole.bytes == whole.bytes;
    while used < |data| && !finished
      invariant used <= |data|
      invariant finished ==> whole == Decoded(success, result, data[used..])
      invariant !finished ==> success && whole == Behind(result, DecodeLoop(mode, pad, term, data[used..]))
      decreases !finished, |data| - used
    {
      var qlen, bytes;
      qlen, used, bytes, success := DecodeQuantum(mode, pad, term, data, used, qbuf);
      if qlen < 4 {
        finished := true;
      } else {
        BehindTwice(result, bytes, DecodeLoop(mode, pad, term, data[used..]));
      }
      result := result + bytes;
    }
    if used == |data| {
      assert data[used..] == [] && result + [] == result;
    }
    if term.TermBuffer? && used != |data| {
      success := false;
    }
  }

  /** A decoding whose bytes follow others. */
  function Behind(bytes: seq<byte>, d: Decoded): Decoded {
    d.(bytes := bytes + d.bytes)
  }

  lemma BehindTwice(a: seq<byte>, b: seq<byte>, d: Decoded)
    ensures Behind(a, Behind(b, d)) == Behind(a + b, d)
  {
    assert a + (b + d.bytes) == a + b + d.bytes;
  }
}
