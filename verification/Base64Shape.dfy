/**
 * What the Base64 decoder makes of a string, said in terms of the string: its letters, the pads
 * behind them and the bits left over, for every parse, padding and termination mode.
 */
module Base64Shape {
  import opened Bytes
  import opened Base64

  // ------------------------------------------------------------------------ the tables and one quantum

  /** The alphabet in order: capitals, small letters, digits, plus and slash. */
  lemma AlphabetInOrder(c: Sextet)
    ensures c < 25 || 26 <= c < 51 || 52 <= c < 61 ==> Base64Table(c + 1) == Base64Table(c) + 1
    ensures Base64Table(0) == 'A' as int && Base64Table(26) == 'a' as int && Base64Table(52) == '0' as int
    ensures Base64Table(62) == '+' as int && Base64Table(63) == '/' as int
  {
  }

  /** What is not a letter: the pad, white space, and everything else. */
  lemma OtherCharacters(ch: byte)
    ensures DecodeTable(ch) == PD <==> ch == '=' as int
    ensures DecodeTable(ch) == SP <==> ch == ' ' as int || ch in {9, 10, 11, 12, 13}
    ensures DecodeTable(ch) == IL <==> !IsBase64Char(ch) && DecodeTable(ch) != PD && DecodeTable(ch) != SP
  {
  }

  function FromOctets(b0: int, b1: int, b2: int): int {
    0x1_0000 * b0 + 0x100 * b1 + b2
  }

  function FromSextets(q0: int, q1: int, q2: int, q3: int): int {
    0x4_0000 * q0 + 0x1000 * q1 + 0x40 * q2 + q3
  }

  /** Three bytes and four sextets are the same 24 bits, the highest first. */
  lemma QuantumIs24Bits(b0: byte, b1: byte, b2: byte, q: seq<Sextet>)
    requires |q| == 4
    ensures var s := Sextets(b0, b1, b2);
            FromSextets(s[0], s[1], s[2], s[3]) == FromOctets(b0, b1, b2)
    ensures var b := Octets(q);
            FromOctets(b[0], b[1], b[2]) == FromSextets(q[0], q[1], q[2], q[3])
  {
    var x0: int, x1: int, x2: int := b0, b1, b2;
    assert x0 == 4 * (x0 / 4) + x0 % 4 && x1 == 16 * (x1 / 16) + x1 % 16 && x2 == 64 * (x2 / 64) + x2 % 64;
    var q1: int, q2: int := q[1], q[2];
    assert q1 == 16 * (q1 / 16) + q1 % 16 && q2 == 4 * (q2 / 4) + q2 % 4;
  }

  /** The bits of a short last quantum that belong to no byte are zero. */
  predicate SpareBitsZero(q: seq<Sextet>) {
    var n := |q|;
    match n % 4
    case 0 => true
    case 1 => q[n - 1] == 0
    case 2 => q[n - 1] % 16 == 0
    case _ => q[n - 1] % 4 == 0
  }

  lemma {:induction false} SpareIsLeftover(q: seq<Sextet>)
    requires |q| < 4
    ensures Leftover(q) == 0 <==> SpareBitsZero(q)
  {
    var full := q + Zeros(4 - |q|);
    assert forall i :: 0 <= i < |q| ==> full[i] == q[i];
    assert forall i :: |q| <= i < 4 ==> full[i] == 0;
    if |q| == 1 {
      assert Octets(full)[0] == full[0] as int * 4;
    } else if |q| == 2 {
      assert Octets(full)[1] == full[1] as int % 16 * 16;
    } else if |q| == 3 {
      assert Octets(full)[2] == full[2] as int % 4 * 64;
    }
  }

  lemma SpareOfRest(q: seq<Sextet>)
    requires |q| >= 4
    ensures SpareBitsZero(q) <==> SpareBitsZero(q[4..])
  {
    assert |q[4..]| % 4 == |q| % 4;
  }

  // ------------------------------------------------------------------------ the verdict

  /** `pads` pads complete a last quantum of m letters. */
  predicate Complete(pad: PadMode, m: nat, pads: nat) {
    !pad.PadNo? && 2 <= m && 4 <= m + pads
  }

  /** The verdict on letters q with `pads` usable pads behind them, more text or none, and what is left. */
  predicate Accepted(pad: PadMode, term: TermMode, q: seq<Sextet>, pads: nat, end: bool, rest: seq<byte>) {
    && (|| (|q| % 4 == 0 && end)
        || ((term.TermAny? || SpareBitsZero(q)) && (pad.PadYes? ==> Complete(pad, |q| % 4, pads))))
    && (term.TermBuffer? ==> rest == [])
  }

  /** A full quantum: decoding goes on behind it. */
  lemma {:induction false} DecodeFull(mode: ParseMode, pad: PadMode, term: TermMode, text: seq<byte>, z: Quantum)
    requires text != [] && z == Scan(mode, pad.PadNo?, Start(text)) && |z.q| == 4
    ensures var d := Decode(mode, pad, term, z.rest);
            Decode(mode, pad, term, text) == d.(bytes := QuantumBytes(z.q) + d.bytes)
  {
  }

  /** A short quantum: decoding ends with it. */
  lemma {:induction false} DecodeShort(mode: ParseMode, pad: PadMode, term: TermMode, text: seq<byte>, z: Quantum)
    requires text != [] && z == Scan(mode, pad.PadNo?, Start(text)) && |z.q| < 4
    ensures Decode(mode, pad, term, text) ==
            Decoded((term.TermAny? || SpareBitsZero(z.q)) && (pad.PadYes? ==> Padded(z))
                    && (term.TermBuffer? ==> RestAfter(z) == []), BytesOf(z.q), RestAfter(z))
  {
    SpareIsLeftover(z.q);
  }

  lemma AcceptedOfRest(pad: PadMode, term: TermMode, q: seq<Sextet>, pads: nat, end: bool, rest: seq<byte>)
    requires |q| >= 4
    ensures Accepted(pad, term, q, pads, end, rest) == Accepted(pad, term, q[4..], pads, end, rest)
  {
    SpareOfRest(q);
  }

  // ------------------------------------------------------------------------ strict

  predicate StartsPlain(t: seq<byte>) {
    t == [] || !IsBase64Char(t[0])
  }

  function LeadPads(t: seq<byte>): (n: nat)
    ensures n <= |t|
  {
    if t != [] && t[0] == PAD then 1 + LeadPads(t[1..]) else 0
  }

  /** Behind the letters: what completes the last quantum is used, any other padding is given back. */
  function StrictRest(pad: PadMode, m: nat, tail: seq<byte>): seq<byte>
    requires m < 4
  {
    if Complete(pad, m, LeadPads(tail)) then tail[4 - m..] else tail
  }

  /** Every string is letters and a tail that does not start with one. */
  lemma {:induction false} EveryString(text: seq<byte>) returns (q: seq<Sextet>, tail: seq<byte>)
    ensures text == Letters(q) + tail && StartsPlain(tail)
  {
    if StartsPlain(text) {
      q, tail := [], text;
      assert Letters([]) + text == text;
    } else {
      var c := DecodeTable(text[0]);
      TablesInverse(0, text[0]);
      q, tail := EveryString(text[1..]);
      assert Letters([c] + q) == [text[0]] + Letters(q);
      assert text == [text[0]] + text[1..];
      q := [c] + q;
    }
  }

  /** Pads are read until the quantum is complete; the first character that does not fit stops it. */
  lemma {:induction false} StrictPadScan(q: seq<Sextet>, i: nat, rest: seq<byte>, first: seq<byte>)
    requires 2 <= |q| < 4 && |q| + i <= 4 && (i > 0 || StartsPlain(rest))
    ensures var k := Min(LeadPads(rest), 4 - |q| - i);
            Scan(ParseStrict, false, Quantum(q, i, rest, first)) ==
            Quantum(q, i + k, rest[k..], if i == 0 && k > 0 then rest else first)
    decreases |rest|
  {
    var z := Quantum(q, i, rest, first);
    if rest != [] {
      ScanUnfolds(ParseStrict, false, z);
      StrictPadOne(q, i, rest, first);
      if rest[0] == PAD && |q| + i < 4 {
        StrictPadScan(q, i + 1, rest[1..], if i == 0 then rest else first);
        var k := Min(LeadPads(rest[1..]), 4 - |q| - (i + 1));
        assert rest[1..][k..] == rest[1 + k..];
      }
    }
  }

  lemma StrictPadOne(q: seq<Sextet>, i: nat, rest: seq<byte>, first: seq<byte>)
    requires 2 <= |q| < 4 && |q| + i <= 4 && rest != [] && (i > 0 || StartsPlain(rest))
    ensures ScanOne(ParseStrict, false, Quantum(q, i, rest, first)) ==
            if rest[0] == PAD && |q| + i < 4 then Some(Quantum(q, i + 1, rest[1..], if i == 0 then rest else first))
            else None
  {
    TablesInverse(0, rest[0]);
  }

  lemma {:induction false} StrictTailScan(noPads: bool, q: seq<Sextet>, tail: seq<byte>)
    requires |q| < 4 && StartsPlain(tail)
    ensures var k := if noPads || |q| < 2 then 0 else Min(LeadPads(tail), 4 - |q|);
            Scan(ParseStrict, noPads, Quantum(q, 0, tail, [])) ==
            Quantum(q, k, tail[k..], if k > 0 then tail else [])
  {
    var z := Quantum(q, 0, tail, []);
    if !noPads && |q| >= 2 {
      StrictPadScan(q, 0, tail, []);
    } else if tail != [] {
      TablesInverse(0, tail[0]);
      ScanUnfolds(ParseStrict, noPads, z);
      assert ScanOne(ParseStrict, noPads, z).None?;
    }
  }

  function StrictDecoded(pad: PadMode, term: TermMode, q: seq<Sextet>, tail: seq<byte>): Decoded {
    var rest := StrictRest(pad, |q| % 4, tail);
    Decoded(Accepted(pad, term, q, LeadPads(tail), tail == [], rest), BytesOf(q), rest)
  }

  /** The quantum that reading stops with, and what it comes to. */
  lemma {:induction false} StrictEndQuantum(pad: PadMode, q: seq<Sextet>, tail: seq<byte>) returns (z: Quantum)
    requires |q| < 4 && StartsPlain(tail)
    ensures z == Scan(ParseStrict, pad.PadNo?, Start(Letters(q) + tail)) && z.q == q
    ensures Padded(z) <==> Complete(pad, |q|, LeadPads(tail))
    ensures RestAfter(z) == StrictRest(pad, |q|, tail)
  {
    z := Scan(ParseStrict, pad.PadNo?, Start(Letters(q) + tail));
    ScanLetters(ParseStrict, pad.PadNo?, Start(Letters(q) + tail), q, tail);
    assert [] + q == q;
    StrictTailScan(pad.PadNo?, q, tail);
  }

  /** A last quantum of fewer than four letters. */
  lemma {:induction false} StrictEnd(pad: PadMode, term: TermMode, q: seq<Sextet>, tail: seq<byte>)
    requires |q| < 4 && StartsPlain(tail)
    ensures Decode(ParseStrict, pad, term, Letters(q) + tail) == StrictDecoded(pad, term, q, tail)
  {
    var text := Letters(q) + tail;
    if text == [] {
      assert q == [] && tail == [];
    } else {
      var z := StrictEndQuantum(pad, q, tail);
      DecodeShort(ParseStrict, pad, term, text, z);
      StrictVerdict(pad, term, q, tail, Padded(z), RestAfter(z));
    }
  }

  lemma {:induction false} StrictVerdict(
    pad: PadMode, term: TermMode, q: seq<Sextet>, tail: seq<byte>, padded: bool, rest: seq<byte>)
    requires |q| < 4 && Letters(q) + tail != [] && rest == StrictRest(pad, |q|, tail)
    requires padded <==> Complete(pad, |q|, LeadPads(tail))
    ensures StrictDecoded(pad, term, q, tail) ==
            Decoded((term.TermAny? || SpareBitsZero(q)) && (pad.PadYes? ==> padded)
                    && (term.TermBuffer? ==> rest == []), BytesOf(q), rest)
  {
    assert |q| % 4 == |q|;
    assert q == [] ==> Letters(q) + tail == tail;
  }

  /** The first full quantum. */
  lemma {:induction false} StrictFull(pad: PadMode, term: TermMode, q: seq<Sextet>, tail: seq<byte>)
    requires |q| >= 4
    ensures var d := Decode(ParseStrict, pad, term, Letters(q[4..]) + tail);
            Decode(ParseStrict, pad, term, Letters(q) + tail) == d.(bytes := QuantumBytes(q[..4]) + d.bytes)
  {
    var text, later := Letters(q) + tail, Letters(q[4..]) + tail;
    assert text == Letters(q[..4]) + later;
    ScanLetters(ParseStrict, pad.PadNo?, Start(text), q[..4], later);
    assert [] + q[..4] == q[..4];
    DecodeFull(ParseStrict, pad, term, text, Quantum(q[..4], 0, later, []));
  }

  /**
   * Strict decoding, for every string and every padding and termination rule: the bytes are those of
   * the letters in front; bad padding is given back and complete padding is used; and the verdict
   * depends on the left-over bits, the padding and the rest.
   */
  lemma {:induction false} StrictShape(pad: PadMode, term: TermMode, q: seq<Sextet>, tail: seq<byte>)
    requires StartsPlain(tail)
    ensures Decode(ParseStrict, pad, term, Letters(q) + tail) == StrictDecoded(pad, term, q, tail)
    decreases |q|
  {
    if |q| < 4 {
      StrictEnd(pad, term, q, tail);
    } else {
      StrictFull(pad, term, q, tail);
      StrictShape(pad, term, q[4..], tail);
      StrictDecodedFull(pad, term, q, tail);
    }
  }

  lemma {:induction false} StrictDecodedFull(pad: PadMode, term: TermMode, q: seq<Sextet>, tail: seq<byte>)
    requires |q| >= 4
    ensures var d := StrictDecoded(pad, term, q[4..], tail);
            StrictDecoded(pad, term, q, tail) == d.(bytes := QuantumBytes(q[..4]) + d.bytes)
  {
    assert |q[4..]| % 4 == |q| % 4;
    AcceptedOfRest(pad, term, q, LeadPads(tail), tail == [], StrictRest(pad, |q| % 4, tail));
    BytesOfFront(q[..4], q[4..]);
    assert q[..4] + q[4..] == q;
  }

  /** "QQ=" with optional padding: the one pad is given back, so the buffer is not used up. */
  lemma {:induction false} BadPaddingIsGivenBack(text: seq<byte>)
    requires text == [81, 81, 61]
    ensures Decode(ParseStrict, PadAny, TermBuffer, text) == Decoded(false, [65], [61])
    ensures Decode(ParseStrict, PadAny, TermChar, text) == Decoded(true, [65], [61])
  {
    var q: seq<Sextet> := [16, 16];
    assert Letters(q) == [81, 81];
    assert text == Letters(q) + [PAD];
    assert LeadPads([PAD]) == 1 + LeadPads([PAD][1..]);
    StrictShape(PadAny, TermBuffer, q, [PAD]);
    StrictShape(PadAny, TermChar, q, [PAD]);
    assert q + Zeros(2) == [16, 16, 0, 0];
  }

  // ------------------------------------------------------------------------ white space

  /** Where a white-space decoding stops: a suffix that does not start with white space. */
  predicate StopsAt(s: seq<byte>, rest: seq<byte>) {
    && |rest| <= |s| && s[|s| - |rest|..] == rest
    && (rest != [] ==> DecodeTable(rest[0]) != SP)
  }

  lemma SuffixOfSuffix(s: seq<byte>, t: seq<byte>, u: seq<byte>)
    requires |t| <= |s| && s[|s| - |t|..] == t && StopsAt(t, u)
    ensures StopsAt(s, u)
  {
    SliceOfSlice(s, |s| - |t|, |s|, |t| - |u|, |t|);
  }

  /** The first pad of a quantum is where its padding would be given back to. */
  ghost predicate PadsFrom(s: seq<byte>, z: Quantum) {
    z.pads > 0 ==> StopsAt(s, z.padRest)
  }

  lemma {:induction false} WhitePadsFrom(noPads: bool, s: seq<byte>, z: Quantum)
    requires |z.q| <= 4 && (|z.q| == 4 ==> z.pads == 0) && EndsWith(s, z) && PadsFrom(s, z)
    ensures PadsFrom(s, Scan(ParseWhite, noPads, z))
    decreases |z.rest|
  {
    if |z.q| < 4 && z.rest != [] {
      ScanUnfolds(ParseWhite, noPads, z);
      var next := ScanOne(ParseWhite, noPads, z);
      if next.Some? {
        TablesInverse(0, z.rest[0]);
        SliceOfSlice(s, |s| - |z.rest|, |s|, 1, |z.rest|);
        WhitePadsFrom(noPads, s, next.value);
      }
    }
  }

  /** Under ParseWhite the rest is that of strict parsing, white space put back. */
  lemma {:induction false} WhiteRest(pad: PadMode, term: TermMode, s: seq<byte>)
    ensures StopsAt(s, RestOf(ParseWhite, pad, term, s))
    ensures Squeeze(RestOf(ParseWhite, pad, term, s)) == RestOf(ParseStrict, pad, term, Squeeze(s))
    decreases |s|
  {
    if s != [] {
      var z := Scan(ParseWhite, pad.PadNo?, Start(s));
      if |z.q| == 4 {
        WhiteShrinks(pad, s, z);
        WhiteRest(pad, term, z.rest);
        WhiteRestOn(pad, term, s, z);
        SuffixOfSuffix(s, z.rest, RestOf(ParseWhite, pad, term, z.rest));
      } else {
        WhiteRestEnd(pad, term, s, z);
      }
    }
  }

  function RestOf(mode: ParseMode, pad: PadMode, term: TermMode, text: seq<byte>): seq<byte> {
    Decode(mode, pad, term, text).rest
  }

  lemma {:induction false} RestOfFull(mode: ParseMode, pad: PadMode, term: TermMode, text: seq<byte>, z: Quantum)
    requires text != [] && z == Scan(mode, pad.PadNo?, Start(text)) && |z.q| == 4
    ensures RestOf(mode, pad, term, text) == RestOf(mode, pad, term, z.rest)
  {
    DecodeFull(mode, pad, term, text, z);
  }

  lemma {:induction false} WhiteShrinks(pad: PadMode, s: seq<byte>, z: Quantum)
    requires z == Scan(ParseWhite, pad.PadNo?, Start(s)) && |z.q| == 4
    ensures |z.rest| < |s| && s[|s| - |z.rest|..] == z.rest
    ensures SqueezeQuantum(z) == Scan(ParseStrict, pad.PadNo?, Start(Squeeze(s))) && Squeeze(s) != []
  {
    WhiteScanFromStart(pad.PadNo?, s, z);
    SqueezedNotEmpty(pad, s, z);
  }

  lemma {:induction false} WhiteRestOn(pad: PadMode, term: TermMode, s: seq<byte>, z: Quantum)
    requires s != [] && z == Scan(ParseWhite, pad.PadNo?, Start(s)) && |z.q| == 4
    ensures RestOf(ParseWhite, pad, term, s) == RestOf(ParseWhite, pad, term, z.rest)
    ensures RestOf(ParseStrict, pad, term, Squeeze(s)) == RestOf(ParseStrict, pad, term, Squeeze(z.rest))
  {
    WhiteShrinks(pad, s, z);
    RestOfFull(ParseWhite, pad, term, s, z);
    RestOfFull(ParseStrict, pad, term, Squeeze(s), SqueezeQuantum(z));
  }

  lemma {:induction false} SqueezedNotEmpty(pad: PadMode, s: seq<byte>, z: Quantum)
    requires SqueezeQuantum(z) == Scan(ParseStrict, pad.PadNo?, Start(Squeeze(s))) && z.q != []
    ensures Squeeze(s) != []
  {
  }

  lemma {:induction false} WhiteRestEnd(pad: PadMode, term: TermMode, s: seq<byte>, z: Quantum)
    requires s != [] && z == Scan(ParseWhite, pad.PadNo?, Start(s)) && |z.q| < 4
    ensures StopsAt(s, RestOf(ParseWhite, pad, term, s))
    ensures Squeeze(RestOf(ParseWhite, pad, term, s)) == RestOf(ParseStrict, pad, term, Squeeze(s))
  {
    WhiteScanFromStart(pad.PadNo?, s, z);
    WhitePadsFrom(pad.PadNo?, s, Start(s));
    DecodeShort(ParseWhite, pad, term, s, z);
    if Squeeze(s) == [] {
      OnlySpace(s, pad.PadNo?, z);
    } else {
      DecodeShort(ParseStrict, pad, term, Squeeze(s), SqueezeQuantum(z));
    }
  }

  // ------------------------------------------------------------------------ anything goes

  predicate NoLetters(t: seq<byte>) {
    forall i :: 0 <= i < |t| ==> !IsBase64Char(t[i])
  }

  predicate EndsInLetter(x: seq<byte>) {
    x != [] ==> IsBase64Char(x[|x| - 1])
  }

  function CountPads(t: seq<byte>): nat {
    if t == [] then 0 else (if t[0] == PAD then 1 else 0) + CountPads(t[1..])
  }

  function FromFirstPad(t: seq<byte>): seq<byte> {
    if t == [] || t[0] == PAD then t else FromFirstPad(t[1..])
  }

  /** Everything is used, but too few pads behind the last letter are given back, from the first on. */
  function AnyRest(pad: PadMode, m: nat, t: seq<byte>): seq<byte> {
    if !pad.PadNo? && 2 <= m && 0 < CountPads(t) && m + CountPads(t) < 4 then FromFirstPad(t) else []
  }

  /** Every string is something that ends in its last letter, and the rest. */
  lemma {:induction false} EveryStringAny(text: seq<byte>) returns (x: seq<byte>, t: seq<byte>)
    ensures text == x + t && EndsInLetter(x) && NoLetters(t)
  {
    if text == [] {
      x, t := [], [];
    } else {
      var n := |text| - 1;
      assert text == text[..n] + [text[n]];
      if IsBase64Char(text[n]) {
        x, t := text, [];
        assert text == text + [];
      } else {
        x, t := EveryStringAny(text[..n]);
        ConcatAssociative(x, t, [text[n]]);
        t := t + [text[n]];
      }
    }
  }

  /** The pads a quantum of m letters takes from a tail without letters. */
  function Taken(noPads: bool, m: nat, pads: nat, t: seq<byte>): nat
    requires m < 4 && m + pads <= 4
  {
    if noPads || m < 2 then pads else Min(pads + CountPads(t), 4 - m)
  }

  lemma {:induction false} AnyTail(noPads: bool, z: Quantum)
    requires |z.q| < 4 && |z.q| + z.pads <= 4 && NoLetters(z.rest)
    ensures var k := Taken(noPads, |z.q|, z.pads, z.rest);
            Scan(ParseAny, noPads, z) ==
            Quantum(z.q, k, [], if z.pads == 0 && k > 0 then FromFirstPad(z.rest) else z.padRest)
    decreases |z.rest|
  {
    if z.rest != [] {
      TablesInverse(0, z.rest[0]);
      ScanUnfolds(ParseAny, noPads, z);
      var next := ScanOne(ParseAny, noPads, z).value;
      assert next.rest == z.rest[1..] && next.q == z.q;
      AnyTail(noPads, next);
    }
  }

  /** Scanning x, which ends in its last letter, and t: it stops behind a fourth letter, or uses all. */
  lemma {:induction false} AnyTake(noPads: bool, z: Quantum, x: seq<byte>, t: seq<byte>) returns (later: seq<byte>)
    requires |z.q| < 4 && |z.q| + z.pads <= 4 && z.rest == x + t && EndsInLetter(x) && NoLetters(t)
    requires x == [] ==> z.pads == 0
    ensures var r := Scan(ParseAny, noPads, z);
            && r.q + Alphabet(later) == z.q + Alphabet(x) && EndsInLetter(later)
            && (|r.q| == 4 ==> r.rest == later + t && r.pads == 0 && |later| < |x|)
            && (|r.q| < 4 ==> later == [] && r == TailQuantum(noPads, r.q, t, r.padRest))
    decreases |x|
  {
    if x == [] {
      later := [];
      assert x + t == t;
      AnyTail(noPads, z);
      assert z.q + Alphabet([]) == z.q;
    } else {
      TablesInverse(0, x[0]);
      ScanUnfolds(ParseAny, noPads, z);
      var next := ScanOne(ParseAny, noPads, z).value;
      assert z.rest[0] == x[0] && (x + t)[1..] == x[1..] + t;
      AnyScanOneAlphabet(z.q, x, next.q);
      if |next.q| == 4 {
        later := x[1..];
        assert Scan(ParseAny, noPads, next) == next;
      } else {
        later := AnyTake(noPads, next, x[1..], t);
      }
    }
  }

  /** The quantum that is left when everything is used. */
  function TailQuantum(noPads: bool, q: seq<Sextet>, t: seq<byte>, otherwise: seq<byte>): Quantum
    requires |q| < 4
  {
    var k := Taken(noPads, |q|, 0, t);
    Quantum(q, k, [], if k > 0 then FromFirstPad(t) else otherwise)
  }

  lemma AnyScanOneAlphabet(q: seq<Sextet>, x: seq<byte>, q': seq<Sextet>)
    requires x != [] && q' == if DecodeTable(x[0]) < 64 then q + [DecodeTable(x[0])] else q
    ensures q' + Alphabet(x[1..]) == q + Alphabet(x)
  {
    if DecodeTable(x[0]) < 64 {
      ConcatAssociative(q, [DecodeTable(x[0])], Alphabet(x[1..]));
    }
  }

  function AnyDecoded(pad: PadMode, term: TermMode, q: seq<Sextet>, t: seq<byte>): Decoded {
    var rest := AnyRest(pad, |q| % 4, t);
    Decoded(Accepted(pad, term, q, CountPads(t), t == [], rest), BytesOf(q), rest)
  }

  lemma {:induction false} FirstPadThere(t: seq<byte>)
    ensures CountPads(t) > 0 <==> FromFirstPad(t) != []
  {
    if t != [] {
      FirstPadThere(t[1..]);
    }
  }

  /** What a tail comes to behind a short quantum. */
  lemma {:induction false} AnyEnd(pad: PadMode, term: TermMode, text: seq<byte>, z: Quantum, t: seq<byte>)
    requires text != [] && z == Scan(ParseAny, pad.PadNo?, Start(text)) && |z.q| < 4
    requires z == TailQuantum(pad.PadNo?, z.q, t, z.padRest) && (z.q == [] ==> t != [])
    ensures Decode(ParseAny, pad, term, text) == AnyDecoded(pad, term, z.q, t)
  {
    DecodeShort(ParseAny, pad, term, text, z);
    FirstPadThere(t);
  }

  /**
   * Decoding under ParseAny, for every string and every rule: the bytes are those of all letters,
   * pads count only behind the last letter, and the verdict depends on the left-over bits, on those
   * pads and on whether they are given back.
   */
  lemma {:induction false} AnyShape(pad: PadMode, term: TermMode, x: seq<byte>, t: seq<byte>)
    requires EndsInLetter(x) && NoLetters(t)
    ensures Decode(ParseAny, pad, term, x + t) == AnyDecoded(pad, term, Alphabet(x), t)
    decreases |x|
  {
    var q, text := Alphabet(x), x + t;
    if text == [] {
      assert x == [] && t == [];
    } else {
      var z := Scan(ParseAny, pad.PadNo?, Start(text));
      var later := AnyTake(pad.PadNo?, Start(text), x, t);
      assert [] + q == q;
      if |z.q| == 4 {
        DecodeFull(ParseAny, pad, term, text, z);
        AnyShape(pad, term, later, t);
        assert q[..4] == z.q && q[4..] == Alphabet(later);
        AnyDecodedFull(pad, term, q, t);
      } else {
        assert z.q + Alphabet([]) == z.q;
        LetterGiven(x);
        AnyEnd(pad, term, text, z, t);
      }
    }
  }

  lemma {:induction false} AnyDecodedFull(pad: PadMode, term: TermMode, q: seq<Sextet>, t: seq<byte>)
    requires |q| >= 4
    ensures var d := AnyDecoded(pad, term, q[4..], t);
            AnyDecoded(pad, term, q, t) == d.(bytes := QuantumBytes(q[..4]) + d.bytes)
  {
    assert |q[4..]| % 4 == |q| % 4;
    AcceptedOfRest(pad, term, q, CountPads(t), t == [], AnyRest(pad, |q| % 4, t));
    BytesOfFront(q[..4], q[4..]);
    assert q[..4] + q[4..] == q;
  }

  lemma LetterGiven(x: seq<byte>)
    requires EndsInLetter(x)
    ensures Alphabet(x) == [] ==> x == []
    decreases |x|
  {
    if x != [] {
      TablesInverse(0, x[0]);
      if |x| > 1 {
        LetterGiven(x[1..]);
      }
    }
  }
}
