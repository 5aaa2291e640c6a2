/**
 * The meaning of an HTTP byte stream, independent of how it is cut into reads.
 *
 * `Parse` is what one `HttpParser::Process` call on a whole stream does when the document accepts
 * every byte. `Leads` says that a parser state stands for a consumed prefix: whatever bytes follow,
 * continuing from that state is the same as having parsed everything in one go.
 */
module HttpGrammar {
  import opened Bytes

  const SIZE_UNKNOWN: nat := 0xFFFF_FFFF_FFFF_FFFF

  /** A size_t on a 64-bit host. */
  type Size = n: nat | n <= SIZE_UNKNOWN

  datatype State = Leader | Headers | ChunkSize | ChunkTerm | Trailers | Data | Complete

  datatype HttpError =
    | HeNone | HeProtocol | HeDisconnected | HeOverflow | HeSocketError | HeAuth
    | HeCertificateExpired | HeStream | HeOther(code: int)

  const EACCES: int := 13
  const SEC_E_CERT_EXPIRED: int := -2146893016

  /** What a closed network stream means; `validEnd`: the message may end here. */
  function CloseError(validEnd: bool, code: int): (e: HttpError)
    ensures e == HeNone <==> code == 0 && validEnd
    ensures e == HeDisconnected <==> code == 0 && !validEnd
    ensures e == HeAuth <==> code == 13
    ensures e == HeCertificateExpired <==> code == 0x8009_0328 - 0x1_0000_0000
    ensures e in {HeNone, HeDisconnected, HeAuth, HeCertificateExpired, HeSocketError}
  {
    if code == 0 then (if validEnd then HeNone else HeDisconnected)
    else if code == EACCES then HeAuth
    else if code == SEC_E_CERT_EXPIRED then HeCertificateExpired
    else HeSocketError
  }

  datatype Event =
    | LeaderLine(line: seq<byte>)
    | HeaderLine(name: seq<byte>, value: seq<byte>)
    | HeadersDone(chunked: bool, size: Size)

  /** The parser's fields, with the events it has raised and the body bytes it has handed over. */
  datatype Parser = Parser(state: State, chunked: bool, dataSize: Size, events: seq<Event>, body: seq<byte>)

  /** What the parser asks of code it does not contain, as functions of what it passes to that code. */
  datatype Env = Env(
    parseLeader: seq<byte> -> HttpError,
    scanUnsigned: seq<byte> -> Option<Size>,
    oddChunkSize: seq<byte> -> (Size, bool),
    headersComplete: (seq<Event>, bool, Size) -> (HttpError, Size, bool))

  /** The one buffer of HttpBase, used in both directions. */
  const BUFFER_SIZE: nat := 32768

  const LF: byte := 10
  const COLON: byte := 58
  const CONTENT_LENGTH: seq<byte> := Ascii("content-length")
  const TRANSFER_ENCODING: seq<byte> := Ascii("transfer-encoding")
  const CHUNKED: seq<byte> := Ascii("chunked")
  const IDENTITY: seq<byte> := Ascii("identity")

  function Ascii(s: string): (b: seq<byte>)
    requires forall i :: 0 <= i < |s| ==> s[i] < 128 as char
    ensures |b| == |s| && forall i :: 0 <= i < |b| ==> b[i] == s[i] as int
  {
    seq(|s|, i requires 0 <= i < |s| => s[i] as int)
  }

  const START := Parser(Leader, false, SIZE_UNKNOWN, [], [])

  predicate ReadsLines(s: State) {
    !s.Data? && !s.Complete?
  }

  predicate IsSpace(b: byte) {
    9 <= b <= 13 || b == 32
  }

  function TrimEnd(s: seq<byte>): seq<byte> {
    if s != [] && IsSpace(s[|s| - 1]) then TrimEnd(s[..|s| - 1]) else s
  }

  function TrimStart(s: seq<byte>): seq<byte> {
    if s != [] && IsSpace(s[0]) then TrimStart(s[1..]) else s
  }

  /** The position of the first `b` in `s`, or |s| when there is none. */
  function Find(s: seq<byte>, b: byte): (k: nat)
    ensures k <= |s| && b !in s[..k] && (k < |s| ==> s[k] == b)
  {
    if s == [] || s[0] == b then 0
    else
      var k := Find(s[1..], b) + 1;
      assert s[..k] == [s[0]] + s[1..][..k - 1];
      k
  }

  lemma FindUnique(s: seq<byte>, b: byte, k: nat)
    requires k < |s| && s[k] == b && b !in s[..k]
    ensures Find(s, b) == k
  {
  }

  function Lower(b: byte): byte {
    if 65 <= b <= 90 then b + 32 else b
  }

  predicate SameIgnoringCase(s: seq<byte>, lower: seq<byte>) {
    |s| == |lower| && forall i :: 0 <= i < |s| ==> Lower(s[i]) == lower[i]
  }

  // ------------------------------------------------------------------------ hexadecimal

  predicate IsHexDigit(b: byte) {
    48 <= b <= 57 || 65 <= b <= 70 || 97 <= b <= 102
  }

  function HexDigitValue(b: byte): nat
    requires IsHexDigit(b)
  {
    if b <= 57 then b - 48 else if b <= 70 then b - 55 else b - 87
  }

  function HexValue(s: seq<byte>): nat
    requires forall i :: 0 <= i < |s| ==> IsHexDigit(s[i])
  {
    if s == [] then 0 else 16 * HexValue(s[..|s| - 1]) + HexDigitValue(s[|s| - 1])
  }

  /** strtoul(line, &end, 16): the value, and whether the whole line was used. */
  function ChunkSizeOf(env: Env, line: seq<byte>): (Size, bool) {
    if line != [] && forall i :: 0 <= i < |line| ==> IsHexDigit(line[i]) then
      (Min(HexValue(line), SIZE_UNKNOWN), true)
    else
      env.oddChunkSize(line)
  }

  // ------------------------------------------------------------------------ one element

  datatype Step = Go(p: Parser) | Stop(p: Parser, error: HttpError)

  /** A header field: record it, and let two of them decide how the body is delimited. */
  function FieldStep(env: Env, p: Parser, name: seq<byte>, value: seq<byte>): (r: Step)
    ensures r.Go? ==> r.p == p.(chunked := r.p.chunked, dataSize := r.p.dataSize,
                                events := p.events + [HeaderLine(name, value)])
    ensures r.Stop? ==> r.p == p && r.error == HeProtocol
  {
    if SameIgnoringCase(name, CONTENT_LENGTH) then
      match env.scanUnsigned(value)
      case None => Stop(p, HeProtocol)
      case Some(n) => Go(p.(dataSize := n, events := p.events + [HeaderLine(name, value)]))
    else if SameIgnoringCase(name, TRANSFER_ENCODING) then
      if SameIgnoringCase(value, CHUNKED) then
        Go(p.(chunked := true, events := p.events + [HeaderLine(name, value)]))
      else if SameIgnoringCase(value, IDENTITY) then
        Go(p.(chunked := false, events := p.events + [HeaderLine(name, value)]))
      else Stop(p, HeProtocol)
    else Go(p.(events := p.events + [HeaderLine(name, value)]))
  }

  /** A non-empty header line: the name up to the colon, the value behind it. */
  function HeaderStep(env: Env, p: Parser, line: seq<byte>): Step {
    var colon := Find(line, COLON);
    if colon == |line| then Stop(p, HeProtocol)
    else FieldStep(env, p, line[..colon], TrimStart(line[colon + 1..]))
  }

  function BodyState(p: Parser): State {
    if p.chunked then ChunkSize else Data
  }

  /** The states a line can lead to. */
  predicate Follows(s: State, t: State) {
    match s
    case Leader => t.Headers?
    case Headers => t.Headers? || t.ChunkSize? || t.Data?
    case ChunkSize => t.ChunkSize? || t.Data? || t.Trailers?
    case ChunkTerm => t.ChunkTerm? || t.ChunkSize? || t.Data?
    case Trailers => t.Trailers?
    case _ => false
  }

  /** What one trimmed line does to the parser: only an empty line behind trailers ends it well. */
  function LineStep(env: Env, p: Parser, line: seq<byte>): (r: Step)
    requires ReadsLines(p.state)
    ensures r.p.body == p.body && p.events <= r.p.events
    ensures Follows(p.state, r.p.state)
    ensures r.Stop? && r.error == HeNone <==> p.state.Trailers? && line == []
  {
    match p.state
    case Leader =>
      var q := p.(state := Headers, events := p.events + [LeaderLine(line)]);
      var e := env.parseLeader(line);
      if e == HeNone then Go(q) else Stop(q, e)
    case Headers =>
      if line != [] then HeaderStep(env, p, line)
      else
        var (e, size, _) := env.headersComplete(p.events, p.chunked, p.dataSize);
        var q := p.(state := BodyState(p), dataSize := size,
                    events := p.events + [HeadersDone(p.chunked, p.dataSize)]);
        if e == HeNone then Go(q) else Stop(q, e)
    case ChunkSize =>
      if line == [] then Stop(p, HeProtocol)
      else
        var (size, whole) := ChunkSizeOf(env, line);
        if !whole then Stop(p.(dataSize := size), HeProtocol)
        else Go(p.(dataSize := size, state := if size == 0 then Trailers else Data))
    case ChunkTerm =>
      if line != [] then Stop(p, HeProtocol) else Go(p.(state := BodyState(p)))
    case Trailers =>
      if line == [] then Stop(p, HeNone) else Go(p)
  }

  predicate Accepts(p: Parser, n: nat) {
    p.state.Data? && 0 < n && (p.dataSize == SIZE_UNKNOWN || n <= p.dataSize)
  }

  /** How many of n bytes the parser takes for the body at once. */
  function Taken(p: Parser, n: nat): nat {
    if p.dataSize == SIZE_UNKNOWN then n else Min(n, p.dataSize)
  }

  /** `data` handed to the document. */
  function Deliver(p: Parser, data: seq<byte>): Parser
    requires Accepts(p, |data|)
  {
    p.(body := p.body + data, dataSize := if p.dataSize == SIZE_UNKNOWN then SIZE_UNKNOWN else p.dataSize - |data|)
  }

  // ------------------------------------------------------------------------ whole streams

  /** Where parsing stopped: the state, the bytes used, and the result if the message is complete. */
  datatype Outcome = Outcome(p: Parser, used: nat, done: Option<HttpError>) {
    function After(n: nat): Outcome {
      this.(used := used + n)
    }
  }

  function Parse(env: Env, p: Parser, input: seq<byte>): (o: Outcome)
    requires !p.state.Complete?
    ensures o.used <= |input| && !o.p.state.Complete?
    decreases |input|, if p.state.Data? then 1 else 0
  {
    if ReadsLines(p.state) then
      var k := Find(input, LF);
      if k == |input| then Outcome(p, 0, None)
      else
        match LineStep(env, p, TrimEnd(input[..k]))
        case Stop(q, e) => Outcome(q, k + 1, Some(e))
        case Go(q) => Parse(env, q, input[k + 1..]).After(k + 1)
    else if p.dataSize == 0 then
      if p.chunked then Parse(env, p.(state := ChunkTerm), input) else Outcome(p, 0, Some(HeNone))
    else if input == [] then Outcome(p, 0, None)
    else
      var k := Taken(p, |input|);
      Parse(env, Deliver(p, input[..k]), input[k..]).After(k)
  }

  /** Parsing used + rest from p is parsing rest from q. */
  ghost predicate Agree(env: Env, p: Parser, used: seq<byte>, q: Parser, rest: seq<byte>)
    requires !p.state.Complete? && !q.state.Complete?
  {
    Parse(env, p, used + rest) == Parse(env, q, rest).After(|used|)
  }

  /** Consuming `used` takes parser p to parser q, whatever follows. */
  ghost predicate Leads(env: Env, p: Parser, used: seq<byte>, q: Parser) {
    && !p.state.Complete? && !q.state.Complete?
    && forall rest: seq<byte> :: Agree(env, p, used, q, rest)
  }

  /** The parser can do nothing more with `input`: it waits for a line end or for any byte. */
  predicate Waits(p: Parser, input: seq<byte>) {
    if ReadsLines(p.state) then LF !in input
    else p.state.Data? && p.dataSize != 0 && input == []
  }

  lemma WaitingParse(env: Env, p: Parser, input: seq<byte>)
    requires Waits(p, input)
    ensures Parse(env, p, input) == Outcome(p, 0, None)
  {
  }

  lemma LeadsNowhere(env: Env, p: Parser)
    requires !p.state.Complete?
    ensures Leads(env, p, [], p)
  {
    forall rest: seq<byte>
      ensures Agree(env, p, [], p, rest)
    {
      assert [] + rest == rest;
    }
  }

  lemma {:induction false} LeadsTransitive(env: Env, p: Parser, s: seq<byte>, q: Parser, t: seq<byte>, r: Parser)
    requires Leads(env, p, s, q) && Leads(env, q, t, r)
    ensures Leads(env, p, s + t, r)
  {
    forall rest: seq<byte>
      ensures Agree(env, p, s + t, r, rest)
    {
      assert Agree(env, p, s, q, t + rest) && Agree(env, q, t, r, rest);
      ConcatAssociative(s, t, rest);
    }
  }

  lemma {:induction false} Resume(env: Env, p: Parser, used: seq<byte>, q: Parser, rest: seq<byte>, whole: seq<byte>)
    requires Leads(env, p, used, q) && whole == used + rest
    ensures Parse(env, p, whole) == Parse(env, q, rest).After(|used|)
  {
    assert Agree(env, p, used, q, rest);
  }

  lemma LineParses(env: Env, p: Parser, line: seq<byte>, rest: seq<byte>)
    requires ReadsLines(p.state) && LF !in line
    ensures var step := LineStep(env, p, TrimEnd(line));
            Parse(env, p, line + [LF] + rest) ==
            if step.Go? then Parse(env, step.p, rest).After(|line| + 1)
            else Outcome(step.p, |line| + 1, Some(step.error))
  {
    var input := line + [LF] + rest;
    assert input[..|line|] == line;
    FindUnique(input, LF, |line|);
    assert input[|line| + 1..] == rest;
  }

  lemma LineLeads(env: Env, p: Parser, line: seq<byte>)
    requires ReadsLines(p.state) && LF !in line && LineStep(env, p, TrimEnd(line)).Go?
    ensures Leads(env, p, line + [LF], LineStep(env, p, TrimEnd(line)).p)
  {
    forall rest: seq<byte>
      ensures Agree(env, p, line + [LF], LineStep(env, p, TrimEnd(line)).p, rest)
    {
      LineParses(env, p, line, rest);
    }
  }

  lemma ChunkEndLeads(env: Env, p: Parser)
    requires p.state.Data? && p.dataSize == 0 && p.chunked
    ensures Leads(env, p, [], p.(state := ChunkTerm))
  {
    forall rest: seq<byte>
      ensures Agree(env, p, [], p.(state := ChunkTerm), rest)
    {
      assert [] + rest == rest;
    }
  }

  lemma DeliverTwice(p: Parser, data: seq<byte>, more: seq<byte>)
    requires data != [] && more != [] && Accepts(p, |data + more|)
    ensures Deliver(Deliver(p, data), more) == Deliver(p, data + more)
  {
    assert p.body + data + more == p.body + (data + more);
  }

  lemma {:induction false} DataStep(env: Env, p: Parser, input: seq<byte>)
    requires p.state.Data? && p.dataSize != 0 && input != []
    ensures var k := Taken(p, |input|);
            Parse(env, p, input) == Parse(env, Deliver(p, input[..k]), input[k..]).After(k)
  {
  }

  /** Body bytes may reach the document in any pieces. */
  lemma {:induction false} DataParses(env: Env, p: Parser, data: seq<byte>, rest: seq<byte>)
    requires Accepts(p, |data|) && p.dataSize != 0
    ensures Parse(env, p, data + rest) == Parse(env, Deliver(p, data), rest).After(|data|)
  {
    var k := Taken(p, |data + rest|);
    if k == |data| {
      DataExact(env, p, data, rest);
    } else {
      var n := k - |data|;
      assert rest == rest[..n] + rest[n..];
      DataExact(env, p, data + rest[..n], rest[n..]);
      DataExact(env, Deliver(p, data), rest[..n], rest[n..]);
      DeliverTwice(p, data, rest[..n]);
      ConcatAssociative(data, rest[..n], rest[n..]);
    }
  }

  /** The bytes that are taken at once. */
  lemma {:induction false} DataExact(env: Env, p: Parser, data: seq<byte>, rest: seq<byte>)
    requires Accepts(p, |data|) && p.dataSize != 0 && Taken(p, |data + rest|) == |data|
    ensures Parse(env, p, data + rest) == Parse(env, Deliver(p, data), rest).After(|data|)
  {
    DataStep(env, p, data + rest);
    assert (data + rest)[..|data|] == data && (data + rest)[|data|..] == rest;
  }

  lemma DataLeads(env: Env, p: Parser, data: seq<byte>)
    requires Accepts(p, |data|)
    ensures Leads(env, p, data, Deliver(p, data))
  {
    forall rest: seq<byte>
      ensures Agree(env, p, data, Deliver(p, data), rest)
    {
      DataParses(env, p, data, rest);
    }
  }

  // ------------------------------------------------------------------------ slicing

  /** An unfinished parse: what it used leads to the state it stopped in, which waits. */
  ghost predicate Settles(env: Env, p: Parser, input: seq<byte>, o: Outcome) {
    && o.used <= |input| && o.done.None?
    && Leads(env, p, input[..o.used], o.p) && Waits(o.p, input[o.used..])
  }

  /** The next element completes the message. */
  predicate Halts(env: Env, p: Parser, input: seq<byte>) {
    if ReadsLines(p.state) then LF in input && LineStep(env, p, TrimEnd(input[..Find(input, LF)])).Stop?
    else p.state.Data? && p.dataSize == 0 && !p.chunked
  }

  lemma {:induction false} HaltingParse(env: Env, p: Parser, input: seq<byte>, more: seq<byte>)
    requires Halts(env, p, input)
    ensures Parse(env, p, input).done.Some? && Parse(env, p, input + more) == Parse(env, p, input)
  {
    if ReadsLines(p.state) {
      var k := Find(input, LF);
      var line, rest := input[..k], input[k + 1..];
      assert input == line + [LF] + rest;
      assert input + more == line + [LF] + (rest + more);
      LineParses(env, p, line, rest);
      LineParses(env, p, line, rest + more);
    }
  }

  /** A parser that neither waits nor halts makes a move that does not depend on what follows. */
  lemma {:induction false} ParseMoves(env: Env, p: Parser, input: seq<byte>) returns (q: Parser, k: nat)
    requires !p.state.Complete? && !Waits(p, input) && !Halts(env, p, input)
    ensures k <= |input| && Leads(env, p, input[..k], q) && (k > 0 || (p.state.Data? && !q.state.Data?))
  {
    if ReadsLines(p.state) {
      k := Find(input, LF) + 1;
      q := LineStep(env, p, TrimEnd(input[..k - 1])).p;
      assert input[..k - 1] + [LF] == input[..k];
      LineLeads(env, p, input[..k - 1]);
    } else if p.dataSize == 0 {
      q, k := p.(state := ChunkTerm), 0;
      assert input[..0] == [];
      ChunkEndLeads(env, p);
    } else {
      k := Taken(p, |input|);
      q := Deliver(p, input[..k]);
      DataLeads(env, p, input[..k]);
    }
  }

  /** Parsing never loses its place: an unfinished parse leads to the state it stopped in, waiting. */
  lemma {:induction false} ParseLeads(env: Env, p: Parser, input: seq<byte>)
    requires !p.state.Complete?
    ensures Parse(env, p, input).done.None? ==> Settles(env, p, input, Parse(env, p, input))
    decreases |input|, if p.state.Data? then 1 else 0
  {
    if Waits(p, input) {
      WaitingParse(env, p, input);
      assert input[..0] == [] && input[0..] == input;
      LeadsNowhere(env, p);
    } else if Halts(env, p, input) {
      HaltingParse(env, p, input, []);
    } else {
      var q, k := ParseMoves(env, p, input);
      MoveParses(env, p, input, k, q);
      ParseLeads(env, q, input[k..]);
      if Parse(env, q, input[k..]).done.None? {
        LeadsFurther(env, p, input, k, q, Parse(env, q, input[k..]));
      }
    }
  }

  lemma {:induction false} LeadsFurther(env: Env, p: Parser, input: seq<byte>, k: nat, q: Parser, o: Outcome)
    requires k <= |input| && Leads(env, p, input[..k], q) && Settles(env, q, input[k..], o)
    ensures Settles(env, p, input, o.After(k))
  {
    LeadsTransitive(env, p, input[..k], q, input[k..][..o.used], o.p);
    assert input[..k] + input[k..][..o.used] == input[..k + o.used];
    assert input[k..][o.used..] == input[k + o.used..];
  }

  lemma {:induction false} MoveParses(env: Env, p: Parser, input: seq<byte>, k: nat, q: Parser)
    requires k <= |input| && Leads(env, p, input[..k], q)
    ensures Parse(env, p, input) == Parse(env, q, input[k..]).After(k)
  {
    assert input == input[..k] + input[k..];
    Resume(env, p, input[..k], q, input[k..], input);
  }

  /** A finished parse does not look at what follows. */
  lemma {:induction false} ParseDoneStays(env: Env, p: Parser, input: seq<byte>, more: seq<byte>)
    requires !p.state.Complete? && Parse(env, p, input).done.Some?
    ensures Parse(env, p, input + more) == Parse(env, p, input)
    decreases |input|, if p.state.Data? then 1 else 0
  {
    if Halts(env, p, input) {
      HaltingParse(env, p, input, more);
    } else if Waits(p, input) {
      WaitingParse(env, p, input);
    } else {
      var q, k := ParseMoves(env, p, input);
      MoveParses(env, p, input, k, q);
      ParseDoneStays(env, q, input[k..], more);
      MoveParsesBefore(env, p, input, more, k, q);
    }
  }

  lemma {:induction false} MoveParsesBefore(
    env: Env, p: Parser, input: seq<byte>, more: seq<byte>, k: nat, q: Parser)
    requires k <= |input| && Leads(env, p, input[..k], q)
    ensures Parse(env, p, input + more) == Parse(env, q, input[k..] + more).After(k)
  {
    assert (input + more)[..k] == input[..k] && (input + more)[k..] == input[k..] + more;
    MoveParses(env, p, input + more, k, q);
  }

  /** Parsing may stop anywhere and resume with the unused bytes in front of the new ones. */
  lemma {:induction false} ParseSplits(env: Env, p: Parser, input: seq<byte>, more: seq<byte>)
    requires !p.state.Complete?
    ensures var o := Parse(env, p, input);
            Parse(env, p, input + more) ==
            if o.done.Some? then o else Parse(env, o.p, input[o.used..] + more).After(o.used)
  {
    var o := Parse(env, p, input);
    if o.done.Some? {
      ParseDoneStays(env, p, input, more);
    } else {
      ParseLeads(env, p, input);
      assert input + more == input[..o.used] + (input[o.used..] + more);
      Resume(env, p, input[..o.used], o.p, input[o.used..] + more, input + more);
    }
  }

  /** Feeding the slices one by one, carrying the unused bytes over, as the receive loop does. */
  function Feed(env: Env, p: Parser, carry: seq<byte>, slices: seq<seq<byte>>): (o: Outcome)
    requires !p.state.Complete?
    decreases |slices|
  {
    var input := if slices == [] then carry else carry + slices[0];
    var o := Parse(env, p, input);
    if o.done.Some? || slices == [] then o
    else Feed(env, o.p, input[o.used..], slices[1..]).After(o.used)
  }

  /**
   * Slicing independence: however a stream is cut, feeding the pieces gives the same final state,
   * the same events, the same body, the same result and the same number of bytes used as parsing
   * the stream in one call.
   */
  lemma {:induction false} SlicingIndependence(env: Env, p: Parser, carry: seq<byte>, slices: seq<seq<byte>>)
    requires !p.state.Complete?
    ensures Feed(env, p, carry, slices) == Parse(env, p, carry + Flatten(slices))
    decreases |slices|
  {
    if slices == [] {
      assert carry + Flatten(slices) == carry;
    } else {
      var input, later := carry + slices[0], Flatten(slices[1..]);
      var o := Parse(env, p, input);
      assert carry + Flatten(slices) == input + later;
      ParseSplits(env, p, input, later);
      if o.done.None? {
        SlicingIndependence(env, o.p, input[o.used..], slices[1..]);
      }
    }
  }

  /** What a parser has emitted stays in front of what it emits later. */
  predicate Extends(p: Parser, q: Parser) {
    p.body <= q.body && p.events <= q.events
  }

  lemma ExtendsTransitive(p: Parser, q: Parser, r: Parser)
    requires Extends(p, q) && Extends(q, r)
    ensures Extends(p, r)
  {
  }

  lemma DeliverExtends(p: Parser, data: seq<byte>)
    requires Accepts(p, |data|)
    ensures Extends(p, Deliver(p, data))
  {
  }

  /** Parsing only adds to the events and to the body. */
  lemma {:induction false} ParseExtends(env: Env, p: Parser, input: seq<byte>)
    requires !p.state.Complete?
    ensures Extends(p, Parse(env, p, input).p)
    decreases |input|, if p.state.Data? then 1 else 0
  {
    var r := Parse(env, p, input).p;
    if ReadsLines(p.state) {
      var k := Find(input, LF);
      if k < |input| {
        var step := LineStep(env, p, TrimEnd(input[..k]));
        if step.Go? {
          ParseExtends(env, step.p, input[k + 1..]);
          ExtendsTransitive(p, step.p, r);
        }
      }
    } else if p.dataSize == 0 {
      if p.chunked {
        ParseExtends(env, p.(state := ChunkTerm), input);
      }
    } else if input != [] {
      var k := Taken(p, |input|);
      var q := Deliver(p, input[..k]);
      DeliverExtends(p, input[..k]);
      ParseExtends(env, q, input[k..]);
      ExtendsTransitive(p, q, r);
    }
  }

  /** What has been read so far never has to be taken back: events and body only grow. */
  lemma {:induction false} PrefixGivesPrefix(env: Env, p: Parser, input: seq<byte>, more: seq<byte>)
    requires !p.state.Complete?
    ensures Extends(Parse(env, p, input).p, Parse(env, p, input + more).p)
  {
    var o := Parse(env, p, input);
    ParseSplits(env, p, input, more);
    if o.done.None? {
      ParseExtends(env, o.p, input[o.used..] + more);
    }
  }

  // ------------------------------------------------------------------------ what the parts mean

  /** Letters match in either case, everything else exactly. */
  lemma CaseIgnored(s: seq<byte>, lower: seq<byte>)
    requires forall i :: 0 <= i < |lower| ==> !(65 <= lower[i] <= 90)
    ensures SameIgnoringCase(s, lower) <==>
            && |s| == |lower|
            && forall i :: 0 <= i < |s| ==> s[i] == lower[i] || (65 <= s[i] <= 90 && s[i] + 32 == lower[i])
  {
  }

  /** Which fields decide how the body is delimited, and what they decide. */
  lemma FieldMeaning(env: Env, p: Parser, name: seq<byte>, value: seq<byte>)
    ensures var r := FieldStep(env, p, name, value);
            var coding := SameIgnoringCase(name, Ascii("transfer-encoding"));
            var length := SameIgnoringCase(name, Ascii("content-length"));
            var chunked := SameIgnoringCase(value, Ascii("chunked"));
            var identity := SameIgnoringCase(value, Ascii("identity"));
            && (coding ==>
                  && (r.Go? <==> chunked || identity)
                  && (r.Go? ==> r.p.dataSize == p.dataSize)
                  && (chunked ==> r.p.chunked) && (identity ==> !r.p.chunked))
            && (length ==>
                  && (r.Go? <==> env.scanUnsigned(value).Some?)
                  && (r.Go? ==> Some(r.p.dataSize) == env.scanUnsigned(value) && r.p.chunked == p.chunked))
            && (!coding && !length ==>
                  r.Go? && r.p.chunked == p.chunked && r.p.dataSize == p.dataSize)
  {
  }

  /** White space is what isspace says, and trimming takes exactly that off the ends. */
  lemma {:induction false} TrimEndExact(s: seq<byte>)
    ensures var r := TrimEnd(s);
            && |r| <= |s| && r == s[..|r|]
            && (r != [] ==> r[|r| - 1] !in {9, 10, 11, 12, 13, 32})
            && forall i :: |r| <= i < |s| ==> s[i] in {9, 10, 11, 12, 13, 32}
  {
    if s != [] && IsSpace(s[|s| - 1]) {
      TrimEndExact(s[..|s| - 1]);
    }
  }

  lemma {:induction false} TrimStartExact(s: seq<byte>)
    ensures var r := TrimStart(s);
            && |r| <= |s| && r == s[|s| - |r|..]
            && (r != [] ==> r[0] !in {9, 10, 11, 12, 13, 32})
            && forall i :: 0 <= i < |s| - |r| ==> s[i] in {9, 10, 11, 12, 13, 32}
  {
    if s != [] && IsSpace(s[0]) {
      TrimStartExact(s[1..]);
      var n := |s[1..]| - |TrimStart(s)|;
      assert s[1..][n..] == s[n + 1..];
      forall i | 0 <= i < n + 1
        ensures s[i] in {9, 10, 11, 12, 13, 32}
      {
        assert i > 0 ==> s[i] == s[1..][i - 1];
      }
    }
  }

  /** The digits in both cases, in the order of their values. */
  lemma HexDigits(v: nat)
    requires v < 16
    ensures IsHexDigit(Ascii("0123456789abcdef")[v]) && HexDigitValue(Ascii("0123456789abcdef")[v]) == v
    ensures IsHexDigit(Ascii("0123456789ABCDEF")[v]) && HexDigitValue(Ascii("0123456789ABCDEF")[v]) == v
  {
    var lower, upper := "0123456789abcdef", "0123456789ABCDEF";
    if v < 10 {
      assert lower[v] as int == 48 + v && upper[v] as int == 48 + v;
    } else {
      assert lower[v] as int == 87 + v && upper[v] as int == 55 + v;
    }
  }

  predicate AllHex(line: seq<byte>) {
    forall i :: 0 <= i < |line| ==> IsHexDigit(line[i])
  }

  /** Which lines stop the parser outside the headers, with which error, and where the others lead. */
  lemma LineVerdicts(env: Env, p: Parser, line: seq<byte>)
    requires ReadsLines(p.state)
    ensures var r := LineStep(env, p, line);
            && (p.state.Leader? ==>
                  if env.parseLeader(line) == HeNone then r.Go? else r.Stop? && r.error == env.parseLeader(line))
            && (p.state.Headers? && line != [] && COLON !in line ==> r.Stop? && r.error == HeProtocol)
            && (p.state.Headers? && line == [] && r.Go? ==> r.p.state == if p.chunked then ChunkSize else Data)
            && (p.state.ChunkSize? && line == [] ==> r.Stop? && r.error == HeProtocol)
            && (p.state.ChunkSize? && r.Stop? ==> r.error == HeProtocol)
            && (p.state.ChunkSize? && line != [] && AllHex(line) && HexValue(line) < SIZE_UNKNOWN ==>
                  && r.Go? && r.p.dataSize == HexValue(line)
                  && r.p.state == if HexValue(line) == 0 then Trailers else Data)
            && (p.state.ChunkTerm? ==> if line == [] then r.Go? else r.Stop? && r.error == HeProtocol)
            && (p.state.ChunkTerm? && r.Go? ==> r.p.state == if p.chunked then ChunkSize else Data)
  {
  }
}
