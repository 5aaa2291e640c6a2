/**
 * The chunked transfer coding (section 4.1 of RFC 7230) as the sender writes it and the parser reads
 * it, and the sender's flush loop over a fixed buffer.
 */
module HttpSend {
  import opened Bytes
  import opened HttpGrammar

  const CRLF: seq<byte> := [13, 10]
  /** "0", an empty line: the empty chunk and empty trailers. */
  const LAST_CHUNK: seq<byte> := [48, 13, 10, 13, 10]
  const CHUNK_DIGITS: nat := 8

  function HexDigit(n: nat): byte
    requires n < 16
  {
    if n < 10 then 48 + n else 87 + n
  }

  lemma HexDigitIs(n: nat)
    requires n < 16
    ensures HexDigit(n) == Ascii("0123456789abcdef")[n]
  {
    var digits := "0123456789abcdef";
    if n < 10 {
      assert digits[n] as int == 48 + n;
    } else {
      assert digits[n] as int == 87 + n;
    }
  }

  function Pow16(digits: nat): nat {
    if digits == 0 then 1 else 16 * Pow16(digits - 1)
  }

  /** n in exactly `digits` lower-case hexadecimal digits. */
  function Hex(n: nat, digits: nat): (s: seq<byte>)
    ensures |s| == digits && forall i :: 0 <= i < |s| ==> IsHexDigit(s[i])
  {
    if digits == 0 then [] else Hex(n / 16, digits - 1) + [HexDigit(n % 16)]
  }

  lemma {:induction false} HexRoundTrip(n: nat, digits: nat)
    requires n < Pow16(digits)
    ensures HexValue(Hex(n, digits)) == n
  {
    if digits > 0 {
      HexRoundTrip(n / 16, digits - 1);
      var s := Hex(n, digits);
      assert s[..|s| - 1] == Hex(n / 16, digits - 1);
    }
  }

  function Chunk(data: seq<byte>): seq<byte> {
    Hex(|data|, CHUNK_DIGITS) + CRLF + data + CRLF
  }

  function Chunks(parts: seq<seq<byte>>): seq<byte> {
    if parts == [] then [] else Chunks(parts[..|parts| - 1]) + Chunk(parts[|parts| - 1])
  }

  /** Non-empty parts whose length fits in the eight digits. */
  predicate Chunkable(parts: seq<seq<byte>>) {
    forall i :: 0 <= i < |parts| ==> 0 < |parts[i]| < 0x1_0000_0000
  }

  // ------------------------------------------------------------------------ reading a chunk back

  lemma SizeLineLeads(env: Env, p: Parser, n: nat)
    requires p.state.ChunkSize? && 0 < n < 0x1_0000_0000
    ensures Leads(env, p, Hex(n, CHUNK_DIGITS) + CRLF, p.(dataSize := n, state := Data))
  {
    var hex := Hex(n, CHUNK_DIGITS);
    assert Pow16(CHUNK_DIGITS) == 0x1_0000_0000 by {
      assert Pow16(4) == 0x1_0000;
      assert Pow16(8) == 16 * (16 * (16 * (16 * Pow16(4))));
    }
    HexRoundTrip(n, CHUNK_DIGITS);
    var line := hex + [13];
    assert line[..|line| - 1] == hex;
    assert TrimEnd(line) == TrimEnd(hex) == hex;
    assert LF !in line;
    LineLeads(env, p, line);
    assert line + [LF] == hex + CRLF;
  }

  lemma EmptyLineLeads(env: Env, p: Parser)
    requires p.state.ChunkTerm? && p.chunked
    ensures Leads(env, p, CRLF, p.(state := ChunkSize))
  {
    var line: seq<byte> := [13];
    assert line[..0] == [];
    assert TrimEnd(line) == [];
    LineLeads(env, p, line);
    assert line + [LF] == CRLF;
  }

  function AfterChunk(p: Parser, data: seq<byte>): Parser {
    p.(dataSize := 0, state := ChunkSize, body := p.body + data)
  }

  lemma {:induction false} ChunkLeads(env: Env, p: Parser, data: seq<byte>)
    requires p.state.ChunkSize? && p.chunked && 0 < |data| < 0x1_0000_0000
    ensures Leads(env, p, Chunk(data), AfterChunk(p, data))
  {
    var sizeLine := Hex(|data|, CHUNK_DIGITS) + CRLF;
    var p1 := p.(dataSize := |data|, state := Data);
    SizeLineLeads(env, p, |data|);
    DataLeads(env, p1, data);
    var p2 := Deliver(p1, data);
    LeadsTransitive(env, p, sizeLine, p1, data, p2);
    var p3 := p2.(state := ChunkTerm);
    ChunkEndLeads(env, p2);
    LeadsTransitive(env, p, sizeLine + data, p2, [], p3);
    assert sizeLine + data + [] == sizeLine + data;
    EmptyLineLeads(env, p3);
    LeadsTransitive(env, p, sizeLine + data, p3, CRLF, AfterChunk(p, data));
  }

  function AfterChunks(p: Parser, parts: seq<seq<byte>>): Parser {
    if parts == [] then p else AfterChunk(p, Flatten(parts))
  }

  lemma {:induction false} ChunksLead(env: Env, p: Parser, parts: seq<seq<byte>>)
    requires p.state.ChunkSize? && p.chunked && Chunkable(parts)
    ensures Leads(env, p, Chunks(parts), AfterChunks(p, parts))
  {
    if parts == [] {
      LeadsNowhere(env, p);
    } else {
      var init, last := parts[..|parts| - 1], parts[|parts| - 1];
      ChunksLead(env, p, init);
      var q := AfterChunks(p, init);
      ChunkLeads(env, q, last);
      LeadsTransitive(env, p, Chunks(init), q, Chunk(last), AfterChunk(q, last));
      assert parts == init + [last];
      FlattenSnoc(init, last);
      assert q.body == p.body + Flatten(init) by {
        assert p.body + [] == p.body;
      }
      assert p.body + Flatten(init) + last == p.body + Flatten(parts);
    }
  }

  lemma {:induction false} ZeroLineLeads(env: Env, p: Parser)
    requires p.state.ChunkSize?
    ensures Leads(env, p, [48] + CRLF, p.(dataSize := 0, state := Trailers))
  {
    var zero: seq<byte> := [48];
    var line := zero + [13];
    assert line[..1] == zero;
    assert TrimEnd(line) == TrimEnd(zero) == zero;
    assert HexValue(zero) == 0 by { assert zero[..0] == []; }
    assert LineStep(env, p, zero) == Go(p.(dataSize := 0, state := Trailers));
    LineLeads(env, p, line);
    assert line + [LF] == zero + CRLF;
  }

  lemma {:induction false} LastChunkParses(env: Env, p: Parser, rest: seq<byte>)
    requires p.state.ChunkSize?
    ensures Parse(env, p, LAST_CHUNK + rest) == Outcome(p.(dataSize := 0, state := Trailers), 5, Some(HeNone))
  {
    var q := p.(dataSize := 0, state := Trailers);
    var cr: seq<byte> := [13];
    assert cr[..0] == [];
    assert TrimEnd(cr) == [];
    LineParses(env, q, cr, rest);
    ZeroLineLeads(env, p);
    assert LAST_CHUNK + rest == ([48] + CRLF) + (cr + [LF] + rest);
    Resume(env, p, [48] + CRLF, q, cr + [LF] + rest, LAST_CHUNK + rest);
  }

  /**
   * The chunked coding is undone exactly: from the chunk-size state, the parser hands over the
   * parts' concatenation, completes without error, and does so on the last byte of the coding.
   */
  lemma {:induction false} ChunkedRoundTrip(env: Env, p: Parser, parts: seq<seq<byte>>, rest: seq<byte>)
    requires p.state.ChunkSize? && p.chunked && Chunkable(parts)
    ensures var coded := Chunks(parts) + LAST_CHUNK;
            var o := Parse(env, p, coded + rest);
            && o.done == Some(HeNone) && o.used == |coded|
            && o.p.body == p.body + Flatten(parts) && o.p.events == p.events
  {
    var q := AfterChunks(p, parts);
    ChunksLead(env, p, parts);
    LastChunkParses(env, q, rest);
    assert Chunks(parts) + LAST_CHUNK + rest == Chunks(parts) + (LAST_CHUNK + rest);
    Resume(env, p, Chunks(parts), q, LAST_CHUNK + rest, Chunks(parts) + LAST_CHUNK + rest);
    assert p.body + [] == p.body;
  }

  /** What a receiver has after any part of the coding arrived is a prefix of the document. */
  lemma {:induction false} PartialCodingGivesPrefix(env: Env, p: Parser, parts: seq<seq<byte>>, arrived: seq<byte>)
    requires p.state.ChunkSize? && p.chunked && Chunkable(parts)
    requires arrived <= Chunks(parts) + LAST_CHUNK
    ensures Parse(env, p, arrived).p.body <= p.body + Flatten(parts)
  {
    var coded := Chunks(parts) + LAST_CHUNK;
    assert coded == arrived + coded[|arrived|..];
    assert coded + [] == coded;
    PrefixGivesPrefix(env, p, arrived, coded[|arrived|..]);
    ChunkedRoundTrip(env, p, parts, []);
  }

  /** End to end: a finished coding, cut into pieces in any way, is the document and nothing else. */
  lemma {:induction false} SentDocumentArrives(
    env: Env, p: Parser, parts: seq<seq<byte>>, document: seq<byte>, pieces: seq<seq<byte>>)
    requires p.state.ChunkSize? && p.chunked && Chunkable(parts) && Flatten(parts) == document
    requires Flatten(pieces) == Chunks(parts) + LAST_CHUNK
    ensures var o := Feed(env, p, [], pieces);
            o.done == Some(HeNone) && o.used == |Flatten(pieces)| && o.p.body == p.body + document
  {
    SlicingIndependence(env, p, [], pieces);
    assert [] + Flatten(pieces) == Chunks(parts) + LAST_CHUNK + [];
    ChunkedRoundTrip(env, p, parts, []);
  }

  // ------------------------------------------------------------------------ the sender

  datatype DocumentRead = DrSuccess(data: seq<byte>) | DrBlock | DrEos | DrError
  datatype NetworkWrite = NwSuccess | NwBlock | NwError(code: int)

  /** What document parts look like on the network; `open` while the coding is not terminated. */
  function Coding(chunked: bool, open: bool, parts: seq<seq<byte>>): seq<byte> {
    if chunked then Chunks(parts) + (if open then [] else LAST_CHUNK) else Flatten(parts)
  }

  lemma CodingSnoc(chunked: bool, parts: seq<seq<byte>>, data: seq<byte>)
    ensures Coding(chunked, chunked, parts + [data]) ==
            Coding(chunked, chunked, parts) + (if chunked then Chunk(data) else data)
  {
    FlattenSnoc(parts, data);
    assert (parts + [data])[..|parts|] == parts;
    assert Chunks(parts) + [] == Chunks(parts);
    assert Chunks(parts + [data]) + [] == Chunks(parts + [data]);
  }

  lemma CodingEnds(parts: seq<seq<byte>>)
    ensures Coding(true, false, parts) == Coding(true, true, parts) + LAST_CHUNK
  {
    assert Chunks(parts) + [] == Chunks(parts);
  }

  lemma BufferGrows(
    wire: seq<byte>, buffered: seq<byte>, head: seq<byte>, coded: seq<byte>, added: seq<byte>)
    requires wire + buffered == head + coded
    ensures wire + (buffered + added) == head + (coded + added)
  {
    ConcatAssociative(wire, buffered, added);
    ConcatAssociative(head, coded, added);
  }

  lemma HeaderMoves(wire: seq<byte>, buffered: seq<byte>, header: seq<byte>, rest: seq<byte>)
    ensures wire + buffered + (header + rest) == wire + (buffered + header) + rest
  {
  }

  lemma CodingOfNothing(chunked: bool, head: seq<byte>)
    ensures head + Coding(chunked, chunked, []) == head
  {
  }

  /** The document's next bytes move from what is unread to the parts. */
  lemma {:induction false} PartMoves(parts: seq<seq<byte>>, unread: seq<byte>, document: seq<byte>, data: seq<byte>)
    requires Flatten(parts) + unread == document && data <= unread
    ensures Flatten(parts + [data]) + unread[|data|..] == document
  {
    FlattenSnoc(parts, data);
    assert unread == data + unread[|data|..];
    ConcatAssociative(Flatten(parts), data, unread[|data|..]);
  }

  lemma BufferDrains(wire: seq<byte>, buffered: seq<byte>, n: nat)
    requires n <= |buffered|
    ensures wire + buffered[..n] + buffered[n..] == wire + buffered
  {
  }

  // ------------------------------------------------------------------------ headers

  /** The header lines that fit in an empty buffer; the others are discarded. */
  function Fitting(headers: seq<seq<byte>>): seq<seq<byte>> {
    if headers == [] then []
    else (if |headers[0]| < BUFFER_SIZE - 3 then [headers[0]] else []) + Fitting(headers[1..])
  }

  /** Every header is sent exactly when each fits in an empty buffer. */
  lemma {:induction false} AllHeadersFit(headers: seq<seq<byte>>)
    ensures |Fitting(headers)| <= |headers|
    ensures Fitting(headers) == headers <==> forall i :: 0 <= i < |headers| ==> |headers[i]| < BUFFER_SIZE - 3
  {
    if headers != [] {
      AllHeadersFit(headers[1..]);
      assert headers == [headers[0]] + headers[1..];
      if |headers[0]| < BUFFER_SIZE - 3 {
        assert Fitting(headers)[1..] == Fitting(headers[1..]);
      }
    }
  }

  /** What follows the leader: the header lines that fit, and an empty line. */
  function HeadRest(headers: seq<seq<byte>>): (s: seq<byte>)
    ensures |s| >= 2
  {
    Flatten(Fitting(headers)) + CRLF
  }

  lemma {:induction false} NextHeader(headers: seq<seq<byte>>)
    requires headers != []
    ensures HeadRest(headers) ==
            if |headers[0]| < BUFFER_SIZE - 3 then headers[0] + HeadRest(headers[1..]) else HeadRest(headers[1..])
  {
    var h, later := headers[0], Fitting(headers[1..]);
    if |h| < BUFFER_SIZE - 3 {
      assert ([h] + later)[1..] == later;
      ConcatAssociative(h, Flatten(later), CRLF);
    } else {
      assert [] + later == later;
    }
  }

  /** strcpyn behind what the buffer holds: as much as leaves room for a terminator. */
  function Behind(held: seq<byte>, s: seq<byte>): (r: seq<byte>)
    requires |held| < BUFFER_SIZE
    ensures |r| < BUFFER_SIZE
  {
    held + s[..Min(|s|, BUFFER_SIZE - 1 - |held|)]
  }

  /** All that precedes the body. */
  function Head(leader: seq<byte>, headers: seq<seq<byte>>): seq<byte>
    requires |leader| < BUFFER_SIZE
  {
    var line := Behind(leader, CRLF);
    if headers == [] then Behind(line, CRLF) else line + HeadRest(headers)
  }

  /** The line ends are all there exactly when they fit behind the leader. */
  lemma HeadIsWhole(leader: seq<byte>, headers: seq<seq<byte>>)
    requires |leader| < BUFFER_SIZE
    ensures Head(leader, headers) == leader + CRLF + HeadRest(headers) <==>
            |leader| + (if headers == [] then 4 else 2) < BUFFER_SIZE
  {
    NoHeaders();
    var line := Behind(leader, CRLF);
    BehindIsWhole(leader, CRLF);
    if headers == [] {
      BehindIsWhole(line, CRLF);
    } else if |leader| + 2 >= BUFFER_SIZE {
      assert |line + HeadRest(headers)| < |leader + CRLF + HeadRest(headers)|;
    }
  }

  lemma BehindIsWhole(held: seq<byte>, s: seq<byte>)
    requires |held| < BUFFER_SIZE
    ensures |held| + |s| < BUFFER_SIZE ==> Behind(held, s) == held + s
    ensures |held| + |s| >= BUFFER_SIZE ==> |Behind(held, s)| < |held + s| && |Behind(held, s)| == BUFFER_SIZE - 1
  {
    assert s[..|s|] == s;
  }

  lemma NoHeaders()
    ensures HeadRest([]) == CRLF
  {
  }

  /** `later` is what is left of `headers` when the first ones are done. */
  ghost predicate Follow(headers: seq<seq<byte>>, later: seq<seq<byte>>) {
    |later| <= |headers| && later == headers[|headers| - |later|..]
  }

  lemma FollowNext(headers: seq<seq<byte>>, later: seq<seq<byte>>)
    requires Follow(headers, later) && later != []
    ensures Follow(headers, later[1..])
  {
  }

  /** The sending half of HttpBase. */
  class HttpSender {
    const buffer: array<byte>
    const hasDocument: bool
    var len: nat
    /** The header lines that have not been queued; once there are none, the empty line is queued too. */
    var headers: seq<seq<byte>>
    var chunkData: bool
    /** The part of the document that has not been read. */
    var unread: seq<byte>
    var finished: Option<HttpError>

    ghost const chunked: bool
    ghost const head: seq<byte>
    ghost const document: seq<byte>
    ghost var parts: seq<seq<byte>>
    ghost var wire: seq<byte>
    /** How often the document and the network blocked. */
    ghost var documentBlocks: nat
    ghost var networkBlocks: nat

    ghost predicate Valid()
      reads this, buffer
    {
      && buffer.Length == BUFFER_SIZE && len <= BUFFER_SIZE
      && Chunkable(parts) && Flatten(parts) + unread == document
      && (chunkData ==> chunked) && (chunked && !chunkData ==> unread == [])
      && (!hasDocument ==> document == [] && parts == [] && chunkData == chunked)
      && (headers != [] ==>
            && parts == [] && chunkData == chunked && finished != Some(HeNone)
            && wire + buffer[..len] + HeadRest(headers) == head)
      && (headers == [] ==> wire + buffer[..len] == head + Coding(chunked, chunkData, parts))
      && (finished == Some(HeNone) ==> wire == head + Sent() && Flatten(parts) == document)
    }

    /** What stands behind the headers when all is sent: without a document, nothing. */
    ghost function Sent(): seq<byte>
      reads this
    {
      if hasDocument then Coding(chunked, false, parts) else []
    }

    /**
     * Each header line carries its line end; the leader gets one. Without headers, the empty line is
     * queued at once. What does not fit behind a long leader is cut off.
     */
    constructor (leader: seq<byte>, headers: seq<seq<byte>>, document: Option<seq<byte>>, chunked: bool)
      requires |leader| < BUFFER_SIZE
      ensures Valid() && finished.None? && fresh(buffer) && this.headers == headers && wire == []
      ensures head == Head(leader, headers) && this.chunked == chunked
      ensures hasDocument == document.Some? && this.document == if document.Some? then document.value else []
    {
      var line := Behind(leader, CRLF);
      var start := if headers == [] then Behind(line, CRLF) else line;
      buffer := new byte[BUFFER_SIZE](i => if 0 <= i < |start| then start[i] else 0);
      hasDocument, this.headers, len, chunkData, finished := document.Some?, headers, |start|, chunked, None;
      unread := if document.Some? then document.value else [];
      this.chunked, head, parts, wire := chunked, Head(leader, headers), [], [];
      this.document := if document.Some? then document.value else [];
      documentBlocks, networkBlocks := 0, 0;
      new;
      assert buffer[..len] == start && [] + start == start;
      CodingOfNothing(chunked, head);
    }

    /** memcpy of `data` behind the buffered bytes. */
    method Append(data: seq<byte>)
      requires len + |data| <= buffer.Length
      modifies this`len, buffer
      ensures len == old(len) + |data| && buffer[..len] == old(buffer[..len]) + data
    {
      forall i | 0 <= i < |data| {
        buffer[len + i] := data[i];
      }
      len := len + |data|;
    }

    /** What is on the wire, in the buffer and still to be queued is the head. */
    ghost predicate HeadOpen()
      reads this, buffer
    {
      buffer.Length == BUFFER_SIZE && len <= BUFFER_SIZE && wire + buffer[..len] + HeadRest(headers) == head
    }

    /** The next header line enters the buffer. */
    method PutHeader()
      requires HeadOpen() && headers != [] && len + |headers[0]| < BUFFER_SIZE - 3
      modifies this`len, this`headers, buffer
      ensures HeadOpen() && headers == old(headers)[1..] && len < BUFFER_SIZE - 3
    {
      var h := headers[0];
      ghost var full := buffer[..len];
      NextHeader(headers);
      Append(h);
      headers := headers[1..];
      HeaderMoves(wire, full, h, HeadRest(headers));
    }

    /** The next header line is too long even for an empty buffer. */
    method DropHeader()
      requires HeadOpen() && headers != [] && len == 0 && |headers[0]| >= BUFFER_SIZE - 3
      modifies this`headers
      ensures HeadOpen() && headers == old(headers)[1..]
    {
      NextHeader(headers);
      headers := headers[1..];
    }

    /** The empty line behind the headers. */
    method EndHeaders()
      requires HeadOpen() && headers == [] && len < BUFFER_SIZE - 3
      modifies this`len, buffer
      ensures len <= BUFFER_SIZE && wire + buffer[..len] == head + Coding(chunked, chunked, [])
    {
      ghost var full := buffer[..len];
      Append(CRLF);
      NoHeaders();
      ConcatAssociative(wire, full, CRLF);
      CodingOfNothing(chunked, head);
    }

    /** One header line; `stuck` when it needs a write first. */
    method QueueHeader() returns (stuck: bool)
      requires HeadOpen() && headers != []
      modifies this`len, this`headers, buffer
      ensures HeadOpen() && len <= BUFFER_SIZE
      ensures stuck ==> headers == old(headers) && len == old(len) > 0
      ensures !stuck ==> headers == old(headers)[1..] && len < BUFFER_SIZE - 3
    {
      stuck := false;
      if len + |headers[0]| < BUFFER_SIZE - 3 {
        PutHeader();
      } else if len == 0 {
        DropHeader();
      } else {
        stuck := true;
      }
    }

    /** Header lines enter the buffer until the next one does not fit. */
    method QueueLines() returns (stuck: bool)
      requires HeadOpen() && headers != []
      modifies this`len, this`headers, buffer
      ensures HeadOpen() && Follow(old(headers), headers)
      ensures stuck <==> headers != []
      ensures stuck ==> len > 0 && (|headers| == |old(headers)| ==> len == old(len))
      ensures !stuck ==> len < BUFFER_SIZE - 3
    {
      ghost var n := |headers|;
      stuck := false;
      while headers != [] && !stuck
        invariant HeadOpen() && Follow(old(headers), headers)
        invariant if |headers| == n then len == old(len) else len < BUFFER_SIZE - 3
        invariant stuck ==> headers != [] && len > 0
        decreases !stuck, |headers|
      {
        FollowNext(old(headers), headers);
        stuck := QueueHeader();
      }
    }

    /**
     * Header lines enter the buffer until the next one does not fit; a line too long even for an
     * empty buffer is dropped. `sendRequired`: there are more.
     */
    method QueueHeaders() returns (sendRequired: bool)
      requires Valid() && headers != [] && finished.None?
      modifies this`len, this`headers, buffer
      ensures Valid() && Follow(old(headers), headers)
      ensures sendRequired <==> headers != []
      ensures sendRequired ==> len > 0 && (|headers| == |old(headers)| ==> len == old(len))
    {
      sendRequired := QueueLines();
      if !sendRequired {
        EndHeaders();
      }
    }

    /** The document offers at least one byte, blocks, fails, or is at its end. */
    method ReadDocument(room: nat) returns (r: DocumentRead)
      requires room > 0
      modifies this`documentBlocks
      ensures documentBlocks == old(documentBlocks) + (if r.DrBlock? then 1 else 0)
      ensures r.DrSuccess? ==> 0 < |r.data| <= room && r.data <= unread
      ensures r.DrEos? ==> unread == []
    {
      var choice: int := *;
      r := if choice == 0 then DrEos else if choice == 1 then DrBlock else DrError;
      documentBlocks := documentBlocks + (if r.DrBlock? then 1 else 0);
      if r.DrEos? && unread != [] {
        var n: int := *;
        if n <= 0 || n > room || n > |unread| {
          n := Min(room, |unread|);
        }
        r := DrSuccess(unread[..n]);
      }
    }

    /** Size line, data, line end. (The source reads the data into place before it writes around it.) */
    method AppendChunk(data: seq<byte>)
      requires len + CHUNK_DIGITS + 2 + |data| + 2 <= buffer.Length
      modifies this`len, buffer
      ensures len == old(len) + CHUNK_DIGITS + 2 + |data| + 2
      ensures buffer[..len] == old(buffer[..len]) + Chunk(data)
    {
      Append(Hex(|data|, CHUNK_DIGITS));
      Append(CRLF);
      Append(data);
      Append(CRLF);
    }

    /** `data`, just read from the document, enters the buffer. */
    method QueuePart(data: seq<byte>)
      requires buffer.Length == BUFFER_SIZE && Chunkable(parts) && data != []
      requires len + |data| + (if chunkData then CHUNK_DIGITS + 4 else 0) <= BUFFER_SIZE
      requires chunkData == chunked && wire + buffer[..len] == head + Coding(chunked, chunkData, parts)
      modifies this`len, this`parts, buffer
      ensures 0 < len <= BUFFER_SIZE && Chunkable(parts) && parts == old(parts) + [data]
      ensures wire + buffer[..len] == head + Coding(chunked, chunkData, parts)
    {
      ghost var coded, full, added := Coding(chunked, chunkData, parts), buffer[..len],
                                      if chunkData then Chunk(data) else data;
      if chunkData {
        AppendChunk(data);
      } else {
        Append(data);
      }
      CodingSnoc(chunked, parts, data);
      BufferGrows(wire, full, head, coded, added);
      parts := parts + [data];
    }

    /** The document gives up `data`, which enters the buffer. */
    method AcceptPart(data: seq<byte>)
      requires Valid() && finished.None? && headers == [] && hasDocument && data != [] && data <= unread
      requires len + |data| + (if chunkData then CHUNK_DIGITS + 4 else 0) <= BUFFER_SIZE
      modifies this`len, this`parts, this`unread, buffer
      ensures Valid() && len > 0 && |unread| < |old(unread)|
    {
      PartMoves(parts, unread, document, data);
      QueuePart(data);
      unread := unread[|data|..];
    }

    /** The empty chunk and empty trailers enter the buffer. */
    method CloseCoding()
      requires Valid() && headers == [] && hasDocument
      requires chunkData && unread == [] && finished.None? && len + 5 <= BUFFER_SIZE
      modifies this`len, this`chunkData, buffer
      ensures Valid() && !chunkData
    {
      ghost var coded, full := Coding(chunked, true, parts), buffer[..len];
      Append(LAST_CHUNK);
      chunkData := false;
      CodingEnds(parts);
      BufferGrows(wire, full, head, coded, LAST_CHUNK);
    }

    method Complete(error: HttpError)
      requires Valid() && finished.None?
      requires error == HeNone ==> headers == [] && len == 0 && (hasDocument ==> unread == [] && !chunkData)
      modifies this`finished
      ensures Valid() && finished == Some(error)
    {
      if error == HeNone {
        assert wire + buffer[..0] == wire && Flatten(parts) + [] == Flatten(parts);
        CodingOfNothing(chunked, head);
      }
      finished := Some(error);
    }

    /** Document bytes, or the end of the document, enter the buffer. `sendRequired`: nothing more can. */
    method QueueDocument() returns (sendRequired: bool)
      requires Valid() && finished.None? && headers == [] && hasDocument
      modifies this`len, this`parts, this`unread, this`chunkData, this`finished, this`documentBlocks, buffer
      ensures Valid() && documentBlocks >= old(documentBlocks)
      ensures finished.None? && !sendRequired ==> |unread| < |old(unread)| && len > 0
      ensures finished.None? && sendRequired ==>
                && unread == old(unread) && (chunkData ==> old(chunkData))
                && (chunkData == old(chunkData) ==> len == old(len))
                && (len == 0 ==> documentBlocks > old(documentBlocks))
    {
      var reserve := if chunkData then len + CHUNK_DIGITS + 4 else len;
      sendRequired := true;
      if reserve < BUFFER_SIZE {
        var r := ReadDocument(BUFFER_SIZE - reserve);
        match r {
          case DrSuccess(data) =>
            AcceptPart(data);
            sendRequired := false;
          case DrBlock =>
          case DrEos =>
            if chunkData {
              CloseCoding();
            } else if len == 0 {
              Complete(HeNone);
            }
          case DrError =>
            Complete(HeStream);
        }
      }
    }

    /** The first n bytes of the buffer are on the network; the others move to the front. */
    method Drain(n: nat)
      requires Valid() && n <= len && finished.None?
      modifies this`len, this`wire, buffer
      ensures Valid() && len == old(len) - n && old(wire) <= wire
    {
      ghost var full := buffer[..len];
      len := len - n;
      forall i | 0 <= i < len {
        buffer[i] := buffer[i + n];
      }
      assert buffer[..len] == full[n..];
      BufferDrains(wire, full, n);
      wire := wire + full[..n];
    }

    /** The network takes at least one byte, blocks, or fails. */
    method WriteNetwork() returns (r: NetworkWrite)
      requires Valid() && len > 0 && finished.None?
      modifies this`len, this`finished, this`wire, this`networkBlocks, buffer
      ensures Valid() && old(wire) <= wire
      ensures networkBlocks == old(networkBlocks) + (if r.NwBlock? then 1 else 0)
      ensures finished == if r.NwError? then Some(CloseError(false, r.code)) else None
      ensures if r.NwSuccess? then len < old(len) else len == old(len) && wire == old(wire)
    {
      var choice: int, code: int := *, *;
      r := if choice == 0 then NwSuccess else if choice == 1 then NwBlock else NwError(code);
      match r {
        case NwSuccess =>
          var n: int := *;
          Drain(if n <= 0 || n > len then len else n);
        case NwBlock =>
          networkBlocks := networkBlocks + 1;
        case NwError(_) =>
          Complete(CloseError(false, code));
      }
    }

    /** What is left to do: headers, document bytes, the end of the coding, buffered bytes. */
    ghost predicate Less(headers0: nat, unread0: nat, chunkData0: bool, len0: nat)
      reads this
    {
      || |headers| < headers0
      || (|headers| == headers0 && |unread| < unread0)
      || (|headers| == headers0 && |unread| == unread0 && chunkData0 && !chunkData)
      || (|headers| == headers0 && |unread| == unread0 && chunkData0 == chunkData && len < len0)
    }

    /** A write to the network; `again` unless it blocked with nothing else to do, or failed. */
    method WriteStep(sendRequired: bool) returns (again: bool)
      requires Valid() && finished.None? && len > 0
      modifies this`len, this`finished, this`wire, this`networkBlocks, buffer
      ensures Valid() && old(wire) <= wire && networkBlocks >= old(networkBlocks)
      ensures again ==> finished.None? && (len < old(len) || (!sendRequired && networkBlocks > old(networkBlocks)))
      ensures !again && finished.None? ==> networkBlocks > old(networkBlocks)
      ensures networkBlocks > old(networkBlocks) ==>
                finished.None? && len == old(len) && wire == old(wire) && again == !sendRequired
    {
      var r := WriteNetwork();
      again := r.NwSuccess? || (r.NwBlock? && !sendRequired);
    }

    ghost predicate Same(headers0: nat, unread0: nat, chunkData0: bool, len0: nat)
      reads this
    {
      |headers| == headers0 && |unread| == unread0 && chunkData == chunkData0 && len == len0
    }

    /** Headers and document bytes enter the buffer. */
    method QueueStep() returns (sendRequired: bool)
      requires Valid() && finished.None?
      modifies this`len, this`headers, this`parts, this`unread, this`chunkData, this`finished, this`documentBlocks,
               buffer
      ensures Valid() && documentBlocks >= old(documentBlocks)
      ensures finished.None? && len == 0 ==>
                if hasDocument then documentBlocks > old(documentBlocks) else headers == []
      ensures finished.None? ==>
                || Less(old(|headers|), old(|unread|), old(chunkData), old(len))
                || (Same(old(|headers|), old(|unread|), old(chunkData), old(len))
                    && (sendRequired || (!hasDocument && headers == [])))
      ensures old(headers) == [] && !hasDocument ==>
                !sendRequired && finished.None? && Same(old(|headers|), old(|unread|), old(chunkData), old(len))
    {
      sendRequired := false;
      if headers != [] {
        sendRequired := QueueHeaders();
      }
      if !sendRequired && hasDocument {
        sendRequired := QueueDocument();
      }
    }

    /** What is buffered goes to the network; without a document an empty buffer is the end. */
    method SendStep(sendRequired: bool) returns (again: bool)
      requires Valid() && finished.None? && (len == 0 && !hasDocument ==> headers == [])
      modifies this`len, this`finished, this`wire, this`networkBlocks, buffer
      ensures Valid() && old(wire) <= wire && networkBlocks >= old(networkBlocks)
      ensures again ==> finished.None? && (len < old(len) || (!sendRequired && networkBlocks > old(networkBlocks)))
      ensures !again && finished.None? ==>
                networkBlocks > old(networkBlocks) || (len == 0 && hasDocument && old(len) == 0)
      ensures networkBlocks > old(networkBlocks) ==>
                finished.None? && len == old(len) > 0 && wire == old(wire) && again == !sendRequired
    {
      if len > 0 {
        again := WriteStep(sendRequired);
        return;
      }
      if !hasDocument {
        Complete(HeNone);
      }
      again := false;
    }

    /**
     * One round: what can be queued enters the buffer, and what is buffered goes to the network. A
     * round that goes on leaves less to do, except that without a document a blocked network
     * changes nothing and the round is repeated.
     */
    method FlushStep() returns (again: bool)
      requires Valid() && finished.None?
      modifies this, buffer
      ensures Valid() && old(wire) <= wire
      ensures networkBlocks >= old(networkBlocks) && documentBlocks >= old(documentBlocks)
      ensures again ==>
                && finished.None?
                && (|| Less(old(|headers|), old(|unread|), old(chunkData), old(len))
                    || (!hasDocument && headers == [] && len > 0 && networkBlocks > old(networkBlocks)
                        && Same(old(|headers|), old(|unread|), old(chunkData), old(len))))
      ensures !again && finished.None? ==>
                networkBlocks > old(networkBlocks) || (len == 0 && documentBlocks > old(documentBlocks))
      ensures !hasDocument && old(headers) == [] && networkBlocks > old(networkBlocks) ==>
                again && wire == old(wire) && Same(old(|headers|), old(|unread|), old(chunkData), old(len))
    {
      var sendRequired := QueueStep();
      again := false;
      if finished.None? {
        again := SendStep(sendRequired);
      }
    }

    /**
     * Moves headers and document bytes to the network until one side blocks, something fails, or all
     * is sent. With a document it always ends. Without one, the source's loop does not return while
     * the network blocks: `patience` is how many such rounds are followed, and `spinning` says that
     * they were used up.
     */
    method FlushData(patience: nat) returns (spinning: bool)
      requires Valid() && finished.None?
      modifies this, buffer
      ensures Valid() && old(wire) <= wire
      ensures finished == Some(HeNone) ==> wire == head + Sent() && Flatten(parts) == document
      ensures spinning ==>
                && !hasDocument && headers == [] && len > 0 && finished.None?
                && networkBlocks > old(networkBlocks) + patience
      ensures !spinning && finished.None? ==>
                networkBlocks > old(networkBlocks) || (len == 0 && documentBlocks > old(documentBlocks))
    {
      var again, spins := true, 0;
      if len >= BUFFER_SIZE {
        again := WriteStep(true);
      }
      while again && spins <= patience
        invariant Valid() && old(wire) <= wire && (again ==> finished.None?)
        invariant networkBlocks >= old(networkBlocks) + spins && documentBlocks >= old(documentBlocks)
        invariant spins > 0 && again ==> !hasDocument && headers == []
        invariant spins > patience && again ==> len > 0
        invariant !again && finished.None? ==>
                    networkBlocks > old(networkBlocks) || (len == 0 && documentBlocks > old(documentBlocks))
        decreases again, patience + 1 - spins, |headers|, |unread|, chunkData, len
      {
        var headers0, len0 := headers, len;
        again := FlushStep();
        if again && !hasDocument && headers0 == [] && len == len0 {
          spins := spins + 1;
        }
      }
      spinning := again;
    }

    /**
     * At any moment of a chunked transfer, a receiver past the headers has a prefix of the document;
     * once the sender reports success, it has the document and completes on the last byte sent.
     */
    lemma {:induction false} ReceiverHolds(env: Env, p: Parser, arrived: seq<byte>)
      requires Valid() && chunked && p.state.ChunkSize? && p.chunked && head + arrived == wire
      ensures Parse(env, p, arrived).p.body <= p.body + document
      ensures finished == Some(HeNone) && hasDocument ==>
                var o := Parse(env, p, arrived);
                o.done == Some(HeNone) && o.used == |arrived| && o.p.body == p.body + document
    {
      assert headers == [] by {
        assert |wire + buffer[..len] + HeadRest(headers)| > |head|;
      }
      PrefixOfCoding(head, arrived, buffer[..len], Coding(true, chunkData, parts));
      CodingIsPrefix(chunkData, parts);
      PartialCodingGivesPrefix(env, p, parts, arrived);
      PrefixExtends(p.body, Flatten(parts), unread);
      if finished == Some(HeNone) && hasDocument {
        assert arrived == wire[|head|..] == Chunks(parts) + LAST_CHUNK;
        assert arrived + [] == arrived;
        ChunkedRoundTrip(env, p, parts, []);
      }
    }

    /** Chunked headers without a document: success is reported, but the receiver waits for a chunk. */
    lemma {:induction false} NoDocumentNoEnd(env: Env, p: Parser)
      requires Valid() && !hasDocument && finished == Some(HeNone) && p.state.ChunkSize?
      ensures wire == head && Parse(env, p, wire[|head|..]) == Outcome(p, 0, None)
    {
      assert head + [] == head && wire[|head|..] == [];
      WaitingParse(env, p, []);
    }
  }

  lemma PrefixOfCoding(head: seq<byte>, arrived: seq<byte>, buffered: seq<byte>, coding: seq<byte>)
    requires head + arrived + buffered == head + coding
    ensures arrived <= coding
  {
    assert coding == (head + coding)[|head|..] == arrived + buffered;
  }

  lemma CodingIsPrefix(open: bool, parts: seq<seq<byte>>)
    ensures Coding(true, open, parts) <= Chunks(parts) + LAST_CHUNK
  {
  }

  lemma PrefixExtends(a: seq<byte>, b: seq<byte>, c: seq<byte>)
    ensures a + b <= a + (b + c)
  {
    ConcatAssociative(a, b, c);
  }
}
