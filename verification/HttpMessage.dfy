/**
 * Whole messages: what the sender puts on the wire for a leader, header fields and a document, read
 * by the parser from its start state.
 */
module HttpMessage {
  import opened Bytes
  import opened HttpGrammar
  import opened HttpSend

  datatype Field = Field(name: seq<byte>, value: seq<byte>)

  const SPACE: byte := 32

  predicate Trimmed(s: seq<byte>) {
    s != [] ==> !IsSpace(s[0]) && !IsSpace(s[|s| - 1])
  }

  /** Nothing in the field could be taken for the end of a part of it. */
  predicate Clean(f: Field) {
    LF !in f.name && COLON !in f.name && LF !in f.value && Trimmed(f.value)
  }

  predicate AllClean(fields: seq<Field>) {
    forall i :: 0 <= i < |fields| ==> Clean(fields[i])
  }

  function Text(f: Field): seq<byte> {
    f.name + [COLON] + ([SPACE] + f.value)
  }

  /** The format "%.*s: %.*s": a colon and one space between name and value, nothing else. */
  lemma TextFormat(f: Field)
    ensures var t, n := Text(f), |f.name|;
            && |t| == n + 2 + |f.value| && t[..n] == f.name && t[n + 2..] == f.value
            && t[n] == ':' as int && t[n + 1] == ' ' as int
  {
  }

  /** "name: value" and a line end. */
  function Lines(fields: seq<Field>): seq<seq<byte>> {
    if fields == [] then [] else [Text(fields[0]) + CRLF] + Lines(fields[1..])
  }

  function Events(fields: seq<Field>): seq<Event> {
    if fields == [] then [] else [HeaderLine(fields[0].name, fields[0].value)] + Events(fields[1..])
  }

  // ------------------------------------------------------------------------ one line

  lemma TrimEndOf(s: seq<byte>, b: byte)
    requires !IsSpace(b)
    ensures TrimEnd(s + [b]) == s + [b]
  {
  }

  lemma TrimEndDrops(s: seq<byte>, b: byte)
    requires IsSpace(b)
    ensures TrimEnd(s + [b]) == TrimEnd(s)
  {
    assert (s + [b])[..|s|] == s;
  }

  /** A line that ends in CR and LF is its trimmed text. */
  lemma TextLeads(env: Env, p: Parser, line: seq<byte>)
    requires ReadsLines(p.state) && LF !in line && LineStep(env, p, TrimEnd(line)).Go?
    ensures Leads(env, p, line + CRLF, LineStep(env, p, TrimEnd(line)).p)
  {
    TrimEndDrops(line, 13);
    LineLeads(env, p, line + [13]);
    assert line + [13] + [LF] == line + CRLF;
  }

  /** The line without the space that an empty value leaves behind. */
  lemma TrimmedText(f: Field)
    requires Clean(f)
    ensures TrimEnd(Text(f)) == f.name + [COLON] + (if f.value == [] then [] else [SPACE] + f.value)
  {
    var start := f.name + [COLON];
    if f.value == [] {
      assert Text(f) == start + [SPACE];
      TrimEndDrops(start, SPACE);
      TrimEndOf(f.name, COLON);
      assert start + [] == start;
    } else {
      var n := |f.value| - 1;
      var init := start + ([SPACE] + f.value[..n]);
      assert Text(f) == init + [f.value[n]];
      TrimEndOf(init, f.value[n]);
    }
  }

  lemma TrimStartOf(value: seq<byte>)
    requires Trimmed(value)
    ensures TrimStart(if value == [] then [] else [SPACE] + value) == value
  {
    if value != [] {
      assert ([SPACE] + value)[1..] == value;
    }
  }

  /** The parser takes a field line apart into the field. */
  lemma FieldIsRead(env: Env, p: Parser, f: Field)
    requires Clean(f)
    ensures TrimEnd(Text(f)) != [] && HeaderStep(env, p, TrimEnd(Text(f))) == FieldStep(env, p, f.name, f.value)
  {
    var rest := if f.value == [] then [] else [SPACE] + f.value;
    var line := f.name + [COLON] + rest;
    TrimmedText(f);
    assert line[..|f.name|] == f.name && line[|f.name| + 1..] == rest;
    FindUnique(line, COLON, |f.name|);
    TrimStartOf(f.value);
  }

  lemma TextHasNoLineFeed(f: Field)
    requires Clean(f)
    ensures LF !in Text(f)
  {
  }

  lemma FieldLeads(env: Env, p: Parser, f: Field)
    requires p.state.Headers? && Clean(f) && FieldStep(env, p, f.name, f.value).Go?
    ensures Leads(env, p, Text(f) + CRLF, FieldStep(env, p, f.name, f.value).p)
  {
    FieldIsRead(env, p, f);
    TextHasNoLineFeed(f);
    TextLeads(env, p, Text(f));
  }

  // ------------------------------------------------------------------------ the head

  /** The parser after the fields, or the field that stopped it. */
  function FieldsStep(env: Env, p: Parser, fields: seq<Field>): Step
    decreases |fields|
  {
    if fields == [] then Go(p)
    else
      var r := FieldStep(env, p, fields[0].name, fields[0].value);
      if r.Stop? then r else FieldsStep(env, r.p, fields[1..])
  }

  lemma {:induction false} FieldsLead(env: Env, p: Parser, fields: seq<Field>)
    requires p.state.Headers? && AllClean(fields) && FieldsStep(env, p, fields).Go?
    ensures var q := FieldsStep(env, p, fields).p;
            && Leads(env, p, Flatten(Lines(fields)), q)
            && q.state.Headers? && q.body == p.body && q.events == p.events + Events(fields)
    decreases |fields|
  {
    if fields == [] {
      LeadsNowhere(env, p);
      assert p.events + [] == p.events;
    } else {
      var f, q := fields[0], FieldStep(env, p, fields[0].name, fields[0].value).p;
      var line, later := Text(f) + CRLF, Lines(fields[1..]);
      FieldLeads(env, p, f);
      FieldsLead(env, q, fields[1..]);
      LeadsTransitive(env, p, line, q, Flatten(later), FieldsStep(env, p, fields).p);
      assert ([line] + later)[1..] == later;
      ConcatAssociative(p.events, [HeaderLine(f.name, f.value)], Events(fields[1..]));
    }
  }

  predicate IsCoding(f: Field) {
    SameIgnoringCase(f.name, TRANSFER_ENCODING)
  }

  predicate IsLength(f: Field) {
    SameIgnoringCase(f.name, CONTENT_LENGTH)
  }

  /** The last field of its kind. */
  predicate LastCoding(fields: seq<Field>, i: nat) {
    i < |fields| && IsCoding(fields[i]) && forall j :: i < j < |fields| ==> !IsCoding(fields[j])
  }

  predicate LastLength(fields: seq<Field>, i: nat) {
    i < |fields| && IsLength(fields[i]) && forall j :: i < j < |fields| ==> !IsLength(fields[j])
  }

  /** Fields of other kinds leave the delimitation of the body alone. */
  lemma {:induction false} OtherFieldsKeep(env: Env, p: Parser, fields: seq<Field>)
    requires FieldsStep(env, p, fields).Go?
    ensures (forall j :: 0 <= j < |fields| ==> !IsCoding(fields[j])) ==>
              FieldsStep(env, p, fields).p.chunked == p.chunked
    ensures (forall j :: 0 <= j < |fields| ==> !IsLength(fields[j])) ==>
              FieldsStep(env, p, fields).p.dataSize == p.dataSize
    decreases |fields|
  {
    if fields != [] {
      FieldMeaning(env, p, fields[0].name, fields[0].value);
      OtherFieldsKeep(env, FieldStep(env, p, fields[0].name, fields[0].value).p, fields[1..]);
    }
  }

  /** The last Transfer-Encoding says whether the body is chunked. */
  lemma {:induction false} LastCodingDecides(env: Env, p: Parser, fields: seq<Field>, i: nat)
    requires FieldsStep(env, p, fields).Go? && LastCoding(fields, i)
    ensures FieldsStep(env, p, fields).p.chunked <==> SameIgnoringCase(fields[i].value, CHUNKED)
    decreases |fields|
  {
    var q := FieldStep(env, p, fields[0].name, fields[0].value).p;
    FieldMeaning(env, p, fields[0].name, fields[0].value);
    if i == 0 {
      OtherFieldsKeep(env, q, fields[1..]);
    } else {
      LastCodingDecides(env, q, fields[1..], i - 1);
    }
  }

  /** The last Content-Length says how long it is. */
  lemma {:induction false} LastLengthDecides(env: Env, p: Parser, fields: seq<Field>, i: nat)
    requires FieldsStep(env, p, fields).Go? && LastLength(fields, i)
    ensures env.scanUnsigned(fields[i].value) == Some(FieldsStep(env, p, fields).p.dataSize)
    decreases |fields|
  {
    var q := FieldStep(env, p, fields[0].name, fields[0].value).p;
    FieldMeaning(env, p, fields[0].name, fields[0].value);
    if i == 0 {
      OtherFieldsKeep(env, q, fields[1..]);
    } else {
      LastLengthDecides(env, q, fields[1..], i - 1);
    }
  }

  /** The last Transfer-Encoding, if there is one, announces a chunked body, or does not. */
  ghost predicate Announces(fields: seq<Field>, chunked: bool) {
    if chunked then exists i: nat :: LastCoding(fields, i) && SameIgnoringCase(fields[i].value, CHUNKED)
    else
      || (forall j :: 0 <= j < |fields| ==> !IsCoding(fields[j]))
      || exists i: nat :: LastCoding(fields, i) && !SameIgnoringCase(fields[i].value, CHUNKED)
  }

  /** The last Content-Length announces n bytes. */
  ghost predicate AnnouncesLength(env: Env, fields: seq<Field>, n: nat) {
    n < SIZE_UNKNOWN && exists i: nat :: LastLength(fields, i) && env.scanUnsigned(fields[i].value) == Some(n)
  }

  /** The parser behind the fields. */
  function BehindFields(env: Env, leader: seq<byte>, fields: seq<Field>): Step {
    FieldsStep(env, START.(state := Headers, events := [LeaderLine(leader)]), fields)
  }

  /** What the fields announce is what the parser goes by. */
  lemma {:induction false} AnnouncedIsRead(env: Env, leader: seq<byte>, fields: seq<Field>)
    requires BehindFields(env, leader, fields).Go?
    ensures forall chunked :: Announces(fields, chunked) ==> BehindFields(env, leader, fields).p.chunked == chunked
    ensures forall n :: AnnouncesLength(env, fields, n) ==> BehindFields(env, leader, fields).p.dataSize == n
  {
    var p := START.(state := Headers, events := [LeaderLine(leader)]);
    OtherFieldsKeep(env, p, fields);
    forall i: nat | LastCoding(fields, i)
      ensures FieldsStep(env, p, fields).p.chunked <==> SameIgnoringCase(fields[i].value, CHUNKED)
    {
      LastCodingDecides(env, p, fields, i);
    }
    forall i: nat | LastLength(fields, i)
      ensures env.scanUnsigned(fields[i].value) == Some(FieldsStep(env, p, fields).p.dataSize)
    {
      LastLengthDecides(env, p, fields, i);
    }
  }

  /** The listener leaves the announced size alone. */
  predicate ListenerKeepsSize(env: Env, leader: seq<byte>, fields: seq<Field>) {
    var p := BehindFields(env, leader, fields).p;
    env.headersComplete(p.events, p.chunked, p.dataSize).1 == p.dataSize
  }

  /** The parser behind the head, if nothing in it stops the parser. */
  function AfterHead(env: Env, leader: seq<byte>, fields: seq<Field>): Option<Parser> {
    var r := BehindFields(env, leader, fields);
    if env.parseLeader(leader) != HeNone || r.Stop? then None
    else
      var (e, size, _) := env.headersComplete(r.p.events, r.p.chunked, r.p.dataSize);
      if e != HeNone then None
      else
        Some(r.p.(state := BodyState(r.p), dataSize := size,
                  events := r.p.events + [HeadersDone(r.p.chunked, r.p.dataSize)]))
  }

  /** A leader line, header lines and an empty line, as they stand on the wire. */
  function HeadText(leader: seq<byte>, fields: seq<Field>): seq<byte> {
    leader + CRLF + (Flatten(Lines(fields)) + CRLF)
  }

  predicate CleanLeader(leader: seq<byte>) {
    LF !in leader && TrimEnd(leader) == leader
  }

  lemma {:induction false} LeaderLeads(env: Env, leader: seq<byte>)
    requires CleanLeader(leader) && env.parseLeader(leader) == HeNone
    ensures Leads(env, START, leader + CRLF, START.(state := Headers, events := [LeaderLine(leader)]))
  {
    assert [] + [LeaderLine(leader)] == [LeaderLine(leader)];
    TextLeads(env, START, leader);
  }

  lemma {:induction false} EmptyLineEndsHead(env: Env, p: Parser)
    requires p.state.Headers? && LineStep(env, p, []).Go?
    ensures Leads(env, p, CRLF, LineStep(env, p, []).p)
  {
    assert TrimEnd([]) == [];
    TextLeads(env, p, []);
    assert [] + CRLF == CRLF;
  }

  /** The head is read back: the leader, every field in order, and what the listener makes of them. */
  lemma {:induction false} HeadLeads(env: Env, leader: seq<byte>, fields: seq<Field>)
    requires CleanLeader(leader) && AllClean(fields) && AfterHead(env, leader, fields).Some?
    ensures var q := AfterHead(env, leader, fields).value;
            && Leads(env, START, HeadText(leader, fields), q) && q.body == []
            && [LeaderLine(leader)] + Events(fields) <= q.events
  {
    var p := START.(state := Headers, events := [LeaderLine(leader)]);
    var q, r := FieldsStep(env, p, fields).p, AfterHead(env, leader, fields).value;
    LeaderLeads(env, leader);
    FieldsLead(env, p, fields);
    assert LineStep(env, q, []) == Go(r);
    EmptyLineEndsHead(env, q);
    LeadsTransitive(env, p, Flatten(Lines(fields)), q, CRLF, r);
    LeadsTransitive(env, START, leader + CRLF, p, Flatten(Lines(fields)) + CRLF, r);
  }

  // ------------------------------------------------------------------------ the message

  /** A message with a chunked body is read back from the first byte to the last. */
  lemma {:induction false} ChunkedMessage(
    env: Env, leader: seq<byte>, fields: seq<Field>, parts: seq<seq<byte>>, rest: seq<byte>)
    requires CleanLeader(leader) && AllClean(fields) && AfterHead(env, leader, fields).Some?
    requires AfterHead(env, leader, fields).value.chunked && Chunkable(parts)
    ensures var text := HeadText(leader, fields) + (Chunks(parts) + LAST_CHUNK);
            var o := Parse(env, START, text + rest);
            && o.done == Some(HeNone) && o.used == |text| && o.p.body == Flatten(parts)
            && o.p.events == AfterHead(env, leader, fields).value.events
  {
    var head, coded, q := HeadText(leader, fields), Chunks(parts) + LAST_CHUNK, AfterHead(env, leader, fields).value;
    HeadLeads(env, leader, fields);
    ChunkedRoundTrip(env, q, parts, rest);
    ConcatAssociative(head, coded, rest);
    Resume(env, START, head, q, coded + rest, head + coded + rest);
    assert [] + Flatten(parts) == Flatten(parts);
  }

  /** A body of known length ends the message when it is all there. */
  lemma {:induction false} SizedBodyParses(env: Env, p: Parser, document: seq<byte>, rest: seq<byte>)
    requires p.state.Data? && !p.chunked && p.dataSize == |document| < SIZE_UNKNOWN && p.body == []
    ensures var o := Parse(env, p, document + rest);
            o.done == Some(HeNone) && o.used == |document| && o.p.body == document && o.p.events == p.events
  {
    if document == [] {
      assert document + rest == rest;
    } else {
      DataParses(env, p, document, rest);
      assert [] + document == document;
    }
  }

  /** So is a message whose length the head announces. */
  lemma {:induction false} SizedMessage(
    env: Env, leader: seq<byte>, fields: seq<Field>, document: seq<byte>, rest: seq<byte>)
    requires CleanLeader(leader) && AllClean(fields) && AfterHead(env, leader, fields).Some?
    requires var q := AfterHead(env, leader, fields).value;
             !q.chunked && q.dataSize == |document| < SIZE_UNKNOWN
    ensures var text := HeadText(leader, fields) + document;
            var o := Parse(env, START, text + rest);
            && o.done == Some(HeNone) && o.used == |text| && o.p.body == document
            && o.p.events == AfterHead(env, leader, fields).value.events
  {
    var head, q := HeadText(leader, fields), AfterHead(env, leader, fields).value;
    HeadLeads(env, leader, fields);
    SizedBodyParses(env, q, document, rest);
    ConcatAssociative(head, document, rest);
    Resume(env, START, head, q, document + rest, head + document + rest);
  }

  // ------------------------------------------------------------------------ the sender's wire

  predicate AllFit(headers: seq<seq<byte>>) {
    forall i :: 0 <= i < |headers| ==> |headers[i]| < BUFFER_SIZE - 3
  }

  lemma {:induction false} HeadOnWire(leader: seq<byte>, fields: seq<Field>)
    requires |leader| + (if fields == [] then 4 else 2) < BUFFER_SIZE && AllFit(Lines(fields))
    ensures Head(leader, Lines(fields)) == HeadText(leader, fields)
  {
    AllHeadersFit(Lines(fields));
    HeadIsWhole(leader, Lines(fields));
  }

  /** The sender has finished a message with this leader and these fields, all of which fit. */
  ghost predicate HasSent(s: HttpSender, leader: seq<byte>, fields: seq<Field>)
    reads s, s.buffer
  {
    && s.Valid() && s.hasDocument && s.finished == Some(HeNone)
    && |leader| + (if fields == [] then 4 else 2) < BUFFER_SIZE
    && s.head == Head(leader, Lines(fields)) && AllFit(Lines(fields))
  }

  /**
   * The parser can read the head, and the last fields that announce it say how the body is
   * delimited: chunked, or by the length n, which the listener leaves alone.
   */
  ghost predicate Understands(env: Env, leader: seq<byte>, fields: seq<Field>, chunked: bool, n: nat) {
    && CleanLeader(leader) && AllClean(fields) && AfterHead(env, leader, fields).Some?
    && Announces(fields, chunked)
    && (!chunked ==> AnnouncesLength(env, fields, n) && ListenerKeepsSize(env, leader, fields))
  }

  /**
   * End to end: once the sender reports success, a parser that starts with the first byte of the
   * wire reports every field and the document, and completes without error on the last byte.
   */
  lemma {:induction false} MessageArrives(s: HttpSender, env: Env, leader: seq<byte>, fields: seq<Field>)
    requires HasSent(s, leader, fields) && Understands(env, leader, fields, s.chunked, |s.document|)
    ensures var o := Parse(env, START, s.wire);
            && o.done == Some(HeNone) && o.used == |s.wire| && o.p.body == s.document
            && [LeaderLine(leader)] + Events(fields) <= o.p.events
  {
    HeadOnWire(leader, fields);
    HeadLeads(env, leader, fields);
    AnnouncedIsRead(env, leader, fields);
    assert s.wire + [] == s.wire;
    if s.chunked {
      ChunkedMessage(env, leader, fields, s.parts, []);
    } else {
      SizedMessage(env, leader, fields, s.document, []);
    }
  }
}
