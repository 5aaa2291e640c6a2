/**
 * The incremental HTTP parser and the receive loop, as objects that update their fields in place.
 * The network and the document are adversaries: every `*` below is a choice made by one of them.
 */
module HttpReceive {
  import opened Bytes
  import opened HttpGrammar

  datatype ProcessResult = PrContinue | PrBlock | PrComplete

  const MAX_READ_COUNT: nat := 20

  ghost predicate Ends(env: Env, p: Parser, used: seq<byte>, q: Parser, error: HttpError, rest: seq<byte>)
    requires !p.state.Complete?
  {
    Parse(env, p, used + rest) == Outcome(q, |used|, Some(error))
  }

  /** Consuming `used` completes the message with `error`, whatever follows. */
  ghost predicate Finishes(env: Env, p: Parser, used: seq<byte>, q: Parser, error: HttpError) {
    !p.state.Complete? && forall rest: seq<byte> :: Ends(env, p, used, q, error, rest)
  }

  lemma {:induction false} LineFinishes(env: Env, p0: Parser, s: seq<byte>, p: Parser, line: seq<byte>)
    requires Leads(env, p0, s, p) && ReadsLines(p.state) && LF !in line
    requires LineStep(env, p, TrimEnd(line)).Stop?
    ensures var r := LineStep(env, p, TrimEnd(line));
            Finishes(env, p0, s + line + [LF], r.p, r.error)
  {
    var r := LineStep(env, p, TrimEnd(line));
    forall rest: seq<byte>
      ensures Ends(env, p0, s + line + [LF], r.p, r.error, rest)
    {
      LineParses(env, p, line, rest);
      Resume(env, p0, s, p, line + [LF] + rest, s + line + [LF] + rest);
    }
  }

  lemma {:induction false} BodyFinishes(env: Env, p0: Parser, s: seq<byte>, p: Parser)
    requires Leads(env, p0, s, p) && p.state.Data? && p.dataSize == 0 && !p.chunked
    ensures Finishes(env, p0, s, p, HeNone)
  {
    forall rest: seq<byte>
      ensures Ends(env, p0, s, p, HeNone, rest)
    {
      Resume(env, p0, s, p, rest, s + rest);
    }
  }

  lemma {:induction false} FinishesAfter(
    env: Env, p0: Parser, s: seq<byte>, p: Parser, t: seq<byte>, q: Parser, error: HttpError)
    requires Leads(env, p0, s, p) && Finishes(env, p, t, q, error)
    ensures Finishes(env, p0, s + t, q, error)
  {
    forall rest: seq<byte>
      ensures Ends(env, p0, s + t, q, error, rest)
    {
      assert Ends(env, p, t, q, error, rest);
      Resume(env, p0, s, p, t + rest, s + t + rest);
    }
  }

  lemma SlicesNest(buffer: array<byte>, from: nat, n: nat, m: nat)
    requires m <= n && from + n <= buffer.Length
    ensures buffer[from..from + n][..m] == buffer[from..from + m]
  {
  }

  lemma {:induction false} LeadsOn(
    env: Env, p0: Parser, buffer: array<byte>, i: nat, p: Parser, j: nat, q: Parser)
    requires i <= j <= buffer.Length && Leads(env, p0, buffer[..i], p) && Leads(env, p, buffer[i..j], q)
    ensures Leads(env, p0, buffer[..j], q)
  {
    assert buffer[..i] + buffer[i..j] == buffer[..j];
    LeadsTransitive(env, p0, buffer[..i], p, buffer[i..j], q);
  }

  lemma {:induction false} FinishesOn(
    env: Env, p0: Parser, buffer: array<byte>, i: nat, p: Parser, j: nat, q: Parser, error: HttpError)
    requires i <= j <= buffer.Length && Leads(env, p0, buffer[..i], p) && Finishes(env, p, buffer[i..j], q, error)
    ensures Finishes(env, p0, buffer[..j], q, error)
  {
    assert buffer[..i] + buffer[i..j] == buffer[..j];
    FinishesAfter(env, p0, buffer[..i], p, buffer[i..j], q, error);
  }

  class HttpParser {
    const env: Env
    var state: State
    var chunked: bool
    var dataSize: Size
    var events: seq<Event>
    var body: seq<byte>
    /** How often the document or the listener said to wait, and how often the document failed. */
    ghost var stalls: nat
    ghost var failures: nat

    function Abs(): Parser
      reads this
    {
      Parser(state, chunked, dataSize, events, body)
    }

    constructor (env: Env)
      ensures this.env == env && Abs() == START
    {
      this.env := env;
      state, chunked, dataSize := Leader, false, SIZE_UNKNOWN;
      events, body := [], [];
      stalls, failures := 0, 0;
    }

    predicate IsValidEndOfInput()
      reads this
    {
      state.Data? && dataSize == SIZE_UNKNOWN
    }

    method ProcessLine(line: seq<byte>) returns (result: ProcessResult, error: HttpError)
      requires ReadsLines(state)
      modifies this
      ensures var step := LineStep(env, old(Abs()), line);
              && Abs() == step.p
              && (step.Stop? ==> result.PrComplete? && error == step.error)
              && (step.Go? ==> !result.PrComplete? && error == HeNone)
      ensures failures == old(failures) && stalls == old(stalls) + (if result.PrBlock? then 1 else 0)
    {
      error := HeNone;
      result := PrContinue;
      match state {
        case Leader =>
          state := Headers;
          events := events + [LeaderLine(line)];
          error := env.parseLeader(line);
          result := if error == HeNone then PrContinue else PrComplete;
        case Headers =>
          if |line| > 0 {
            result, error := ProcessHeaderLine(line);
          } else {
            state := if chunked then ChunkSize else Data;
            result, error := ProcessHeaderComplete();
          }
        case ChunkSize =>
          if |line| > 0 {
            var (size, whole) := ChunkSizeOf(env, line);
            dataSize := size;
            if !whole {
              return PrComplete, HeProtocol;
            }
            state := if dataSize == 0 then Trailers else Data;
          } else {
            return PrComplete, HeProtocol;
          }
        case ChunkTerm =>
          if |line| > 0 {
            return PrComplete, HeProtocol;
          }
          state := if chunked then ChunkSize else Data;
        case Trailers =>
          if |line| == 0 {
            return PrComplete, HeNone;
          }
      }
    }

    method ProcessHeaderLine(line: seq<byte>) returns (result: ProcessResult, error: HttpError)
      requires line != []
      modifies this
      ensures var step := HeaderStep(env, old(Abs()), line);
              && Abs() == step.p
              && (step.Stop? ==> result.PrComplete? && error == step.error)
              && (step.Go? ==> result.PrContinue? && error == HeNone)
      ensures failures == old(failures) && stalls == old(stalls)
    {
      var colon := Find(line, COLON);
      if colon == |line| {
        return PrComplete, HeProtocol;
      }
      var name, value := line[..colon], TrimStart(line[colon + 1..]);
      if SameIgnoringCase(name, CONTENT_LENGTH) {
        var n := env.scanUnsigned(value);
        if n.None? {
          return PrComplete, HeProtocol;
        }
        dataSize := n.value;
      } else if SameIgnoringCase(name, TRANSFER_ENCODING) {
        if SameIgnoringCase(value, CHUNKED) {
          chunked := true;
        } else if SameIgnoringCase(value, IDENTITY) {
          chunked := false;
        } else {
          return PrComplete, HeProtocol;
        }
      }
      events := events + [HeaderLine(name, value)];
      return PrContinue, HeNone;
    }

    /** The listener may change the size, refuse the message, or take over the reading of the body. */
    method ProcessHeaderComplete() returns (result: ProcessResult, error: HttpError)
      modifies this`dataSize, this`events, this`stalls
      ensures var (e, size, takesOver) := env.headersComplete(old(events), chunked, old(dataSize));
              && dataSize == size
              && events == old(events) + [HeadersDone(chunked, old(dataSize))]
              && error == e
              && result == if e != HeNone then PrComplete else if takesOver then PrBlock else PrContinue
      ensures stalls == old(stalls) + (if result.PrBlock? then 1 else 0)
    {
      var (e, size, takesOver) := env.headersComplete(events, chunked, dataSize);
      events := events + [HeadersDone(chunked, dataSize)];
      dataSize := size;
      error := e;
      result := if e != HeNone then PrComplete else if takesOver then PrBlock else PrContinue;
      stalls := stalls + (if result.PrBlock? then 1 else 0);
    }

    /** The document takes some of the data, or blocks, or fails. */
    method ProcessData(data: seq<byte>) returns (result: ProcessResult, read: nat, error: HttpError)
      requires data != []
      modifies this`body, this`stalls, this`failures
      ensures stalls == old(stalls) + (if result.PrBlock? then 1 else 0)
      ensures failures == old(failures) + (if result.PrComplete? then 1 else 0)
      ensures result.PrContinue? ==> 0 < read <= |data| && body == old(body) + data[..read]
      ensures !result.PrContinue? ==> body == old(body)
      ensures error == if result.PrComplete? then HeStream else HeNone
    {
      result, read, error := *, 0, HeNone;
      if result.PrContinue? {
        read := *;
        if read == 0 || |data| < read {
          read := |data|;
        }
        body := body + data[..read];
      } else if result.PrComplete? {
        error := HeStream;
        failures := failures + 1;
      } else {
        stalls := stalls + 1;
      }
    }

    /** The end of the line that starts at `from`, or `len`. */
    method FindLineEnd(buffer: array<byte>, from: nat, len: nat) returns (pos: nat)
      requires from <= len <= buffer.Length
      ensures from <= pos <= len && LF !in buffer[from..pos] && (pos < len ==> buffer[pos] == LF)
    {
      pos := from;
      while pos < len && buffer[pos] != LF
        invariant from <= pos <= len && LF !in buffer[from..pos]
      {
        assert buffer[from..pos + 1] == buffer[from..pos] + [buffer[pos]];
        pos := pos + 1;
      }
    }

    /** The line buffer[from..to] without trailing white space. */
    method TrimLine(buffer: array<byte>, from: nat, to: nat) returns (line: seq<byte>)
      requires from <= to <= buffer.Length
      ensures line == TrimEnd(buffer[from..to])
    {
      var n := to - from;
      while n > 0 && IsSpace(buffer[from + n - 1])
        invariant 0 <= n <= to - from
        invariant TrimEnd(buffer[from..to]) == TrimEnd(buffer[from..from + n])
      {
        assert buffer[from..from + n][..n - 1] == buffer[from..from + n - 1];
        n := n - 1;
      }
      line := buffer[from..from + n];
    }

    /** The line buffer[from..pos] and its line feed are processed. */
    method ConsumeLine(buffer: array<byte>, from: nat, pos: nat) returns (result: ProcessResult, error: HttpError)
      requires from <= pos < buffer.Length && LF !in buffer[from..pos] && buffer[pos] == LF
      requires ReadsLines(state)
      modifies this
      ensures !state.Complete?
      ensures !result.PrComplete? ==> error == HeNone && Leads(env, old(Abs()), buffer[from..pos + 1], Abs())
      ensures result.PrComplete? ==> Finishes(env, old(Abs()), buffer[from..pos + 1], Abs(), error)
      ensures failures == old(failures) && stalls == old(stalls) + (if result.PrBlock? then 1 else 0)
    {
      ghost var p, raw := Abs(), buffer[from..pos];
      assert [] + raw + [LF] == buffer[from..pos + 1] == raw + [LF];
      var line := TrimLine(buffer, from, pos);
      result, error := ProcessLine(line);
      if result.PrComplete? {
        LeadsNowhere(env, p);
        LineFinishes(env, p, [], p, raw);
      } else {
        LineLeads(env, p, raw);
      }
    }

    /** Body bytes from buffer[from..to] go to the document. */
    method ConsumeData(buffer: array<byte>, from: nat, to: nat)
      returns (result: ProcessResult, read: nat, error: HttpError)
      requires from < to <= buffer.Length && state.Data? && dataSize != 0
      modifies this
      ensures !state.Complete?
      ensures result.PrContinue? ==> 0 < read <= to - from
      ensures !result.PrContinue? ==> read == 0
      ensures Leads(env, old(Abs()), buffer[from..from + read], Abs())
      ensures error == if result.PrComplete? then HeStream else HeNone
      ensures stalls == old(stalls) + (if result.PrBlock? then 1 else 0)
      ensures failures == old(failures) + (if result.PrComplete? then 1 else 0)
    {
      ghost var p := Abs();
      var available := to - from;
      if dataSize != SIZE_UNKNOWN && available > dataSize {
        available := dataSize;
      }
      result, read, error := ProcessData(buffer[from..from + available]);
      if !result.PrContinue? {
        read := 0;
        assert buffer[from..from] == [];
        LeadsNowhere(env, p);
      } else {
        if dataSize != SIZE_UNKNOWN {
          dataSize := dataSize - read;
        }
        SlicesNest(buffer, from, available, read);
        DataLeads(env, p, buffer[from..from + read]);
      }
    }

    /**
     * Where a call that started in p0 stands: the bytes used lead here, unless the message is
     * complete; it stops to continue later only where it waits; and a result that is not the
     * document's failure is the result of the stream.
     */
    ghost predicate Reached(
      p0: Parser, buffer: array<byte>, processed: nat, len: nat, stop: bool, result: ProcessResult, error: HttpError,
      failed: bool)
      reads this, buffer
    {
      && processed <= len <= buffer.Length && !state.Complete?
      && (!stop ==> result.PrContinue?)
      && (failed ==> result.PrComplete? && error == HeStream)
      && (!result.PrComplete? || failed ==> Leads(env, p0, buffer[..processed], Abs()))
      && (stop && result.PrContinue? ==> Waits(Abs(), buffer[processed..len]))
      && (result.PrComplete? && !failed ==> Finishes(env, p0, buffer[..processed], Abs(), error))
    }

    /** A line, if there is a whole one. */
    method LineRound(buffer: array<byte>, from: nat, len: nat, ghost p0: Parser)
      returns (stop: bool, result: ProcessResult, processed: nat, error: HttpError)
      requires from <= len <= buffer.Length && ReadsLines(state) && Leads(env, p0, buffer[..from], Abs())
      modifies this
      ensures Reached(p0, buffer, processed, len, stop, result, error, false)
      ensures stalls == old(stalls) + (if result.PrBlock? then 1 else 0) && failures == old(failures)
      ensures !stop ==> processed > from
      ensures LF !in buffer[from..len] ==> stop && result.PrContinue? && processed == from && Abs() == old(Abs())
    {
      ghost var p := Abs();
      var pos := FindLineEnd(buffer, from, len);
      if pos >= len {
        return true, PrContinue, from, HeNone;
      }
      assert buffer[from..len][pos - from] == LF;
      result, error := ConsumeLine(buffer, from, pos);
      processed := pos + 1;
      if result.PrComplete? {
        FinishesOn(env, p0, buffer, from, p, processed, Abs(), error);
      } else {
        LeadsOn(env, p0, buffer, from, p, processed, Abs());
      }
      stop := !result.PrContinue?;
    }

    /** The end of a chunk or of the body. */
    method EndRound(buffer: array<byte>, from: nat, len: nat, ghost p0: Parser)
      returns (stop: bool, result: ProcessResult)
      requires from <= len <= buffer.Length && Leads(env, p0, buffer[..from], Abs())
      requires state.Data? && dataSize == 0
      modifies this`state
      ensures Reached(p0, buffer, from, len, stop, result, HeNone, false)
      ensures !result.PrBlock? && (!stop ==> !state.Data?)
    {
      ghost var p := Abs();
      if !chunked {
        BodyFinishes(env, p0, buffer[..from], p);
        return true, PrComplete;
      }
      state := ChunkTerm;
      ChunkEndLeads(env, p);
      assert buffer[from..from] == [];
      LeadsOn(env, p0, buffer, from, p, from, Abs());
      return false, PrContinue;
    }

    /** Body bytes, if there are any. */
    method DataRound(buffer: array<byte>, from: nat, len: nat, ghost p0: Parser)
      returns (stop: bool, result: ProcessResult, processed: nat, error: HttpError)
      requires from <= len <= buffer.Length && Leads(env, p0, buffer[..from], Abs())
      requires state.Data? && dataSize != 0
      modifies this
      ensures Reached(p0, buffer, processed, len, stop, result, error, result.PrComplete?)
      ensures stalls == old(stalls) + (if result.PrBlock? then 1 else 0)
      ensures failures == old(failures) + (if result.PrComplete? then 1 else 0)
      ensures !stop ==> processed > from
      ensures from == len ==> stop && result.PrContinue? && processed == from && Abs() == old(Abs())
    {
      ghost var p := Abs();
      if from == len {
        assert buffer[from..len] == [];
        return true, PrContinue, from, HeNone;
      }
      var read;
      result, read, error := ConsumeData(buffer, from, len);
      processed := from + read;
      LeadsOn(env, p0, buffer, from, p, processed, Abs());
      stop := !result.PrContinue?;
    }

    /** One element of the input. */
    method Round(buffer: array<byte>, from: nat, len: nat, ghost p0: Parser)
      returns (stop: bool, result: ProcessResult, processed: nat, error: HttpError, ghost failed: bool)
      requires from <= len <= buffer.Length && !state.Complete? && Leads(env, p0, buffer[..from], Abs())
      modifies this
      ensures Reached(p0, buffer, processed, len, stop, result, error, failed)
      ensures stalls == old(stalls) + (if result.PrBlock? then 1 else 0)
      ensures failures == old(failures) + (if failed then 1 else 0)
      ensures !stop ==> processed > from || (processed == from && old(state).Data? && !state.Data?)
      ensures old(Waits(Abs(), buffer[from..len])) ==>
                stop && result.PrContinue? && processed == from && Abs() == old(Abs())
    {
      failed := false;
      if ReadsLines(state) {
        stop, result, processed, error := LineRound(buffer, from, len, p0);
      } else if dataSize == 0 {
        processed, error := from, HeNone;
        stop, result := EndRound(buffer, from, len, p0);
      } else {
        stop, result, processed, error := DataRound(buffer, from, len, p0);
        failed := result.PrComplete?;
      }
    }

    /**
     * One call on buffer[..len]. The bytes it uses lead from the old state to the new one, it stops
     * early only when it cannot go on, and a result it reports is the result of the stream.
     */
    method Process(buffer: array<byte>, len: nat)
      returns (result: ProcessResult, processed: nat, error: HttpError)
      requires len <= buffer.Length && !state.Complete?
      modifies this
      ensures failures == old(failures) || failures == old(failures) + 1
      ensures Reached(old(Abs()), buffer, processed, len, true, result, error, failures > old(failures))
      ensures stalls == old(stalls) + (if result.PrBlock? then 1 else 0)
      ensures Waits(old(Abs()), buffer[..len]) ==> result.PrContinue? && processed == 0 && Abs() == old(Abs())
    {
      processed, error := 0, HeNone;
      ghost var p0, failed := Abs(), false;
      LeadsNowhere(env, p0);
      assert buffer[..0] == [] && buffer[0..len] == buffer[..len];
      while true
        invariant processed <= len && !state.Complete?
        invariant Leads(env, p0, buffer[..processed], Abs())
        invariant stalls == old(stalls) && failures == old(failures)
        invariant Waits(p0, buffer[..len]) ==> processed == 0 && Abs() == p0
        decreases len - processed, if state.Data? then 1 else 0
      {
        var stop;
        stop, result, processed, error, failed := Round(buffer, processed, len, p0);
        if stop {
          return;
        }
      }
    }
  }

  datatype ReadResult = RdData | RdBlock | RdClosed(code: int)

  /** Why the receive loop returned. */
  datatype Exit = Starved | Blocked | Waiting | Parsed | DocumentFailed | Overflowed | Closed(code: int)

  /** The receiving half of HttpBase: a fixed buffer in front of the parser. */
  class HttpReceiver {
    const parser: HttpParser
    const buffer: array<byte>
    var len: nat
    ghost var received: seq<byte>
    /** How often the network blocked, and how often it closed. */
    ghost var blocks: nat
    ghost var closes: nat
    /** How often the buffer was processed. */
    ghost var rounds: nat

    /** The buffer holds the end of what was received; the parser stands for everything before it. */
    ghost predicate Valid()
      reads this, parser, buffer
    {
      && buffer.Length == BUFFER_SIZE
      && len <= BUFFER_SIZE && len <= |received|
      && buffer[..len] == received[|received| - len..]
      && Leads(parser.env, START, Used(), parser.Abs())
    }

    ghost function Used(): seq<byte>
      requires len <= |received|
      reads this
    {
      received[..|received| - len]
    }

    /** The buffer is full and the parser cannot use any of it. */
    ghost predicate Stuck()
      reads this, parser, buffer
    {
      buffer.Length == BUFFER_SIZE && len == BUFFER_SIZE && LF !in buffer[..len] && ReadsLines(parser.state)
    }

    /** Nothing that was received is left to process. */
    ghost predicate Idle()
      reads this, parser, buffer
    {
      len <= buffer.Length && Waits(parser.Abs(), buffer[..len])
    }

    /**
     * The receiver is where one call on everything received would leave it exactly when it is idle:
     * only the network reads of the loop, never its processing, can get ahead of it.
     */
    lemma {:induction false} UpToDate()
      requires Valid()
      ensures Parse(parser.env, START, received) == Outcome(parser.Abs(), |received| - len, None) <==> Idle()
    {
      var used := |received| - len;
      assert received[used..] == buffer[..len];
      if Idle() {
        WaitingIsParseOfAll(parser.env, received, used, parser.Abs());
      } else if Parse(parser.env, START, received) == Outcome(parser.Abs(), used, None) {
        ParseLeads(parser.env, START, received);
      }
    }

    constructor (env: Env)
      ensures Valid() && Idle() && parser.env == env && received == [] && len == 0
      ensures fresh(parser) && fresh(buffer)
    {
      parser := new HttpParser(env);
      buffer := new byte[BUFFER_SIZE](_ => 0);
      len, received, blocks, closes, rounds := 0, [], 0, 0, 0;
      new;
      LeadsNowhere(env, START);
    }

    function HandleStreamClose(code: int): HttpError
      reads parser
    {
      CloseError(parser.IsValidEndOfInput(), code)
    }

    /** `data` arrives behind the buffered bytes. */
    method TakeIn(data: seq<byte>)
      requires Valid() && len + |data| <= BUFFER_SIZE
      modifies this`len, this`received, buffer
      ensures Valid() && received == old(received) + data && Used() == old(Used())
    {
      ghost var used, tail := Used(), buffer[..len];
      forall i | 0 <= i < |data| {
        buffer[len + i] := data[i];
      }
      assert buffer[..len + |data|] == tail + data;
      assert received == used + tail;
      len, received := len + |data|, received + data;
      assert received == used + (tail + data);
    }

    /** The network appends any bytes that fit, or blocks, or closes. */
    method ReadNetwork() returns (r: ReadResult)
      requires Valid() && len < BUFFER_SIZE
      modifies this, buffer
      ensures Valid() && old(received) <= received && Used() == old(Used())
      ensures !r.RdData? ==> received == old(received)
      ensures rounds == old(rounds)
      ensures blocks == old(blocks) + (if r.RdBlock? then 1 else 0)
      ensures closes == old(closes) + (if r.RdClosed? then 1 else 0)
    {
      var choice: int, code: int := *, *;
      if choice == 0 {
        var data: seq<byte> := *;
        TakeIn(if len + |data| > BUFFER_SIZE then data[..BUFFER_SIZE - len] else data);
        r := RdData;
      } else if choice == 1 {
        blocks := blocks + 1;
        r := RdBlock;
      } else {
        closes := closes + 1;
        r := RdClosed(code);
      }
    }

    /** memmove of the bytes behind the first n to the front. */
    method DropFront(n: nat)
      requires n <= len <= buffer.Length
      modifies this`len, buffer
      ensures len == old(len) - n && buffer[..len] == old(buffer[..len])[n..]
    {
      len := len - n;
      forall i | 0 <= i < len {
        buffer[i] := buffer[i + n];
      }
    }

    /** Runs the parser over the buffer and moves what it did not use to the front. */
    method ProcessBuffer()
      returns (result: ProcessResult, error: HttpError)
      requires Valid()
      modifies this`len, parser, buffer
      ensures buffer.Length == BUFFER_SIZE && len <= BUFFER_SIZE && len <= |received|
      ensures buffer[..len] == received[|received| - len..] && !parser.state.Complete?
      ensures parser.stalls == old(parser.stalls) + (if result.PrBlock? then 1 else 0)
      ensures parser.failures == old(parser.failures)
              || (parser.failures == old(parser.failures) + 1 && result.PrComplete? && error == HeStream)
      ensures !result.PrComplete? || parser.failures > old(parser.failures) ==> Valid()
      ensures result.PrContinue? ==> Waits(parser.Abs(), buffer[..len])
      ensures result.PrComplete? && parser.failures == old(parser.failures) ==>
                Finishes(parser.env, START, Used(), parser.Abs(), error)
      ensures old(Stuck()) ==> result.PrContinue? && Stuck()
    {
      ghost var p0, used0, full := parser.Abs(), Used(), buffer[..len];
      var processed;
      result, processed, error := parser.Process(buffer, len);
      ghost var mine := full[..processed];
      assert buffer[..processed] == mine && buffer[processed..len] == full[processed..];
      DropFront(processed);
      assert Used() == used0 + mine;
      if result.PrComplete? && parser.failures == old(parser.failures) {
        FinishesAfter(parser.env, START, used0, p0, mine, parser.Abs(), error);
      } else {
        LeadsTransitive(parser.env, START, used0, p0, mine, parser.Abs());
      }
    }

    /** What a return from the receive loop means for the state it leaves, for each reason. */
    ghost predicate Left(done: bool, error: HttpError, exit: Exit)
      reads this, parser, buffer
    {
      && len <= |received| && len <= BUFFER_SIZE
      && (done <==> exit.Parsed? || exit.DocumentFailed? || exit.Overflowed? || exit.Closed?)
      && (!exit.Parsed? ==> Valid())
      && (exit.Parsed? ==> Finishes(parser.env, START, Used(), parser.Abs(), error))
      && (exit.Waiting? || exit.Starved? ==> Idle())
      && (exit.DocumentFailed? ==> error == HeStream)
      && (exit.Overflowed? ==> error == HeOverflow && Stuck())
      && (exit.Closed? ==> error == HandleStreamClose(exit.code))
    }

    /** One round: read, then process. */
    method Pump(needMore: bool) returns (stop: bool, done: bool, error: HttpError, ghost exit: Exit)
      requires Valid() && (needMore ==> Idle())
      modifies this, parser, buffer
      ensures old(received) <= received && blocks >= old(blocks) && rounds <= old(rounds) + 1
      ensures stop ==> Left(done, error, exit) && !exit.Starved?
      ensures !stop ==> Valid() && Idle() && rounds == old(rounds) + 1
      ensures stop && exit.Waiting? ==> blocks > old(blocks)
      ensures closes == old(closes) + (if stop && exit.Closed? then 1 else 0)
      ensures parser.stalls == old(parser.stalls) + (if stop && exit.Blocked? then 1 else 0)
      ensures parser.failures == old(parser.failures) + (if stop && exit.DocumentFailed? then 1 else 0)
      ensures stop && exit.Closed? ==>
                && received == old(received) && len == old(len)
                && parser.Abs() == old(parser.Abs()) && Idle() == old(Idle())
      ensures old(Stuck()) ==> if needMore then stop && exit.Overflowed? else !stop && Stuck()
    {
      stop, done, error, exit := FillBuffer(needMore);
      if !stop {
        stop, done, error, exit := ProcessRound();
      }
    }

    /** The processing half of a round. */
    method ProcessRound() returns (stop: bool, done: bool, error: HttpError, ghost exit: Exit)
      requires Valid()
      modifies this`len, this`rounds, parser, buffer
      ensures stop ==> Left(done, error, exit) && (exit.Blocked? || exit.Parsed? || exit.DocumentFailed?)
      ensures !stop ==> Valid() && Idle()
      ensures rounds == old(rounds) + 1
      ensures parser.stalls == old(parser.stalls) + (if stop && exit.Blocked? then 1 else 0)
      ensures parser.failures == old(parser.failures) + (if stop && exit.DocumentFailed? then 1 else 0)
      ensures old(Stuck()) ==> !stop && Stuck()
    {
      var result;
      result, error := ProcessBuffer();
      rounds := rounds + 1;
      stop, done := !result.PrContinue?, result.PrComplete?;
      exit := if result.PrBlock? then Blocked
              else if parser.failures > old(parser.failures) then DocumentFailed else Parsed;
    }

    /**
     * Pumps the network into the parser. `exit` records which return statement was taken.
     * The buffer never holds more than 32768 bytes, and overflow is reported exactly when it is
     * full and useless.
     */
    method DoReceiveLoop() returns (done: bool, error: HttpError, ghost exit: Exit)
      requires Valid()
      modifies this, parser, buffer
      ensures old(received) <= received && Left(done, error, exit)
      ensures len <= 32768 && (exit.Overflowed? ==> len == 32768 && LF !in buffer[..len])
      ensures rounds <= old(rounds) + 21 && (exit.Starved? ==> rounds == old(rounds) + 21)
      ensures exit.Waiting? ==> blocks > old(blocks)
      ensures exit.Closed? ==> closes > old(closes)
      ensures exit.DocumentFailed? ==> parser.failures > old(parser.failures)
      ensures parser.stalls == old(parser.stalls) + (if exit.Blocked? then 1 else 0)
      ensures old(Stuck()) ==> exit.Overflowed?
      ensures exit.Closed? && !Idle() ==>
                !old(Idle()) && received == old(received) && len == old(len) && parser.Abs() == old(parser.Abs())
    {
      var loopCount, needMore := 0, false;
      while loopCount <= MAX_READ_COUNT
        invariant loopCount <= MAX_READ_COUNT + 1 && rounds == old(rounds) + loopCount
        invariant Valid() && old(received) <= received
        invariant parser.stalls == old(parser.stalls) && parser.failures == old(parser.failures)
        invariant blocks >= old(blocks) && closes == old(closes)
        invariant loopCount > 0 ==> needMore
        invariant needMore ==> Idle()
        invariant !needMore ==> received == old(received) && len == old(len) && parser.Abs() == old(parser.Abs())
        invariant !needMore ==> Idle() == old(Idle())
        invariant old(Stuck()) ==> Stuck() && loopCount <= 1
      {
        var stop;
        stop, done, error, exit := Pump(needMore);
        if stop {
          return;
        }
        needMore := true;
        loopCount := loopCount + 1;
      }
      return false, HeNone, Starved;
    }

    /** The reading half of a round: `stop` when the network or a full buffer ends the call. */
    method FillBuffer(needMore: bool) returns (stop: bool, done: bool, error: HttpError, ghost exit: Exit)
      requires Valid()
      modifies this, buffer
      ensures Valid() && old(received) <= received && rounds == old(rounds) && blocks >= old(blocks)
      ensures stop ==> received == old(received) && len == old(len) && Idle() == old(Idle())
      ensures stop ==> exit.Waiting? || exit.Closed? || exit.Overflowed?
      ensures stop && exit.Waiting? ==> !done && needMore && blocks > old(blocks)
      ensures stop && exit.Closed? ==> done && error == HandleStreamClose(exit.code) && closes == old(closes) + 1
      ensures stop && exit.Overflowed? ==> done && error == HeOverflow && needMore && len == BUFFER_SIZE
      ensures !stop || !exit.Closed? ==> closes == old(closes)
      ensures old(len) == BUFFER_SIZE ==>
                && stop == needMore && (stop ==> exit.Overflowed?)
                && received == old(received) && len == old(len) && buffer[..] == old(buffer[..])
    {
      stop, done, error, exit := false, false, HeNone, Starved;
      if len < BUFFER_SIZE {
        ghost var held := buffer[..len];
        var r := ReadNetwork();
        assert !r.RdData? ==> buffer[..len] == held;
        match r {
          case RdData =>
          case RdBlock =>
            stop, exit := needMore, Waiting;
          case RdClosed(code) =>
            error := HandleStreamClose(code);
            stop, done, exit := true, true, Closed(code);
        }
      } else if needMore {
        return true, true, HeOverflow, Overflowed;
      }
    }

    /**
     * Any number of calls, as read events come in, until one reports a result. As long as nobody
     * said to wait, the result, the body and the state are those of everything received; and
     * whenever a call waits for the network, they are so again.
     */
    method AnyCalls(calls: nat) returns (done: bool, error: HttpError, ghost exit: Exit)
      requires Valid() && Idle()
      modifies this, parser, buffer
      ensures old(received) <= received && len <= |received|
      ensures !exit.Parsed? ==> Valid()
      ensures exit.Parsed? ==> forall code :: error == ResultOf(parser.env, received, code)
      ensures exit.Parsed? ==> parser.Abs() == Parse(parser.env, START, received).p
      ensures exit.Closed? && parser.stalls == old(parser.stalls) ==>
                && error == ResultOf(parser.env, received, exit.code)
                && Parse(parser.env, START, received) == Outcome(parser.Abs(), |received| - len, None)
      ensures exit.Waiting? || exit.Starved? || (!done && parser.stalls == old(parser.stalls)) ==>
                Parse(parser.env, START, received) == Outcome(parser.Abs(), |received| - len, None)
    {
      done, error, exit := false, HeNone, Waiting;
      for i := 0 to calls
        invariant Valid() && old(received) <= received && !done && !exit.Parsed? && !exit.Closed?
        invariant parser.stalls >= old(parser.stalls) && (parser.stalls == old(parser.stalls) ==> Idle())
        invariant exit.Waiting? || exit.Starved? ==> Idle()
      {
        done, error, exit := DoReceiveLoop();
        if done {
          break;
        }
      }
      if exit.Parsed? {
        ParsedResult(parser.env, received, |received| - len, parser.Abs(), error);
      } else if Idle() {
        IdleResult();
      }
    }

    /** With nothing left to process, what a close would report is what the stream amounts to. */
    lemma {:induction false} IdleResult()
      requires Valid() && Idle()
      ensures Parse(parser.env, START, received) == Outcome(parser.Abs(), |received| - len, None)
      ensures forall code :: HandleStreamClose(code) == ResultOf(parser.env, received, code)
    {
      UpToDate();
    }
  }

  lemma {:induction false} ParsedResult(env: Env, received: seq<byte>, used: nat, p: Parser, error: HttpError)
    requires used <= |received| && Finishes(env, START, received[..used], p, error)
    ensures forall code :: error == ResultOf(env, received, code)
    ensures p == Parse(env, START, received).p
  {
    FinishedIsParseOfAll(env, received, used, p, error, []);
    assert received + [] == received;
  }

  /** After waiting, the parser is exactly where one call on everything received would leave it. */
  lemma {:induction false} WaitingIsParseOfAll(env: Env, received: seq<byte>, used: nat, p: Parser)
    requires used <= |received| && Leads(env, START, received[..used], p) && Waits(p, received[used..])
    ensures Parse(env, START, received) == Outcome(p, used, None)
  {
    WaitingParse(env, p, received[used..]);
    assert received == received[..used] + received[used..];
    Resume(env, START, received[..used], p, received[used..], received);
  }

  /** A reported result is the result of everything received, and of anything that could have followed. */
  lemma {:induction false} FinishedIsParseOfAll(
    env: Env, received: seq<byte>, used: nat, p: Parser, error: HttpError, more: seq<byte>)
    requires used <= |received| && Finishes(env, START, received[..used], p, error)
    ensures Parse(env, START, received + more) == Outcome(p, used, Some(error))
  {
    assert received + more == received[..used] + (received[used..] + more);
    assert Ends(env, START, received[..used], p, error, received[used..] + more);
  }

  // ------------------------------------------------------------------------ closing after a stall

  /** What a closed stream means when everything received has been processed. */
  function ResultOf(env: Env, received: seq<byte>, code: int): HttpError {
    var o := Parse(env, START, received);
    if o.done.Some? then o.done.value
    else CloseError(o.p.state.Data? && o.p.dataSize == SIZE_UNKNOWN, code)
  }

  /**
   * A body that ends with the connection: what is still buffered behind a stall belongs to it, but
   * a clean close reports success without it.
   */
  lemma {:induction false} CloseLosesBody(env: Env, used: seq<byte>, p: Parser, tail: seq<byte>)
    requires Leads(env, START, used, p) && p.state.Data? && p.dataSize == SIZE_UNKNOWN && tail != []
    ensures Parse(env, START, used + tail).p.body == p.body + tail != p.body
    ensures !Waits(p, tail) && CloseError(true, 0) == HeNone
  {
    Resume(env, START, used, p, tail, used + tail);
    DataParses(env, p, tail, []);
    assert tail + [] == tail;
  }

  /** A body of known length that is complete in the buffer behind a stall: a close reports it as cut off. */
  lemma {:induction false} CloseLosesMessage(env: Env, used: seq<byte>, p: Parser, tail: seq<byte>)
    requires Leads(env, START, used, p) && p.state.Data? && 0 < p.dataSize < SIZE_UNKNOWN && !p.chunked
    requires p.dataSize <= |tail|
    ensures forall code :: ResultOf(env, used + tail, code) == HeNone
    ensures !Waits(p, tail) && CloseError(false, 0) == HeDisconnected
  {
    var data, rest := tail[..p.dataSize], tail[p.dataSize..];
    assert tail == data + rest;
    Resume(env, START, used, p, tail, used + tail);
    DataParses(env, p, data, rest);
  }

  /**
   * "H", an empty line and "A": a document that blocks on the "A", and then a clean close, give
   * success with an empty body. The message has body "A".
   */
  lemma {:induction false} CloseAfterStall(env: Env, head: seq<byte>, p: Parser)
    requires env.parseLeader([72]) == HeNone
    requires env.headersComplete([LeaderLine([72])], false, SIZE_UNKNOWN) == (HeNone, SIZE_UNKNOWN, false)
    requires head == [72, LF, LF]
    requires p == Parser(Data, false, SIZE_UNKNOWN, [LeaderLine([72]), HeadersDone(false, SIZE_UNKNOWN)], [])
    ensures Leads(env, START, head, p) && p.body == []
    ensures CloseError(p.state.Data? && p.dataSize == SIZE_UNKNOWN, 0) == HeNone
    ensures Parse(env, START, head + [65]).p.body == [65]
  {
    var leader: seq<byte>, empty: seq<byte>, p1 := [72], [], START.(state := Headers, events := [LeaderLine([72])]);
    assert TrimEnd(leader) == leader && TrimEnd(empty) == empty;
    assert LineStep(env, START, leader) == Go(p1);
    LineLeads(env, START, leader);
    assert [LeaderLine(leader)] + [HeadersDone(false, SIZE_UNKNOWN)] == p.events;
    assert LineStep(env, p1, empty) == Go(p);
    LineLeads(env, p1, empty);
    LeadsTransitive(env, START, leader + [LF], p1, empty + [LF], p);
    assert leader + [LF] + (empty + [LF]) == head;
    CloseLosesBody(env, head, p, [65]);
  }
}
