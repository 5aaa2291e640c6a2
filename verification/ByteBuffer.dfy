/**
 * A growing, compacting byte buffer with rewind positions, and the integers it stores in network or
 * host byte order.
 */
module ByteBuffer {
  import opened Bytes
  import opened ByteOrder

  const DEFAULT_SIZE: nat := 4096

  // ------------------------------------------------------------------------ integers as bytes

  lemma IntegerRoundTrips(v: nat, k: nat, network: bool)
    ensures var s := if network then SetBE(v, k) else SetLE(v, k);
            && s[..k] == s && s[k..] == []
            && (if network then GetBE(s) else GetLE(s)) == v % Pow256(k)
  {
    BigEndianRoundTrip(v, k);
    LittleEndianRoundTrip(v, k);
  }

  lemma DropFirst(a: seq<byte>, b: seq<byte>)
    ensures (a + b)[|a|..] == b
  {
  }

  // ------------------------------------------------------------------------ the abstract queue

  /** The bytes written since the last move, where reading stands in them, and the number of moves. */
  datatype Queue = Queue(history: seq<byte>, start: nat, version: nat) {
    predicate Valid() {
      start <= |history|
    }

    function Contents(): seq<byte>
      requires Valid()
    {
      history[start..]
    }
  }

  /** Between moves the history only grows, and every move has a new version. */
  predicate Evolves(q: Queue, r: Queue) {
    q.version <= r.version && (q.version == r.version ==> q.history <= r.history)
  }

  datatype ReadPosition = ReadPosition(start: nat, version: nat)

  // ------------------------------------------------------------------------ the buffer

  class ByteBuffer {
    var bytes: array<byte>
    var start: nat
    var end: nat
    var version: nat
    /** Network order, or the order of a little-endian host. */
    const network: bool
    /** All bytes ever written. */
    ghost var log: seq<byte>

    ghost predicate Valid()
      reads this
    {
      start <= end <= bytes.Length
    }

    ghost function Abs(): (q: Queue)
      requires Valid()
      reads this, bytes
      ensures q.Valid()
    {
      Queue(bytes[..end], start, version)
    }

    ghost function Contents(): seq<byte>
      requires Valid()
      reads this, bytes
    {
      Abs().Contents()
    }

    constructor (contents: seq<byte>, network: bool)
      ensures Valid() && fresh(bytes) && Contents() == contents && this.network == network && version == 0
    {
      bytes := new byte[|contents|](i requires 0 <= i < |contents| => contents[i]);
      start, end, version, this.network, log := 0, |contents|, 0, network, [];
      new;
      assert bytes[..end] == contents;
    }

    constructor Empty(network: bool)
      ensures Valid() && fresh(bytes) && Contents() == [] && this.network == network && version == 0
      ensures bytes.Length == 4096
    {
      bytes := new byte[DEFAULT_SIZE](_ => 0);
      start, end, version, this.network, log := 0, 0, 0, network, [];
    }

    /** Moves the contents to the front of a buffer of at least `size` bytes, keeping the first `size`. */
    method Resize(size: nat)
      requires Valid()
      modifies this`bytes, this`start, this`end, this`version, bytes
      ensures Valid() && (bytes == old(bytes) || fresh(bytes)) && size <= bytes.Length
      ensures version == old(version) + 1 && start == 0
      ensures var n := old(bytes.Length);
              bytes.Length == if size <= n then n else if size >= 3 * n / 2 then size else 3 * n / 2
      ensures Contents() == old(Contents())[..Min(size, |old(Contents())|)]
    {
      ghost var contents := Contents();
      assert forall i :: 0 <= i < end - start ==> contents[i] == bytes[start + i];
      var len := Min(end - start, size);
      if size <= bytes.Length {
        forall i | 0 <= i < len {
          bytes[i] := bytes[start + i];
        }
      } else {
        var newSize := if size >= 3 * bytes.Length / 2 then size else 3 * bytes.Length / 2;
        var newBytes := new byte[newSize](_ => 0);
        forall i | 0 <= i < len {
          newBytes[i] := bytes[start + i];
        }
        bytes := newBytes;
      }
      assert forall i :: 0 <= i < len ==> bytes[i] == contents[i];
      start, end, version := 0, len, version + 1;
      assert bytes[..end] == contents[..len];
    }

    /** Makes room behind the contents; what is in the new part is unspecified. */
    method ReserveWriteBuffer(len: nat) returns (at: nat)
      requires Valid()
      modifies this`bytes, this`start, this`end, this`version, bytes
      ensures Valid() && (bytes == old(bytes) || fresh(bytes))
      ensures at + len == end && start <= at && bytes[start..at] == old(Contents())
      ensures version == old(version) ==> start == old(start) && bytes[..at] == old(Abs()).history
      ensures version == old(version) + (if old(end) + len > old(bytes.Length) then 1 else 0)
    {
      ghost var contents := Contents();
      if end - start + len > bytes.Length - start {
        Resize(end - start + len);
        assert bytes[start..end] == contents;
      }
      at := end;
      end := end + len;
    }

    /** Appends. */
    method WriteBytes(data: seq<byte>)
      requires Valid()
      modifies this, bytes
      ensures Valid() && (bytes == old(bytes) || fresh(bytes))
      ensures Contents() == old(Contents()) + data && log == old(log) + data
      ensures Evolves(old(Abs()), Abs())
      ensures version == old(version) + (if old(end) + |data| > old(bytes.Length) then 1 else 0)
      ensures version == old(version) ==> Abs().history == old(Abs()).history + data && start == old(start)
    {
      var at := ReserveWriteBuffer(|data|);
      ghost var before, prefix := bytes[start..at], bytes[..at];
      forall i | 0 <= i < |data| {
        bytes[at + i] := data[i];
      }
      log := log + data;
      assert bytes[..end] == prefix + data;
      assert bytes[..end][start..] == before + data;
    }

    /** Removes a prefix and returns it, or changes nothing when there are fewer bytes. */
    method ReadBytes(len: nat) returns (data: Option<seq<byte>>)
      requires Valid()
      modifies this`start
      ensures Valid() && Evolves(old(Abs()), Abs()) && Abs().history == old(Abs()).history
      ensures data.Some? <==> len <= |old(Contents())|
      ensures if data.Some? then |data.value| == len && data.value + Contents() == old(Contents())
              else Contents() == old(Contents())
    {
      if len > end - start {
        return None;
      }
      data := Some(bytes[start..start + len]);
      assert bytes[..end][start..] == bytes[start..start + len] + bytes[..end][start + len..];
      start := start + len;
    }

    method Consume(size: nat) returns (ok: bool)
      requires Valid()
      modifies this`start
      ensures Valid() && Evolves(old(Abs()), Abs()) && Abs().history == old(Abs()).history
      ensures ok <==> size <= |old(Contents())|
      ensures Contents() == if ok then old(Contents())[size..] else old(Contents())
    {
      if size > end - start {
        return false;
      }
      start := start + size;
      return true;
    }

    method Clear()
      requires Valid()
      modifies this`start, this`end, this`version, bytes
      ensures Valid() && bytes == old(bytes) && Contents() == []
      ensures version == old(version) + 1
    {
      forall i | 0 <= i < bytes.Length {
        bytes[i] := 0;
      }
      start, end, version := 0, 0, version + 1;
    }

    method GetReadPosition() returns (p: ReadPosition)
      requires Valid()
      ensures p == ReadPosition(Abs().start, Abs().version)
    {
      return ReadPosition(start, version);
    }

    /**
     * `saved` is the state in which the position was taken. It is restored, with everything appended
     * since, exactly when there was no move in between; otherwise nothing changes.
     */
    method SetReadPosition(p: ReadPosition, ghost saved: Queue) returns (ok: bool)
      requires Valid() && saved.Valid() && Evolves(saved, Abs()) && p == ReadPosition(saved.start, saved.version)
      modifies this`start
      ensures Valid() && Abs().history == old(Abs()).history && Evolves(saved, Abs())
      ensures ok <==> saved.version == version
      ensures ok ==> Contents() == saved.Contents() + Abs().history[|saved.history|..]
      ensures !ok ==> Contents() == old(Contents())
    {
      if p.version != version {
        return false;
      }
      start := p.start;
      return true;
    }

    // ---------------------------------------------------------------------- typed access

    /** The k low bytes of val: 24-bit writes cut off the rest. */
    method WriteUInt(val: nat, k: nat)
      requires Valid()
      modifies this, bytes
      ensures Valid() && (bytes == old(bytes) || fresh(bytes)) && Evolves(old(Abs()), Abs())
      ensures Contents() == old(Contents()) + (if network then SetBE(val, k) else SetLE(val, k))
    {
      WriteBytes(if network then SetBE(val, k) else SetLE(val, k));
    }

    method ReadUInt(k: nat) returns (val: Option<nat>)
      requires Valid()
      modifies this`start
      ensures Valid() && Evolves(old(Abs()), Abs())
      ensures val.Some? <==> k <= |old(Contents())|
      ensures val.None? ==> Contents() == old(Contents())
      ensures val.Some? ==> Contents() == old(Contents())[k..]
                            && val.value == if network then GetBE(old(Contents())[..k]) else GetLE(old(Contents())[..k])
    {
      ghost var contents := Contents();
      var data := ReadBytes(k);
      if data.None? {
        return None;
      }
      assert data.value == contents[..k] && Contents() == contents[k..];
      return Some(if network then GetBE(data.value) else GetLE(data.value));
    }

    /** An integer written behind any contents is read back, up to the bytes cut off, once those are consumed. */
    method IntegerRoundTrip(val: nat, k: nat) returns (read: Option<nat>)
      requires Valid()
      modifies this, bytes
      ensures Valid() && read == Some(val % Pow256(k)) && Contents() == []
    {
      IntegerRoundTrips(val, k, network);
      var before := end - start;
      ghost var contents, coded := Contents(), if network then SetBE(val, k) else SetLE(val, k);
      WriteUInt(val, k);
      DropFirst(contents, coded);
      var _ := Consume(before);
      read := ReadUInt(k);
    }

    // ---------------------------------------------------------------------- any run

    /**
     * A position saved before any run of reads, writes, resizes, clears and rewinds: restoring it
     * afterwards gives the contents at save time followed by everything written since, if no
     * operation moved the bytes, and is refused without effect if one did.
     */
    method AnyRun(steps: nat) returns (restored: bool)
      requires Valid()
      modifies this, bytes
      ensures Valid()
      ensures restored <==> version == old(version)
      ensures old(log) <= log
      ensures restored ==> Contents() == old(Contents()) + log[|old(log)|..]
    {
      ghost var saved := Abs();
      var position := GetReadPosition();
      assert log[|log|..] == [] && saved.history + [] == saved.history;
      for i := 0 to steps
        invariant Valid() && (bytes == old(bytes) || fresh(bytes)) && Evolves(saved, Abs())
        invariant old(log) <= log
        invariant version == saved.version ==> Abs().history == saved.history + log[|old(log)|..]
      {
        var op: int := *;
        var n: int := *;
        if op == 0 {
          var _ := ReadBytes(if n < 0 then 0 else n);
        } else if op == 1 {
          var data: seq<byte> := *;
          ghost var written := log[|old(log)|..];
          WriteBytes(data);
          assert log[|old(log)|..] == written + data;
          ConcatAssociative(saved.history, written, data);
        } else if op == 2 {
          Resize(if n < 0 then 0 else n);
        } else if op == 3 {
          Clear();
        } else if op == 4 {
          var _ := Consume(if n < 0 then 0 else n);
        } else {
          var _ := SetReadPosition(position, saved);
        }
      }
      restored := SetReadPosition(position, saved);
    }
  }
}
