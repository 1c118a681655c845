/** The worker's two byte streams and the operations on them: the
    fixed-width integer and sentinel primitives, the strict reads and
    writes, the chunked variable-length transfer in both directions, and
    the response framers built from them. */
module Transport {
  import opened Wrappers
  import opened Bytes
  import opened Chunking
  import opened Frames

  /** The worker's end of the connection. `inbound` is everything the host
      sends on standard input, `cursor` how much of it has been consumed;
      `outbound` is everything written to standard output so far. `log`
      records every read and write in order. A read that finds fewer bytes
      than it asked for reports failure, and its caller halts the worker. */
  class Pipe {
    const inbound: seq<byte>
    var cursor: nat
    var outbound: seq<byte>
    ghost var log: seq<Act>

    /** The log accounts for both streams: its writes are the outbound
        stream and its reads the consumed part of the inbound stream. */
    ghost predicate Valid()
      reads this
    {
      cursor <= |inbound| && Puts(log) == outbound && Gets(log) == inbound[..cursor]
    }

    /** The inbound bytes not consumed yet. */
    function Pending(): seq<byte>
      reads this
      requires cursor <= |inbound|
    {
      inbound[cursor..]
    }

    constructor (input: seq<byte>)
      ensures Valid() && inbound == input
      ensures cursor == 0 && outbound == [] && log == []
    {
      inbound := input;
      cursor := 0;
      outbound := [];
      log := [];
    }

    /** `strict_write`: the whole view reaches the outbound stream. */
    method StrictWrite(view: seq<byte>)
      requires Valid()
      modifies this
      ensures Valid() && cursor == old(cursor)
      ensures outbound == old(outbound) + view
      ensures log == old(log) + [Put(view)]
    {
      PutsAppend(log, [Put(view)]);
      GetsAppend(log, [Put(view)]);
      assert Puts([Put(view)]) == view + Puts([]);
      assert Gets([Put(view)]) == [] + Gets([]);
      outbound := outbound + view;
      log := log + [Put(view)];
    }

    /** Consumes up to `n` inbound bytes; `ok` says all `n` were there. */
    method Take(n: nat) returns (ok: bool, bytes: seq<byte>)
      requires Valid()
      modifies this
      ensures Valid() && outbound == old(outbound)
      ensures ok == (old(cursor) + n <= |inbound|)
      ensures cursor == if ok then old(cursor) + n else |inbound|
      ensures bytes == inbound[old(cursor)..cursor]
      ensures log == old(log) + [Get(bytes)]
    {
      var next := if cursor + n <= |inbound| then cursor + n else |inbound|;
      ok := cursor + n <= |inbound|;
      bytes := inbound[cursor..next];
      PutsAppend(log, [Get(bytes)]);
      GetsAppend(log, [Get(bytes)]);
      assert Puts([Get(bytes)]) == [] + Puts([]);
      assert Gets([Get(bytes)]) == bytes + Gets([]);
      assert inbound[..next] == inbound[..cursor] + bytes;
      log := log + [Get(bytes)];
      cursor := next;
    }

    /** `write_int`: the four big-endian bytes of `v`. */
    method WriteInt(v: nat)
      requires Valid() && v < U32Limit
      modifies this
      ensures Valid() && cursor == old(cursor)
      ensures outbound == old(outbound) + EncodeU32(v)
      ensures log == old(log) + [Put(EncodeU32(v))]
    {
      StrictWrite(EncodeU32(v));
    }

    /** `read_int`: the big-endian value of the next four inbound bytes. */
    method ReadInt() returns (ok: bool, v: nat)
      requires Valid()
      modifies this
      ensures Valid() && outbound == old(outbound)
      ensures ok == (4 <= |old(Pending())|)
      ensures ok ==> v == DecodeU32(old(Pending())[..4]) && cursor == old(cursor) + 4
      ensures !ok ==> cursor == |inbound|
      ensures log == old(log) + [Get(inbound[old(cursor)..cursor])]
    {
      var bytes;
      ok, bytes := Take(4);
      v := if ok then DecodeU32(bytes) else 0;
    }

    /** `write_success_bytes`: the sentinel. */
    method WriteSuccessBytes()
      requires Valid()
      modifies this
      ensures Valid() && cursor == old(cursor)
      ensures outbound == old(outbound) + Sentinel
      ensures log == old(log) + [Put(Sentinel)]
    {
      StrictWrite(Sentinel);
    }

    /** `read_success_bytes`: consumes four bytes and says whether they are
        the sentinel. Fewer than four bytes are never the sentinel. */
    method ReadSuccessBytes() returns (aligned: bool)
      requires Valid()
      modifies this
      ensures Valid() && outbound == old(outbound)
      ensures aligned <==> Sentinel <= old(Pending())
      ensures cursor == Min(old(cursor) + 4, |inbound|)
      ensures log == old(log) + [Get(inbound[old(cursor)..cursor])]
    {
      var ok, bytes := Take(4);
      aligned := bytes == Sentinel;
    }

    /** `strict_read`: fills buf[from, to) from the inbound stream. */
    method StrictRead(buf: array<byte>, from: nat, to: nat) returns (ok: bool)
      requires Valid() && from <= to <= buf.Length
      modifies this, buf
      ensures Valid() && outbound == old(outbound)
      ensures ok == (old(cursor) + (to - from) <= |inbound|)
      ensures cursor == if ok then old(cursor) + (to - from) else |inbound|
      ensures buf[..] == old(buf[..from]) + inbound[old(cursor)..cursor]
                         + old(buf[..])[from + (cursor - old(cursor))..]
      ensures log == old(log) + [Get(inbound[old(cursor)..cursor])]
    {
      ghost var b0 := buf[..];
      var bytes;
      ok, bytes := Take(to - from);
      forall i | from <= i < from + |bytes| {
        buf[i] := bytes[i - from];
      }
      Spliced(b0, buf[..], from, bytes);
    }

    /** The state of `write_variable_data` before the loop turn at
        `index`, as `SendState` states it of this pipe. */
    ghost predicate Sending(p: seq<byte>, index: nat, k: nat, start: nat, base: seq<Act>, sent: seq<byte>)
      reads this
    {
      Valid() && SendState(inbound, cursor, outbound, log, p, index, k, start, base, sent)
    }

    /** One turn of the loop of `write_variable_data`: wait for a ready
        signal, then write the next chunk. */
    method SendNextChunk(p: seq<byte>, index: nat, ghost k: nat, ghost start: nat, ghost base: seq<Act>,
                         ghost sent: seq<byte>)
      returns (got: bool, end: nat)
      requires Sending(p, index, k, start, base, sent) && index < |p|
      modifies this
      ensures got ==> end == Min(index + ChunkSize, |p|) && Sending(p, end, k + 1, start, base, sent)
      ensures !got ==> Valid() && cursor == |inbound| && sent <= outbound
      ensures !got ==> start + 4 * ReadyCount(|p|) > |inbound|
    {
      ghost var c0, o0, l0 := cursor, outbound, log;
      var ready;
      got, ready := ReadInt();
      if !got {
        SendStalled(inbound, c0, o0, p, index, k, start, sent);
        return got, index;
      }
      end := Min(index + ChunkSize, |p|);
      StrictWrite(p[index..end]);
      SendAdvance(inbound, c0, o0, l0, p, index, k, start, base, sent, cursor, outbound, log, end);
    }

    /** `write_variable_data`: the length, then the paced chunks. It
        consumes one ready signal per chunk after the first, and fails only
        when the inbound stream ends before one of them. */
    method WriteVariableData(p: seq<byte>) returns (ok: bool)
      requires Valid() && |p| < U32Limit
      modifies this
      ensures Valid()
      ensures ok == (old(cursor) + 4 * ReadyCount(|p|) <= |inbound|)
      ensures ok ==> cursor == old(cursor) + 4 * ReadyCount(|p|)
      ensures ok ==> outbound == old(outbound) + Variable(p)
      ensures ok ==> log == old(log) + SendLog(p, inbound[old(cursor)..cursor])
      ensures !ok ==> cursor == |inbound| && old(outbound) <= outbound
    {
      var size := |p|;
      WriteInt(size);
      StrictWrite(p[0..Min(size, ChunkSize)]);
      var index := ChunkSize;
      ghost var k := 0;
      SendBegin(inbound, old(cursor), old(log), old(outbound), cursor, outbound, log, p);
      while index < size
        invariant Sending(p, index, k, old(cursor), old(log), old(outbound))
        decreases size - index
      {
        var got;
        got, index := SendNextChunk(p, index, k, old(cursor), old(log), old(outbound));
        if !got {
          return false;
        }
        k := k + 1;
      }
      SendEnd(inbound, cursor, outbound, log, p, index, k, old(cursor), old(log), old(outbound));
      ok := true;
    }

    /** The state of `read_variable_data` before the loop turn at
        `index`, as `RecvState` states it of this pipe and `result`. */
    ghost predicate Receiving(result: array<byte>, index: nat, k: nat, start: nat, base: seq<Act>, sent: seq<byte>)
      reads this, result
    {
      Valid() && RecvState(inbound, cursor, outbound, log, result[..], index, k, start, base, sent)
    }

    /** One turn of the loop of `read_variable_data`: signal ready, then
        read the next chunk into place. */
    method RecvNextChunk(result: array<byte>, index: nat, ghost k: nat, ghost start: nat, ghost base: seq<Act>,
                         ghost sent: seq<byte>)
      returns (got: bool, end: nat)
      requires Receiving(result, index, k, start, base, sent) && index < result.Length
      modifies this, result
      ensures got ==> end == Min(index + ChunkSize, result.Length)
      ensures got ==> Receiving(result, end, k + 1, start, base, sent)
      ensures !got ==> Valid() && cursor == |inbound| && sent <= outbound
      ensures !got ==> start + 4 + result.Length > |inbound|
    {
      ghost var c0, o0, l0, content0 := cursor, outbound, log, result[..];
      var size := result.Length;
      WriteInt(0);
      end := Min(index + ChunkSize, size);
      got := StrictRead(result, index, end);
      if !got {
        ReadyWordsPrefix(k);
        return;
      }
      RecvAdvance(inbound, c0, o0, l0, content0, index, k, start, base, sent,
                  cursor, outbound, log, result[..], end);
    }

    /** The part of `read_variable_data` after the header: fills the
        fresh buffer `result` chunk by chunk, writing a ready signal before
        every chunk after the first; nothing at all for an empty payload. */
    method FillBuffer(result: array<byte>, ghost start: nat, ghost base: seq<Act>, ghost sent: seq<byte>)
      returns (ok: bool)
      requires Valid() && result.Length < U32Limit && cursor == start + 4
      requires log == base + [Get(EncodeU32(result.Length))] && outbound == sent
      modifies this, result
      ensures Valid()
      ensures ok == (start + 4 + result.Length <= |inbound|)
      ensures ok ==> cursor == start + 4 + result.Length && result[..] == inbound[start + 4..cursor]
      ensures ok ==> outbound == sent + ReadyWords(ReadyCount(result.Length))
      ensures ok ==> log == base + RecvLog(result[..])
      ensures !ok ==> cursor == |inbound| && sent <= outbound
    {
      var size := result.Length;
      if size > 0 {
        var index := 0;
        var end := Min(size, ChunkSize);
        ok := StrictRead(result, index, end);
        if !ok {
          return;
        }
        RecvBegin(inbound, start, base, sent, cursor, outbound, log, result[..]);
        ok := FillRest(result, end, start, base, sent);
      } else {
        assert RecvLog(result[..]) == [Get(EncodeU32(0))];
        ok := true;
      }
    }

    /** The loop of `read_variable_data` once the first chunk of `result`
        is in place: a ready signal, then a chunk, until the buffer is
        full. */
    method FillRest(result: array<byte>, from: nat, ghost start: nat, ghost base: seq<Act>, ghost sent: seq<byte>)
      returns (ok: bool)
      requires Receiving(result, from, 0, start, base, sent)
      modifies this, result
      ensures Valid()
      ensures ok == (start + 4 + result.Length <= |inbound|)
      ensures ok ==> cursor == start + 4 + result.Length && result[..] == inbound[start + 4..cursor]
      ensures ok ==> outbound == sent + ReadyWords(ReadyCount(result.Length))
      ensures ok ==> log == base + RecvLog(result[..])
      ensures !ok ==> cursor == |inbound| && sent <= outbound
    {
      var index := from;
      ghost var k := 0;
      while index < result.Length
        invariant Receiving(result, index, k, start, base, sent)
        decreases result.Length - index
      {
        ok, index := RecvNextChunk(result, index, k, start, base, sent);
        if !ok {
          return;
        }
        k := k + 1;
      }
      RecvEnd(inbound, cursor, outbound, log, result[..], index, k, start, base, sent);
      ok := true;
    }

    /** `read_variable_data`: reads the length n, then fills a fresh
        n-byte buffer chunk by chunk, writing a ready signal of value 0
        before every chunk after the first. It fails only when the inbound
        stream ends early. */
    method ReadVariableData() returns (ok: bool, data: seq<byte>)
      requires Valid()
      modifies this
      ensures Valid()
      ensures ok == VariableAt(old(Pending())).Some?
      ensures ok ==> data == VariableAt(old(Pending())).value
      ensures ok ==> cursor == old(cursor) + 4 + |data|
      ensures ok ==> outbound == old(outbound) + ReadyWords(ReadyCount(|data|))
      ensures ok ==> log == old(log) + RecvLog(data)
      ensures !ok ==> cursor == |inbound| && old(outbound) <= outbound
    {
      ghost var c0, l0, o0 := cursor, log, outbound;
      var got, size := ReadInt();
      if !got {
        return false, [];
      }
      EncodeDecode(inbound[c0..cursor]);
      var result := new byte[size];
      ok := FillBuffer(result, c0, l0, o0);
      data := if ok then result[..] else [];
      assert ok ==> |data| == size;
      VariableFrom(inbound, c0, size, ok, data);
    }

    /** `send_success`. */
    method SendSuccess()
      requires Valid()
      modifies this
      ensures Valid() && cursor == old(cursor)
      ensures outbound == old(outbound) + SuccessResponse()
    {
      WriteInt(0);
      WriteSuccessBytes();
    }

    /** `send_int`. */
    method SendInt(v: nat)
      requires Valid() && v < U32Limit
      modifies this
      ensures Valid() && cursor == old(cursor)
      ensures outbound == old(outbound) + IntResponse(v)
    {
      WriteInt(0);
      WriteInt(v);
      WriteSuccessBytes();
    }

    /** The answer to a format request whose text changed: status 0, the
        changed flag 1, the new text, the sentinel. */
    method SendChanged(t: seq<byte>) returns (ok: bool)
      requires Valid() && |t| < U32Limit
      modifies this
      ensures Valid()
      ensures ok == (old(cursor) + 4 * ReadyCount(|t|) <= |inbound|)
      ensures ok ==> cursor == old(cursor) + 4 * ReadyCount(|t|)
      ensures ok ==> outbound == old(outbound) + ChangedResponse(t)
      ensures !ok ==> cursor == |inbound| && old(outbound) <= outbound
    {
      WriteInt(0);
      WriteInt(1);
      ok := WriteVariableData(t);
      if ok {
        WriteSuccessBytes();
        assert outbound == old(outbound) + ChangedResponse(t) by {
          var w := EncodeU32(0) + EncodeU32(1);
          assert outbound == old(outbound) + w + Variable(t) + Sentinel;
        }
      }
    }

    /** `send_string`, given the encoded string: status 0, the string,
        the sentinel. */
    method SendString(t: seq<byte>) returns (ok: bool)
      requires Valid() && |t| < U32Limit
      modifies this
      ensures Valid()
      ensures ok == (old(cursor) + 4 * ReadyCount(|t|) <= |inbound|)
      ensures ok ==> cursor == old(cursor) + 4 * ReadyCount(|t|)
      ensures ok ==> outbound == old(outbound) + StringResponse(t)
      ensures !ok ==> cursor == |inbound| && old(outbound) <= outbound
    {
      WriteInt(0);
      ok := WriteVariableData(t);
      if ok {
        WriteSuccessBytes();
      }
    }

    /** `send_failure`, given the encoded diagnostic. */
    method SendFailure(message: seq<byte>) returns (ok: bool)
      requires Valid() && |message| < U32Limit
      modifies this
      ensures Valid()
      ensures ok == (old(cursor) + 4 * ReadyCount(|message|) <= |inbound|)
      ensures ok ==> cursor == old(cursor) + 4 * ReadyCount(|message|)
      ensures ok ==> outbound == old(outbound) + FailureResponse(message)
      ensures !ok ==> cursor == |inbound| && old(outbound) <= outbound
    {
      WriteInt(1);
      ok := WriteVariableData(message);
      if ok {
        WriteSuccessBytes();
      }
    }
  }

  /** Overwriting b0[from, from + |bytes|) with `bytes`. */
  lemma Spliced(b0: seq<byte>, b1: seq<byte>, from: nat, bytes: seq<byte>)
    requires |b1| == |b0| && from + |bytes| <= |b0|
    requires forall i :: from <= i < from + |bytes| ==> b1[i] == bytes[i - from]
    requires forall i :: 0 <= i < |b0| && !(from <= i < from + |bytes|) ==> b1[i] == b0[i]
    ensures b1 == b0[..from] + bytes + b0[from + |bytes|..]
  {
    var r := b0[..from] + bytes + b0[from + |bytes|..];
    forall i | 0 <= i < |b1|
      ensures b1[i] == r[i]
    {
      if i < from {
        assert r[i] == b0[i];
      } else if i < from + |bytes| {
        assert r[i] == bytes[i - from];
      } else {
        assert r[i] == b0[i];
      }
    }
  }

  /** The state of `write_variable_data` for payload `p` before the loop
      turn at `index`: `k` ready signals were consumed from `start` on, the
      length and the chunks before `index` were written, and `base`,
      `sent` are the log and outbound stream before the call. When the
      inbound stream holds all the ready signals, the log so far followed
      by the remaining schedule is the whole schedule. */
  ghost predicate SendState(inbound: seq<byte>, cursor: nat, outbound: seq<byte>, log: seq<Act>,
                            p: seq<byte>, index: nat, k: nat, start: nat, base: seq<Act>, sent: seq<byte>)
  {
    && |p| < U32Limit
    && ChunkSize <= index && (index <= |p| || index == ChunkSize)
    && k + Turns(|p|, index) == ReadyCount(|p|)
    && cursor == start + 4 * k <= |inbound|
    && outbound == sent + EncodeU32(|p|) + p[..Min(index, |p|)]
    && (start + 4 * ReadyCount(|p|) <= |inbound| ==>
          log + SendFrom(p, index, inbound[cursor..start + 4 * ReadyCount(|p|)])
            == base + SendLog(p, inbound[start..start + 4 * ReadyCount(|p|)]))
  }

  /** After the length and the first chunk. */
  lemma SendBegin(inbound: seq<byte>, start: nat, base: seq<Act>, sent: seq<byte>,
                  cursor: nat, outbound: seq<byte>, log: seq<Act>, p: seq<byte>)
    requires |p| < U32Limit && cursor == start <= |inbound|
    requires outbound == sent + EncodeU32(|p|) + p[0..Min(|p|, ChunkSize)]
    requires log == base + [Put(EncodeU32(|p|))] + [Put(p[0..Min(|p|, ChunkSize)])]
    ensures SendState(inbound, cursor, outbound, log, p, ChunkSize, 0, start, base, sent)
  {
    LoopTurnsAreReadies(|p|);
  }

  /** One loop turn: a ready signal read, then the next chunk written. */
  lemma SendAdvance(inbound: seq<byte>, c0: nat, o0: seq<byte>, l0: seq<Act>,
                    p: seq<byte>, index: nat, k: nat, start: nat, base: seq<Act>, sent: seq<byte>,
                    c1: nat, o1: seq<byte>, l1: seq<Act>, end: nat)
    requires SendState(inbound, c0, o0, l0, p, index, k, start, base, sent)
    requires index < |p| && end == Min(index + ChunkSize, |p|)
    requires c1 == c0 + 4 <= |inbound|
    requires o1 == o0 + p[index..end]
    requires l1 == l0 + [Get(inbound[c0..c1])] + [Put(p[index..end])]
    ensures SendState(inbound, c1, o1, l1, p, end, k + 1, start, base, sent)
  {
    assert Turns(|p|, index) == 1 + Turns(|p|, end);
    SentChunk(sent + EncodeU32(|p|), o0, o1, p, index, end);
    var stop := start + 4 * ReadyCount(|p|);
    if stop <= |inbound| {
      SendStep(p, index, inbound, c0, stop, l0, base + SendLog(p, inbound[start..stop]));
    }
  }

  /** Writing the chunk [index, end) after the chunks before it. */
  lemma SentChunk(head: seq<byte>, o0: seq<byte>, o1: seq<byte>, p: seq<byte>, index: nat, end: nat)
    requires index <= end <= |p|
    requires o0 == head + p[..index] && o1 == o0 + p[index..end]
    ensures o1 == head + p[..end]
  {
    assert p[..end] == p[..index] + p[index..end];
  }

  /** The sender waits for a ready signal that never comes. */
  lemma SendStalled(inbound: seq<byte>, c0: nat, o0: seq<byte>, p: seq<byte>, index: nat, k: nat,
                    start: nat, sent: seq<byte>)
    requires index < |p| < U32Limit && k + Turns(|p|, index) == ReadyCount(|p|) && c0 == start + 4 * k
    requires c0 + 4 > |inbound|
    requires o0 == sent + EncodeU32(|p|) + p[..Min(index, |p|)]
    ensures start + 4 * ReadyCount(|p|) > |inbound| && sent <= o0
  {
    assert Turns(|p|, index) >= 1;
    assert o0 == sent + (EncodeU32(|p|) + p[..Min(index, |p|)]);
  }

  /** After the last loop turn the whole payload went out. */
  lemma SendEnd(inbound: seq<byte>, cursor: nat, outbound: seq<byte>, log: seq<Act>,
                p: seq<byte>, index: nat, k: nat, start: nat, base: seq<Act>, sent: seq<byte>)
    requires SendState(inbound, cursor, outbound, log, p, index, k, start, base, sent)
    requires index >= |p|
    ensures cursor == start + 4 * ReadyCount(|p|) <= |inbound|
    ensures outbound == sent + Variable(p)
    ensures log == base + SendLog(p, inbound[start..cursor])
  {
    assert Turns(|p|, index) == 0;
    assert p[..Min(index, |p|)] == p;
    assert outbound == sent + (EncodeU32(|p|) + p);
    assert SendFrom(p, index, inbound[cursor..cursor]) == [];
  }

  /** One turn of the sender's loop, one ready signal and one chunk,
      keeps "the log so far followed by the remaining schedule is the whole
      schedule". */
  lemma SendStep(p: seq<byte>, index: nat, inbound: seq<byte>, at: nat, stop: nat,
                 done: seq<Act>, whole: seq<Act>)
    requires index < |p| && at + 4 * Turns(|p|, index) == stop <= |inbound|
    requires done + SendFrom(p, index, inbound[at..stop]) == whole
    ensures (done + [Get(inbound[at..at + 4])] + [Put(p[index..Min(index + ChunkSize, |p|)])])
            + SendFrom(p, Min(index + ChunkSize, |p|), inbound[at + 4..stop]) == whole
  {
    assert inbound[at..stop][..4] == inbound[at..at + 4];
    assert inbound[at..stop][4..] == inbound[at + 4..stop];
  }

  /** The state of `read_variable_data` receiving into a buffer that now
      holds `content`, before the loop turn at `index`: the header was read
      at `start`, the first `index` bytes of the buffer are the bytes
      received so far, one ready signal was written per chunk after the
      first, and `base`, `sent` are the log and outbound stream before the
      call. */
  ghost predicate RecvState(inbound: seq<byte>, cursor: nat, outbound: seq<byte>, log: seq<Act>,
                            content: seq<byte>, index: nat, k: nat, start: nat, base: seq<Act>, sent: seq<byte>)
  {
    && |content| < U32Limit
    && Min(|content|, ChunkSize) <= index <= |content|
    && cursor == start + 4 + index <= |inbound|
    && content[..index] == inbound[start + 4..cursor]
    && k + Turns(|content|, index) == ReadyCount(|content|)
    && outbound == sent + ReadyWords(k)
    && (start + 4 + |content| <= |inbound| ==>
          var payload := inbound[start + 4..start + 4 + |content|];
          log + RecvFrom(payload, index) == base + RecvLog(payload))
  }

  /** After the header and the first chunk. */
  lemma RecvBegin(inbound: seq<byte>, start: nat, base: seq<Act>, sent: seq<byte>,
                  cursor: nat, outbound: seq<byte>, log: seq<Act>, content: seq<byte>)
    requires 0 < |content| < U32Limit && outbound == sent
    requires cursor == start + 4 + Min(|content|, ChunkSize) <= |inbound|
    requires content[..Min(|content|, ChunkSize)] == inbound[start + 4..cursor]
    requires log == base + [Get(EncodeU32(|content|))] + [Get(inbound[start + 4..cursor])]
    ensures RecvState(inbound, cursor, outbound, log, content, Min(|content|, ChunkSize), 0, start, base, sent)
  {
    var size, end := |content|, Min(|content|, ChunkSize);
    LoopTurnsAreReadies(size);
    assert outbound == sent + ReadyWords(0);
    if start + 4 + size <= |inbound| {
      var payload := inbound[start + 4..start + 4 + size];
      assert payload[..end] == inbound[start + 4..cursor];
      assert RecvLog(payload) == [Get(EncodeU32(size))] + [Get(payload[..end])] + RecvFrom(payload, end);
    }
  }

  /** One loop turn: a ready signal written, then the next chunk read
      into place. */
  lemma RecvAdvance(inbound: seq<byte>, c0: nat, o0: seq<byte>, l0: seq<Act>, content0: seq<byte>,
                    index: nat, k: nat, start: nat, base: seq<Act>, sent: seq<byte>,
                    c1: nat, o1: seq<byte>, l1: seq<Act>, content1: seq<byte>, end: nat)
    requires RecvState(inbound, c0, o0, l0, content0, index, k, start, base, sent)
    requires index < |content0| && end == Min(index + ChunkSize, |content0|)
    requires c1 == c0 + (end - index) <= |inbound|
    requires o1 == o0 + EncodeU32(0)
    requires l1 == l0 + [Put(EncodeU32(0))] + [Get(inbound[c0..c1])]
    requires content1 == content0[..index] + inbound[c0..c1] + content0[end..]
    ensures RecvState(inbound, c1, o1, l1, content1, end, k + 1, start, base, sent)
  {
    var size := |content0|;
    FilledChunk(inbound, start + 4, content0, content1, index, end, c0, c1);
    assert |content1| == size;
    assert k + 1 + Turns(size, end) == ReadyCount(size);
    ReadyStep(sent, o0, o1, k);
    if start + 4 + size <= |inbound| {
      RecvLogStep(inbound, start + 4, size, index, end, c0, c1, l0, l1, base);
    }
  }

  /** One more ready signal written after the first k. */
  lemma ReadyStep(sent: seq<byte>, o0: seq<byte>, o1: seq<byte>, k: nat)
    requires o0 == sent + ReadyWords(k) && o1 == o0 + EncodeU32(0)
    ensures o1 == sent + ReadyWords(k + 1)
  {
    ReadyWordsSnoc(k);
    assert o1 == sent + (ReadyWords(k) + EncodeU32(0));
  }

  /** Reading the chunk [index, end) into a buffer whose first `index`
      bytes were received from `from` on extends the received prefix. */
  lemma FilledChunk(inbound: seq<byte>, from: nat, content0: seq<byte>, content1: seq<byte>,
                    index: nat, end: nat, c0: nat, c1: nat)
    requires index <= end <= |content0| && c0 == from + index && c1 == c0 + (end - index) <= |inbound|
    requires content0[..index] == inbound[from..c0]
    requires content1 == content0[..index] + inbound[c0..c1] + content0[end..]
    ensures |content1| == |content0| && content1[..end] == inbound[from..c1]
  {
    assert content1[..end] == content0[..index] + inbound[c0..c1];
  }

  /** The log step of one receiver loop turn, on the payload that starts
      at `from`. */
  lemma RecvLogStep(inbound: seq<byte>, from: nat, size: nat, index: nat, end: nat,
                    c0: nat, c1: nat, l0: seq<Act>, l1: seq<Act>, base: seq<Act>)
    requires from + size <= |inbound| && index < size < U32Limit && end == Min(index + ChunkSize, size)
    requires c0 == from + index && c1 == c0 + (end - index)
    requires l0 + RecvFrom(inbound[from..from + size], index) == base + RecvLog(inbound[from..from + size])
    requires l1 == l0 + [Put(EncodeU32(0))] + [Get(inbound[c0..c1])]
    ensures l1 + RecvFrom(inbound[from..from + size], end) == base + RecvLog(inbound[from..from + size])
  {
    var payload := inbound[from..from + size];
    SliceOfSlice(inbound, from, from + size, index, end);
    assert RecvFrom(payload, index) == [Put(EncodeU32(0)), Get(payload[index..end])] + RecvFrom(payload, end);
  }

  /** After the last loop turn the buffer holds the whole payload. */
  lemma RecvEnd(inbound: seq<byte>, cursor: nat, outbound: seq<byte>, log: seq<Act>,
                content: seq<byte>, index: nat, k: nat, start: nat, base: seq<Act>, sent: seq<byte>)
    requires RecvState(inbound, cursor, outbound, log, content, index, k, start, base, sent)
    requires index >= |content|
    ensures cursor == start + 4 + |content| && content == inbound[start + 4..cursor]
    ensures outbound == sent + ReadyWords(ReadyCount(|content|))
    ensures log == base + RecvLog(content)
  {
    assert content[..index] == content;
    assert RecvFrom(content, |content|) == [];
  }

  /** What `read_variable_data` returns is the variable field at `start`:
      a header announcing n bytes, then all n of them. */
  lemma VariableFrom(inbound: seq<byte>, start: nat, n: nat, ok: bool, data: seq<byte>)
    requires start + 4 <= |inbound| && DecodeU32(inbound[start..][..4]) == n
    requires ok == (start + 4 + n <= |inbound|)
    requires ok ==> data == inbound[start + 4..start + 4 + n]
    ensures ok == VariableAt(inbound[start..]).Some?
    ensures ok ==> data == VariableAt(inbound[start..]).value
  {
    if ok {
      assert inbound[start..][4..4 + n] == inbound[start + 4..start + 4 + n];
    }
  }

  /** The ready signals written so far extend what was written before. */
  lemma ReadyWordsPrefix(k: nat)
    ensures ReadyWords(k) <= ReadyWords(k + 1)
  {
    ReadyWordsSnoc(k);
  }

  lemma {:induction false} ReadyWordsSnoc(k: nat)
    ensures ReadyWords(k) + EncodeU32(0) == ReadyWords(k + 1)
  {
    if k > 0 {
      ReadyWordsSnoc(k - 1);
    }
  }

  /** Two pipes joined back to back: the sender's outbound stream is the
      receiver's inbound stream, and the receiver's ready signals are the
      sender's inbound stream. The receiver gets exactly the payload, and
      the ready signals it writes are exactly the ones the sender
      consumes, one per chunk after the first. */
  method PipeRoundTrip(p: seq<byte>) returns (received: seq<byte>, written: seq<byte>, consumed: seq<byte>)
    requires |p| < U32Limit
    ensures received == p
    ensures written == consumed
    ensures |written| == 4 * ReadyCount(|p|)
  {
    var words := ReadyWords(ReadyCount(|p|));
    var sender := new Pipe(words);
    var sent := sender.WriteVariableData(p);
    consumed := sender.inbound[..sender.cursor];
    var receiver := new Pipe(sender.outbound);
    VariableRoundTrip(p, []);
    assert Variable(p) + [] == receiver.Pending();
    var ok;
    ok, received := receiver.ReadVariableData();
    written := receiver.outbound;
  }
}
