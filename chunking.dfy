/** The chunked transfer of a variable-length payload, as a schedule of
    I/O steps. The sender writes the 4-byte length, then the first chunk
    unsolicited, then, for every later chunk, waits for one 4-byte
    "ready" signal from the receiver before writing it. The receiver reads
    the length, the first chunk, and before every later chunk writes a
    ready signal of value 0. A chunk is at most 1024 bytes. */
module Chunking {
  import opened Bytes

  /** `BUFFER_SIZE`: the largest chunk either side moves at once. */
  const ChunkSize: nat := 1024

  function Min(a: nat, b: nat): nat
  {
    if a <= b then a else b
  }

  /** One step of a process's I/O: bytes written to its outbound stream,
      or bytes taken from its inbound stream. */
  datatype Act = Put(bytes: seq<byte>) | Get(bytes: seq<byte>)

  /** Everything a log wrote, in order. */
  function Puts(log: seq<Act>): seq<byte>
  {
    if log == [] then [] else (if log[0].Put? then log[0].bytes else []) + Puts(log[1..])
  }

  /** Everything a log read, in order. */
  function Gets(log: seq<Act>): seq<byte>
  {
    if log == [] then [] else (if log[0].Get? then log[0].bytes else []) + Gets(log[1..])
  }

  lemma {:induction false} PutsAppend(a: seq<Act>, b: seq<Act>)
    ensures Puts(a + b) == Puts(a) + Puts(b)
  {
    if a == [] {
      assert a + b == b;
    } else {
      assert (a + b)[0] == a[0];
      assert (a + b)[1..] == a[1..] + b;
      PutsAppend(a[1..], b);
    }
  }

  lemma {:induction false} GetsAppend(a: seq<Act>, b: seq<Act>)
    ensures Gets(a + b) == Gets(a) + Gets(b)
  {
    if a == [] {
      assert a + b == b;
    } else {
      assert (a + b)[0] == a[0];
      assert (a + b)[1..] == a[1..] + b;
      GetsAppend(a[1..], b);
    }
  }

  /** The wire bytes of a two-step log. */
  lemma PairWire(x: Act, y: Act)
    ensures Puts([x, y]) == (if x.Put? then x.bytes else []) + (if y.Put? then y.bytes else [])
    ensures Gets([x, y]) == (if x.Get? then x.bytes else []) + (if y.Get? then y.bytes else [])
  {
    assert [x, y][1..] == [y];
    assert [y][1..] == [];
    assert Puts([y]) == (if y.Put? then y.bytes else []) + Puts([]);
    assert Gets([y]) == (if y.Get? then y.bytes else []) + Gets([]);
  }

  /** The same step seen from the other end of the pipe: what one side
      writes, the other reads. */
  function Swap(a: Act): Act
  {
    match a
    case Put(b) => Get(b)
    case Get(b) => Put(b)
  }

  function Mirror(log: seq<Act>): (r: seq<Act>)
    ensures |r| == |log|
  {
    if log == [] then [] else [Swap(log[0])] + Mirror(log[1..])
  }

  lemma {:induction false} MirrorAppend(a: seq<Act>, b: seq<Act>)
    ensures Mirror(a + b) == Mirror(a) + Mirror(b)
  {
    if a == [] {
      assert a + b == b;
    } else {
      assert (a + b)[0] == a[0];
      assert (a + b)[1..] == a[1..] + b;
      MirrorAppend(a[1..], b);
    }
  }

  /** The number of ready signals for an n-byte payload: one per chunk
      after the first, which is the number of turns of the receiver's
      loop. */
  function ReadyCount(n: nat): nat
  {
    Turns(n, Min(n, ChunkSize))
  }

  /** The number of turns of a `while index < size` chunk loop that
      starts at `index`. */
  function Turns(n: nat, index: nat): nat
    decreases n - index
  {
    if index >= n then 0 else 1 + Turns(n, Min(index + ChunkSize, n))
  }

  lemma {:induction false} TurnsCount(n: nat, index: nat)
    ensures Turns(n, index) == if index >= n then 0 else (n - index + ChunkSize - 1) / ChunkSize
    decreases n - index
  {
    if index < n && index + ChunkSize < n {
      TurnsCount(n, index + ChunkSize);
    }
  }

  /** Both loops, the sender's from index 1024 and the receiver's from
      min(n, 1024), turn once per ready signal. */
  lemma LoopTurnsAreReadies(n: nat)
    ensures Turns(n, ChunkSize) == ReadyCount(n)
    ensures Turns(n, Min(n, ChunkSize)) == ReadyCount(n)
  {
    TurnsCount(n, ChunkSize);
    TurnsCount(n, Min(n, ChunkSize));
  }

  /** One ready signal per chunk after the first: ceil(n / 1024) - 1,
      and none for an empty payload. */
  lemma ReadyCountClosed(n: nat)
    ensures ReadyCount(n) == if n == 0 then 0 else (n + ChunkSize - 1) / ChunkSize - 1
  {
    TurnsCount(n, Min(n, ChunkSize));
  }

  /** k ready signals of value 0, as the receiver writes them. */
  function ReadyWords(k: nat): (r: seq<byte>)
    ensures |r| == 4 * k
  {
    if k == 0 then [] else EncodeU32(0) + ReadyWords(k - 1)
  }

  /** The sender's steps from `index` on: for each remaining chunk, one
      ready signal taken from `ready`, then the chunk. */
  function SendFrom(p: seq<byte>, index: nat, ready: seq<byte>): seq<Act>
    requires |ready| == 4 * Turns(|p|, index)
    decreases |p| - index
  {
    if index >= |p| then []
    else
      var end := Min(index + ChunkSize, |p|);
      [Get(ready[..4]), Put(p[index..end])] + SendFrom(p, end, ready[4..])
  }

  /** `write_variable_data`: the length, the first chunk (possibly empty),
      then the paced later chunks. */
  function SendLog(p: seq<byte>, ready: seq<byte>): seq<Act>
    requires |p| < U32Limit
    requires |ready| == 4 * ReadyCount(|p|)
  {
    LoopTurnsAreReadies(|p|);
    [Put(EncodeU32(|p|)), Put(p[..Min(|p|, ChunkSize)])] + SendFrom(p, ChunkSize, ready)
  }

  /** The receiver's steps from `index` on: for each remaining chunk, one
      ready signal written, then the chunk read. */
  function RecvFrom(data: seq<byte>, index: nat): seq<Act>
    decreases |data| - index
  {
    if index >= |data| then []
    else
      var end := Min(index + ChunkSize, |data|);
      [Put(EncodeU32(0)), Get(data[index..end])] + RecvFrom(data, end)
  }

  /** `read_variable_data` receiving `data`: the length, then for a
      non-empty payload the first chunk and the paced later chunks. */
  function RecvLog(data: seq<byte>): seq<Act>
    requires |data| < U32Limit
  {
    [Get(EncodeU32(|data|))]
      + (if |data| > 0
         then [Get(data[..Min(|data|, ChunkSize)])] + RecvFrom(data, Min(|data|, ChunkSize))
         else [])
  }

  /** One step of the paced loop: a ready signal read, then one chunk
      written. */
  lemma SendFromStep(p: seq<byte>, index: nat, ready: seq<byte>)
    requires |ready| == 4 * Turns(|p|, index)
    requires index < |p|
    ensures Turns(|p|, index) == 1 + Turns(|p|, Min(index + ChunkSize, |p|))
    ensures Puts(SendFrom(p, index, ready))
         == p[index..Min(index + ChunkSize, |p|)] + Puts(SendFrom(p, Min(index + ChunkSize, |p|), ready[4..]))
    ensures Gets(SendFrom(p, index, ready))
         == ready[..4] + Gets(SendFrom(p, Min(index + ChunkSize, |p|), ready[4..]))
  {
    var end := Min(index + ChunkSize, |p|);
    var head := [Get(ready[..4]), Put(p[index..end])];
    var rest := SendFrom(p, end, ready[4..]);
    assert SendFrom(p, index, ready) == head + rest;
    PairWire(head[0], head[1]);
    PutsAppend(head, rest);
    GetsAppend(head, rest);
  }

  lemma {:induction false} SendFromPuts(p: seq<byte>, index: nat, ready: seq<byte>)
    requires |ready| == 4 * Turns(|p|, index)
    ensures Puts(SendFrom(p, index, ready)) == if index >= |p| then [] else p[index..]
    decreases |p| - index
  {
    if index < |p| {
      var end := Min(index + ChunkSize, |p|);
      var rest := SendFrom(p, end, ready[4..]);
      var tail := if end >= |p| then [] else p[end..];
      assert Puts(rest) == tail by {
        SendFromStep(p, index, ready);
        SendFromPuts(p, end, ready[4..]);
      }
      assert Puts(SendFrom(p, index, ready)) == p[index..end] + tail by {
        SendFromStep(p, index, ready);
      }
      assert p[index..] == p[index..end] + tail;
    }
  }

  lemma {:induction false} SendFromGets(p: seq<byte>, index: nat, ready: seq<byte>)
    requires |ready| == 4 * Turns(|p|, index)
    ensures Gets(SendFrom(p, index, ready)) == ready
    decreases |p| - index
  {
    if index < |p| {
      SendFromStep(p, index, ready);
      SendFromGets(p, Min(index + ChunkSize, |p|), ready[4..]);
      assert ready == ready[..4] + ready[4..];
    }
  }

  /** The sender writes exactly the length followed by the payload. */
  lemma SendLogPuts(p: seq<byte>, ready: seq<byte>)
    requires |p| < U32Limit
    requires |ready| == 4 * ReadyCount(|p|)
    ensures Puts(SendLog(p, ready)) == EncodeU32(|p|) + p
  {
    LoopTurnsAreReadies(|p|);
    var first := Min(|p|, ChunkSize);
    var rest := SendFrom(p, ChunkSize, ready);
    var tail := if ChunkSize >= |p| then [] else p[ChunkSize..];
    assert Puts(rest) == tail by {
      SendFromPuts(p, ChunkSize, ready);
    }
    assert Puts(SendLog(p, ready)) == EncodeU32(|p|) + (p[..first] + tail) by {
      var head := [Put(EncodeU32(|p|)), Put(p[..first])];
      assert SendLog(p, ready) == head + rest;
      PairWire(head[0], head[1]);
      PutsAppend(head, rest);
    }
    assert p == p[..first] + tail;
  }

  /** The sender reads exactly the ready signals it was given. */
  lemma SendLogGets(p: seq<byte>, ready: seq<byte>)
    requires |p| < U32Limit
    requires |ready| == 4 * ReadyCount(|p|)
    ensures Gets(SendLog(p, ready)) == ready
  {
    LoopTurnsAreReadies(|p|);
    var head := [Put(EncodeU32(|p|)), Put(p[..Min(|p|, ChunkSize)])];
    var rest := SendFrom(p, ChunkSize, ready);
    assert SendLog(p, ready) == head + rest;
    PairWire(head[0], head[1]);
    assert Gets(SendLog(p, ready)) == Gets(rest) by {
      GetsAppend(head, rest);
    }
    SendFromGets(p, ChunkSize, ready);
  }

  /** The sender writes exactly the length followed by the payload, and
      reads exactly the ready signals it was given. */
  lemma SendLogWire(p: seq<byte>, ready: seq<byte>)
    requires |p| < U32Limit
    requires |ready| == 4 * ReadyCount(|p|)
    ensures Puts(SendLog(p, ready)) == EncodeU32(|p|) + p
    ensures Gets(SendLog(p, ready)) == ready
  {
    SendLogPuts(p, ready);
    SendLogGets(p, ready);
  }

  lemma {:induction false} SendFromLength(p: seq<byte>, index: nat, ready: seq<byte>)
    requires |ready| == 4 * Turns(|p|, index)
    ensures |SendFrom(p, index, ready)| == 2 * Turns(|p|, index)
    decreases |p| - index
  {
    if index < |p| {
      assert Turns(|p|, index) == 1 + Turns(|p|, Min(index + ChunkSize, |p|));
      SendFromLength(p, Min(index + ChunkSize, |p|), ready[4..]);
    }
  }

  lemma {:induction false} SendFromGetAt(p: seq<byte>, index: nat, ready: seq<byte>, j: nat)
    requires |ready| == 4 * Turns(|p|, index)
    requires j < Turns(|p|, index)
    ensures |SendFrom(p, index, ready)| == 2 * Turns(|p|, index)
    ensures SendFrom(p, index, ready)[2 * j] == Get(ready[4 * j..4 * j + 4])
    decreases |p| - index
  {
    SendFromLength(p, index, ready);
    var end := Min(index + ChunkSize, |p|);
    assert Turns(|p|, index) == 1 + Turns(|p|, end);
    var head := [Get(ready[..4]), Put(p[index..end])];
    var rest := SendFrom(p, end, ready[4..]);
    assert SendFrom(p, index, ready) == head + rest;
    if j > 0 {
      var k := j - 1;
      assert 2 * j == 2 + 2 * k && 4 * j == 4 + 4 * k;
      SendFromGetAt(p, end, ready[4..], k);
      assert (head + rest)[2 + 2 * k] == rest[2 * k];
    }
  }

  lemma {:induction false} SendFromPutAt(p: seq<byte>, index: nat, ready: seq<byte>, j: nat)
    requires |ready| == 4 * Turns(|p|, index)
    requires j < Turns(|p|, index)
    ensures |SendFrom(p, index, ready)| == 2 * Turns(|p|, index)
    ensures index + ChunkSize * j < |p|
    ensures SendFrom(p, index, ready)[2 * j + 1]
         == Put(p[index + ChunkSize * j..Min(index + ChunkSize * (j + 1), |p|)])
    decreases |p| - index
  {
    SendFromLength(p, index, ready);
    var end := Min(index + ChunkSize, |p|);
    assert Turns(|p|, index) == 1 + Turns(|p|, end);
    var head := [Get(ready[..4]), Put(p[index..end])];
    var rest := SendFrom(p, end, ready[4..]);
    assert SendFrom(p, index, ready) == head + rest;
    if j > 0 {
      var k := j - 1;
      assert end == index + ChunkSize;
      assert 2 * j + 1 == 2 + (2 * k + 1);
      SendFromPutAt(p, end, ready[4..], k);
      assert (head + rest)[2 + (2 * k + 1)] == rest[2 * k + 1];
    }
  }

  /** The pacing of `write_variable_data`: after the length and the
      unsolicited first chunk p[0, min(n, 1024)), the j-th later step pair
      is one ready signal read, then the slice
      p[1024 (j+1), min(1024 (j+2), n)), a non-empty chunk of at most 1024
      bytes; there is one such pair per ready signal and no other step. */
  lemma SendLogPaced(p: seq<byte>, ready: seq<byte>, j: nat)
    requires |p| < U32Limit
    requires |ready| == 4 * ReadyCount(|p|)
    requires j < ReadyCount(|p|)
    ensures |SendLog(p, ready)| == 2 + 2 * ReadyCount(|p|)
    ensures SendLog(p, ready)[1] == Put(p[..Min(|p|, ChunkSize)])
    ensures SendLog(p, ready)[2 + 2 * j] == Get(ready[4 * j..4 * j + 4])
    ensures ChunkSize * (j + 1) < |p|
    ensures SendLog(p, ready)[3 + 2 * j]
         == Put(p[ChunkSize * (j + 1)..Min(ChunkSize * (j + 2), |p|)])
    ensures 0 < Min(ChunkSize * (j + 2), |p|) - ChunkSize * (j + 1) <= ChunkSize
  {
    LoopTurnsAreReadies(|p|);
    SendFromGetAt(p, ChunkSize, ready, j);
    SendFromPutAt(p, ChunkSize, ready, j);
  }

  lemma {:induction false} RecvFromGets(data: seq<byte>, index: nat)
    ensures Gets(RecvFrom(data, index)) == if index >= |data| then [] else data[index..]
    decreases |data| - index
  {
    if index < |data| {
      var end := Min(index + ChunkSize, |data|);
      var head := [Put(EncodeU32(0)), Get(data[index..end])];
      var rest := RecvFrom(data, end);
      assert RecvFrom(data, index) == head + rest;
      assert Gets(head) == data[index..end] by {
        PairWire(head[0], head[1]);
      }
      assert Gets(rest) == (if end >= |data| then [] else data[end..]) by {
        RecvFromGets(data, end);
      }
      GetsAppend(head, rest);
      if end < |data| {
        assert data[index..] == data[index..end] + data[end..];
      } else {
        assert data[index..end] + [] == data[index..];
      }
    }
  }

  lemma {:induction false} RecvFromPuts(data: seq<byte>, index: nat)
    ensures Puts(RecvFrom(data, index)) == ReadyWords(Turns(|data|, index))
    decreases |data| - index
  {
    if index < |data| {
      var end := Min(index + ChunkSize, |data|);
      var head := [Put(EncodeU32(0)), Get(data[index..end])];
      var rest := RecvFrom(data, end);
      assert RecvFrom(data, index) == head + rest;
      assert Puts(head) == EncodeU32(0) by {
        PairWire(head[0], head[1]);
      }
      assert Puts(rest) == ReadyWords(Turns(|data|, end)) by {
        RecvFromPuts(data, end);
      }
      PutsAppend(head, rest);
    }
  }

  /** The receiver reads exactly the length followed by the payload, and
      writes exactly one ready signal of value 0 per chunk after the first. */
  lemma RecvLogWire(data: seq<byte>)
    requires |data| < U32Limit
    ensures Gets(RecvLog(data)) == EncodeU32(|data|) + data
    ensures Puts(RecvLog(data)) == ReadyWords(ReadyCount(|data|))
  {
    if |data| > 0 {
      var first := Min(|data|, ChunkSize);
      var head := [Get(EncodeU32(|data|))];
      var one := [Get(data[..first])];
      var rest := RecvFrom(data, first);
      assert RecvLog(data) == head + (one + rest);
      assert Gets(RecvLog(data)) == EncodeU32(|data|) + data by {
        RecvFromGets(data, first);
        GetsAppend(one, rest);
        GetsAppend(head, one + rest);
        if first < |data| {
          assert data == data[..first] + data[first..];
        }
      }
      assert Puts(RecvLog(data)) == ReadyWords(ReadyCount(|data|)) by {
        LoopTurnsAreReadies(|data|);
        RecvFromPuts(data, first);
        PutsAppend(one, rest);
        PutsAppend(head, one + rest);
      }
    }
  }

  lemma {:induction false} SendRecvFromMirror(p: seq<byte>, index: nat)
    ensures |ReadyWords(Turns(|p|, index))| == 4 * Turns(|p|, index)
    ensures Mirror(SendFrom(p, index, ReadyWords(Turns(|p|, index)))) == RecvFrom(p, index)
    decreases |p| - index
  {
    if index < |p| {
      var end := Min(index + ChunkSize, |p|);
      var words := ReadyWords(Turns(|p|, index));
      assert words[..4] == EncodeU32(0) && words[4..] == ReadyWords(Turns(|p|, end));
      SendRecvFromMirror(p, end);
      MirrorAppend([Get(words[..4]), Put(p[index..end])], SendFrom(p, end, words[4..]));
    }
  }

  /** The two ends agree step for step: when the receiver's ready signals
      are what the sender reads, the sender's log of a non-empty payload,
      seen from the other end, is exactly the receiver's log. (For an empty
      payload the sender also writes an empty first chunk, which the
      receiver never reads.) */
  lemma SendRecvMirror(p: seq<byte>)
    requires 0 < |p| < U32Limit
    ensures |ReadyWords(ReadyCount(|p|))| == 4 * ReadyCount(|p|)
    ensures Mirror(SendLog(p, ReadyWords(ReadyCount(|p|)))) == RecvLog(p)
  {
    LoopTurnsAreReadies(|p|);
    var first := Min(|p|, ChunkSize);
    var words := ReadyWords(ReadyCount(|p|));
    SendRecvFromMirror(p, ChunkSize);
    if |p| <= ChunkSize {
      assert RecvFrom(p, first) == [] && SendFrom(p, ChunkSize, words) == [];
    } else {
      assert first == ChunkSize;
    }
    MirrorAppend([Put(EncodeU32(|p|)), Put(p[..first])], SendFrom(p, ChunkSize, words));
  }
}
