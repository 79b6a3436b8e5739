/** What the Modbus thread feeds into the pipe: test data in chunks, or the packets of a connection. */
module Stream {
  import opened Bytes
  import opened Pipe
  import opened PipeCalls

  lemma TakenArePieces(s: State, run: seq<State>, pieces: seq<seq<byte>>, capacity: nat)
    requires Good(s, run, pieces, capacity)
    ensures |s.taken| <= |pieces| && s.taken == pieces[..|s.taken|]
  {
    forall k | 0 <= k < |s.taken| ensures k < |pieces| && s.taken[k] == pieces[k] {
      assert k < |pieces|;
      assert Out(s, k) && Kth(s, k) == pieces[k];
    }
  }

  // ---- MbPipeThroughputTest ----

  function Chunks(data: seq<byte>, size: nat): (r: seq<seq<byte>>)
    requires size > 0
    ensures forall k :: 0 <= k < |r| ==> 0 < |r[k]| <= size && (k < |r| - 1 ==> |r[k]| == size)
  {
    if data == [] then [] else if |data| <= size then [data] else [data[..size]] + Chunks(data[size..], size)
  }

  lemma {:induction false} ChunksAppend(parts: seq<seq<byte>>, data: seq<byte>, size: nat)
    requires size > 0
    ensures Concat(parts + Chunks(data, size)) == Concat(parts) + data
    decreases |data|
  {
    var cs := Chunks(data, size);
    if data == [] {
      assert parts + cs == parts && Concat(parts) + data == Concat(parts);
    } else if |data| <= size {
      assert (parts + [data])[..|parts|] == parts;
    } else {
      var first, rest := data[..size], data[size..];
      assert parts + cs == (parts + [first]) + Chunks(rest, size);
      assert (parts + [first])[..|parts|] == parts;
      ChunksAppend(parts + [first], rest, size);
      assert data == first + rest;
      Assoc(Concat(parts), first, rest);
    }
  }

  /** What is still to be sent when `remaining` bytes are; it ends below zero. */
  function Rest(data: seq<byte>, remaining: int): seq<byte>
    requires remaining <= |data|
  {
    if remaining > 0 then data[|data| - remaining..] else []
  }

  /** What has been sent and what has not make up the data. */
  ghost predicate Sending(written: seq<byte>, pieces: seq<seq<byte>>, data: seq<byte>, remaining: int, maxFill: nat)
    requires maxFill > 0
  {
    && remaining <= |data|
    && written + Rest(data, remaining) == data
    && pieces + Chunks(Rest(data, remaining), maxFill) == Chunks(data, maxFill)
  }

  lemma SentNext(written: seq<byte>, pieces: seq<seq<byte>>, data: seq<byte>,
                 remaining: int, maxFill: nat, chunk: seq<byte>)
    requires maxFill > 0 && 0 < remaining && Sending(written, pieces, data, remaining, maxFill)
    requires chunk == data[|data| - remaining..][..if remaining < maxFill then remaining else maxFill]
    ensures 0 < |chunk| <= maxFill && written + chunk <= data
    ensures Sending(written + chunk, pieces + [chunk], data, remaining - maxFill, maxFill)
  {
    var rest := Rest(data, remaining - maxFill);
    NextChunk(data, remaining, maxFill, chunk);
    FirstChunk(chunk, rest, maxFill);
    hide Chunks, Rest;
    Assoc(written, chunk, rest);
    AssocOf(pieces, [chunk], Chunks(rest, maxFill));
  }

  lemma NextChunk(data: seq<byte>, remaining: int, maxFill: nat, chunk: seq<byte>)
    requires maxFill > 0 && 0 < remaining <= |data|
    requires chunk == data[|data| - remaining..][..if remaining < maxFill then remaining else maxFill]
    ensures 0 < |chunk| <= maxFill && Rest(data, remaining) == chunk + Rest(data, remaining - maxFill)
    ensures Rest(data, remaining - maxFill) == [] || |chunk| == maxFill
  {
    hide Chunks;
    var r := Rest(data, remaining);
    if remaining > maxFill {
      assert r[maxFill..] == Rest(data, remaining - maxFill);
    }
  }

  lemma FirstChunk(chunk: seq<byte>, rest: seq<byte>, size: nat)
    requires 0 < |chunk| <= size && (rest == [] || |chunk| == size)
    ensures Chunks(chunk + rest, size) == [chunk] + Chunks(rest, size)
  {
    if rest == [] {
      assert chunk + rest == chunk && [chunk] + [] == [chunk];
    } else {
      assert (chunk + rest)[..size] == chunk && (chunk + rest)[size..] == rest;
    }
  }

  lemma SentAll(written: seq<byte>, pieces: seq<seq<byte>>, data: seq<byte>, remaining: int, maxFill: nat)
    requires maxFill > 0 && remaining <= 0 && Sending(written, pieces, data, remaining, maxFill)
    ensures written == data && pieces == Chunks(data, maxFill) && Concat(pieces) == data
  {
    assert written + [] == written && pieces + [] == pieces;
    ChunksAppend([], data, maxFill);
    assert [] + pieces == pieces && [] + data == data;
  }

  lemma SentSoFar(written: seq<byte>, pieces: seq<seq<byte>>, data: seq<byte>, remaining: int, maxFill: nat)
    requires maxFill > 0 && Sending(written, pieces, data, remaining, maxFill)
    ensures pieces <= Chunks(data, maxFill)
  {
  }

  /** One turn: the chunk goes into the current buffer, which is then published. */
  method SendChunk(pipe: SensorDataPipe, chunk: seq<byte>) returns (blocked: bool)
    requires pipe.Valid() && pipe.s.writer.Filling? && pipe.s.buffers[pipe.s.writeIdx] == [] && |chunk| <= pipe.capacity
    modifies pipe
    ensures pipe.Valid() && pipe.s.written == old(pipe.s.written) + chunk
    ensures !blocked ==> pipe.s.writer.Filling? && pipe.s.buffers[pipe.s.writeIdx] == []
                         && pipe.pieces == old(pipe.pieces) + [chunk]
    ensures blocked ==> Starved(pipe.s) && pipe.s.buffers[pipe.s.writeIdx] == chunk && pipe.pieces == old(pipe.pieces)
  {
    hide Good;
    var ok := pipe.Append(chunk);
    assert pipe.s.buffers[pipe.s.writeIdx] == chunk;
    var buf;
    blocked, buf := pipe.GetWriteBuffer();
  }

  /** All the data goes through, cut into chunks of BufferMaxFill, in order. `finished` unless the
      run considered ends while the writer waits for the reader, the last chunk it wrote unpublished. */
  method ThroughputTest(pipe: SensorDataPipe, data: seq<byte>, maxFill: nat) returns (finished: bool)
    requires pipe.Valid() && pipe.s.writer.Filling? && pipe.pieces == [] && pipe.s.written == []
    requires pipe.s.buffers[pipe.s.writeIdx] == [] && 0 < maxFill <= pipe.capacity
    modifies pipe
    ensures pipe.Valid()
    ensures Concat(pipe.s.taken) <= pipe.s.written <= data
    ensures finished ==> pipe.s.written == data && pipe.pieces == Chunks(data, maxFill)
    ensures !finished ==> Starved(pipe.s) && pipe.pieces + [pipe.s.buffers[pipe.s.writeIdx]] <= Chunks(data, maxFill)
    ensures finished && |pipe.s.taken| == pipe.s.published ==>
              pipe.s.taken == Chunks(data, maxFill) && Concat(pipe.s.taken) == data
  {
    hide Good, Chunks, Sending;
    var remaining: int := |data|;
    assert Sending([], [], data, remaining, maxFill) by { NothingSent(data, maxFill); }
    while remaining > 0
      invariant pipe.Valid() && pipe.s.writer.Filling? && pipe.s.buffers[pipe.s.writeIdx] == []
      invariant remaining <= |data| && Sending(pipe.s.written, pipe.pieces, data, remaining, maxFill)
    {
      var size := if remaining < maxFill then remaining else maxFill;
      var chunk := data[|data| - remaining..][..size];
      SentNext(pipe.s.written, pipe.pieces, data, remaining, maxFill, chunk);
      var blocked := SendChunk(pipe, chunk);
      if blocked {
        SentSoFar(pipe.s.written, pipe.pieces + [chunk], data, remaining - maxFill, maxFill);
        Finish(pipe);
        return false;
      }
      remaining := remaining - maxFill;
    }
    SentAll(pipe.s.written, pipe.pieces, data, remaining, maxFill);
    var blocked := pipe.Flush();
    Finish(pipe);
    assert pipe.pieces[..|pipe.pieces|] == pipe.pieces;
    finished := true;
  }

  lemma NothingSent(data: seq<byte>, maxFill: nat)
    requires maxFill > 0
    ensures Sending([], [], data, |data|, maxFill)
  {
    assert Rest(data, |data|) == data;
    assert [] + data == data && [] + Chunks(data, maxFill) == Chunks(data, maxFill);
  }

  lemma Finish(pipe: SensorDataPipe)
    requires pipe.Valid()
    ensures |pipe.s.taken| <= |pipe.pieces| == pipe.s.published && pipe.s.taken == pipe.pieces[..|pipe.s.taken|]
    ensures Concat(pipe.s.taken) <= pipe.s.written
  {
    TakenArePieces(pipe.s, pipe.run, pipe.pieces, pipe.capacity);
    StreamConserved(pipe.run, pipe.s.count, |pipe.run| - 1);
  }
}
