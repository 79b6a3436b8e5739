/** The pipe's buffers are arenas: what the pipe says a buffer holds is what lies in its arena. */
module PipeBuffers {
  import opened Bytes
  import opened Arena
  import opened UArena
  import opened Pipe
  import opened PipeCalls

  /** The arenas lie one behind the other, and each holds up to its position what the pipe has in
      that buffer. */
  ghost predicate Backed(pipe: SensorDataPipe, buffers: seq<UArena?>, mem: array<byte>)
    reads pipe, buffers, mem
  {
    && AllThere(buffers) && |buffers| == |pipe.s.buffers|
    && LaidOut(buffers, mem, pipe.capacity, 0, mem.Length)
    && forall i :: 0 <= i < |buffers| ==> Holds(buffers[i], mem, pipe.s.buffers[i])
  }

  ghost predicate Holds(b: UArena?, mem: array<byte>, content: seq<byte>)
    reads b, mem
  {
    b != null && b.Valid() && b.mem == mem && Lies(mem[..], b.base, b.cur, content)
  }

  predicate Lies(bytes: seq<byte>, base: nat, cur: nat, content: seq<byte>) {
    base + cur <= |bytes| && bytes[base..base + cur] == content
  }

  /** A pipe as it was created. */
  lemma StartsBacked(pipe: SensorDataPipe, buffers: seq<UArena?>, mem: array<byte>, lo: nat, hi: nat)
    requires |buffers| >= 2 && pipe.s.buffers == Init(|buffers|).buffers && hi <= mem.Length
    requires AllThere(buffers) && Unused(buffers) && LaidOut(buffers, mem, pipe.capacity, lo, hi)
    ensures Backed(pipe, buffers, mem)
  {
    forall i | 0 <= i < |buffers| ensures Holds(buffers[i], mem, pipe.s.buffers[i]) {
      assert buffers[i] != null && pipe.s.buffers[i] == [];
    }
  }

  /** The memory of one buffer is not that of another. */
  lemma Apart(buffers: seq<UArena?>, mem: array<byte>, size: nat, i: nat, j: nat)
    requires AllThere(buffers) && LaidOut(buffers, mem, size, 0, mem.Length) && i < |buffers| && j < |buffers| && i != j
    ensures buffers[i] != null && buffers[j] != null && buffers[i] != buffers[j]
    ensures buffers[i].base + size <= buffers[j].base || buffers[j].base + size <= buffers[i].base
    ensures buffers[i].cap == size && buffers[i].mem == mem && buffers[i].base + size <= mem.Length
  {
  }

  /** What lies in one buffer is unaffected by what happens in another. */
  lemma Elsewhere(before: seq<byte>, after: seq<byte>, base: nat, cur: nat, content: seq<byte>, lo: nat, hi: nat)
    requires Lies(before, base, cur, content) && |after| == |before| && (base + cur <= lo || hi <= base)
    requires forall k :: 0 <= k < |before| && !(lo <= k < hi) ==> after[k] == before[k]
    ensures Lies(after, base, cur, content)
  {
    assert after[base..base + cur] == before[base..base + cur];
  }

  /** memcpy to the address. */
  method CopyTo(mem: array<byte>, at: nat, data: seq<byte>)
    requires at + |data| <= mem.Length
    modifies mem
    ensures forall k :: 0 <= k < mem.Length ==>
              mem[k] == if at <= k < at + |data| then data[k - at] else old(mem[k])
  {
    var i := 0;
    while i < |data|
      invariant 0 <= i <= |data|
      invariant forall k :: 0 <= k < mem.Length ==>
                  mem[k] == if at <= k < at + i then data[k - at] else old(mem[k])
    {
      mem[at + i] := data[i];
      i := i + 1;
    }
  }

  /** ArenaAlloc on a buffer's arena and a copy into what it gives. */
  method AllocAndCopy(b: UArena, data: seq<byte>, mem: array<byte>, ghost content: seq<byte>) returns (ok: bool)
    requires Holds(b, mem, content)
    modifies b, mem
    ensures ok <==> |content| + |data| <= b.cap
    ensures Holds(b, mem, if ok then content + data else content)
    ensures forall k :: 0 <= k < mem.Length && !(b.base <= k < b.base + b.cap) ==> mem[k] == old(mem[k])
  {
    hide Do, WellFormed;
    CurInside(b.view);
    var p := b.Alloc(|data|);
    CurInside(b.view);
    ok := p.Some?;
    if ok {
      CopyTo(mem, p.value, data);
      assert mem[b.base..b.base + b.cur] == old(mem[b.base..b.base + b.cur]) + data;
    }
  }

  /** The same on the current buffer, seen from the pipe. */
  method Append(pipe: SensorDataPipe, buffers: seq<UArena?>, data: seq<byte>, mem: array<byte>) returns (ok: bool)
    requires pipe.Valid() && pipe.s.writer.Filling? && Backed(pipe, buffers, mem)
    modifies pipe, buffers, mem
    ensures pipe.Valid() && pipe.s.writer.Filling? && Backed(pipe, buffers, mem)
    ensures ok <==> |old(pipe.s).buffers[old(pipe.s).writeIdx]| + |data| <= pipe.capacity
    ensures pipe.s.written == if ok then old(pipe.s.written) + data else old(pipe.s.written)
    ensures ok ==> pipe.s.writeIdx == old(pipe.s).writeIdx
                   && pipe.s.buffers[pipe.s.writeIdx] == old(pipe.s).buffers[pipe.s.writeIdx] + data
    ensures !ok ==> pipe.s == old(pipe.s)
  {
    hide Good, LaidOut, Lies;
    var w := pipe.s.writeIdx;
    ghost var before := mem[..];
    ghost var views := pipe.s.buffers;
    assert Holds(buffers[w], mem, views[w]);
    var b := buffers[w];
    BufferCap(buffers, mem, pipe.capacity, w);
    ok := AllocAndCopy(b, data, mem, views[w]);
    forall i | 0 <= i < |buffers| && i != w ensures Holds(buffers[i], mem, views[i]) {
      Apart(buffers, mem, pipe.capacity, i, w);
      CurInside(buffers[i].view);
      Elsewhere(before, mem[..], buffers[i].base, buffers[i].cur, views[i], b.base, b.base + b.cap);
    }
    if ok {
      var appended := pipe.Append(data);
    }
  }

  lemma BufferCap(buffers: seq<UArena?>, mem: array<byte>, size: nat, i: nat)
    requires AllThere(buffers) && LaidOut(buffers, mem, size, 0, mem.Length) && i < |buffers|
    ensures buffers[i] != null && buffers[i].cap == size
  {
  }

  /** SdPipeGetWriteBuffer, whose last step frees the next buffer's arena. */
  method MoveOn(pipe: SensorDataPipe, buffers: seq<UArena?>, mem: array<byte>) returns (blocked: bool, buf: UArena?)
    requires pipe.Valid() && pipe.s.writer.Filling? && Backed(pipe, buffers, mem)
    modifies pipe, buffers
    ensures pipe.Valid() && Backed(pipe, buffers, mem)
    ensures !blocked ==> buf != null && pipe.s.writer.Filling? && buf == buffers[pipe.s.writeIdx] && buf.cur == 0
    ensures !blocked ==> var was := old(pipe.s);
                         && pipe.s.writeIdx == (was.writeIdx + 1) % was.count
                         && pipe.s.buffers == was.buffers[pipe.s.writeIdx := []]
                         && pipe.pieces == old(pipe.pieces) + [was.buffers[was.writeIdx]]
    ensures blocked ==> Starved(pipe.s) && old(pipe.s).writeEvents == 0 && pipe.s.buffers == old(pipe.s).buffers
  {
    hide Good, Holds, LaidOut, Do, WellFormed;
    var next;
    ghost var views := pipe.s.buffers;
    assert forall i :: 0 <= i < |buffers| ==> Holds(buffers[i], mem, views[i]);
    blocked, next := pipe.GetWriteBuffer();
    buf := null;
    if !blocked {
      buf := buffers[next];
      assert Holds(buf, mem, views[next]);
      FreeBuffer(buf, mem, views[next]);
      forall i | 0 <= i < |buffers| && i != next ensures Holds(buffers[i], mem, views[i]) {
        Apart(buffers, mem, pipe.capacity, i, next);
        assert Holds(buffers[i], mem, views[i]);
      }
    }
  }

  method FreeBuffer(b: UArena, mem: array<byte>, ghost content: seq<byte>)
    requires Holds(b, mem, content)
    modifies b
    ensures Holds(b, mem, []) && b.cur == 0
  {
    b.Free();
  }
}
