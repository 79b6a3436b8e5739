/** The pipe's calls. */
module PipeCalls {
  import opened Bytes
  import opened Pipe

  // As the writing thread makes them. Every assignment to the shared state is one step of the writer,
  // and between any two of them the reading thread takes as many steps of its own as it likes.

  /** b differs from a by steps of the reader. */
  ghost predicate ReaderOnly(a: State, b: State) {
    && b == a.(readIdx := b.readIdx, full := b.full, writeEvents := b.writeEvents, readEvents := b.readEvents,
               reader := b.reader, taken := b.taken, order := b.order)
    && a.writeEvents <= b.writeEvents && |a.taken| <= |b.taken|
  }

  /** The contents published so far are where they belong: handed over, or waiting to be. */
  ghost predicate Delivered(s: State, pieces: seq<seq<byte>>) {
    && |pieces| == s.published
    && forall k :: 0 <= k < |pieces| ==> Out(s, k) && Kth(s, k) == pieces[k]
  }

  ghost predicate Within(s: State, capacity: nat) {
    forall i :: 0 <= i < |s.buffers| ==> |s.buffers[i]| <= capacity
  }

  /** The state at the end of a run, with the record of what was published on the way. */
  ghost predicate Good(s: State, run: seq<State>, pieces: seq<seq<byte>>, capacity: nat) {
    && IsRun(run, s.count) && run[|run| - 1] == s
    && Inv(s) && Delivered(s, pieces) && Within(s, capacity)
  }

  /** The indices are in range. */
  predicate InRange(s: State) {
    s.count >= 2 && |s.buffers| == s.count && s.writeIdx < s.count
  }

  /** The writer waits for a token, and there is none. */
  predicate Starved(s: State) {
    s.writer.Waiting? && s.writeEvents == 0
  }

  lemma GoodIsInRange(s: State, run: seq<State>, pieces: seq<seq<byte>>, capacity: nat)
    requires Good(s, run, pieces, capacity)
    ensures InRange(s)
  {
  }

  lemma ReaderIsGood(s: State, run: seq<State>, pieces: seq<seq<byte>>, capacity: nat) returns (more: seq<State>)
    requires Good(s, run, pieces, capacity) && CanRead(s)
    ensures Good(ReaderStep(s), more, pieces, capacity) && ReaderOnly(s, ReaderStep(s)) && run <= more
  {
    var s' := ReaderStep(s);
    assert Step(s, s');
    ReaderKeepsInv(s);
    more := ReaderMoves(run, s.count);
    assert s'.published == s.published && s'.buffers == s.buffers;
    hide Inv, Step, ReaderStep, Out, Kth, IsRun;
    forall k | 0 <= k < |pieces| ensures Out(s', k) && Kth(s', k) == pieces[k] {
      assert Out(s, k);
      KthStays(s, s', k);
    }
  }

  lemma WriterStaysWithin(s: State, c: Choice, capacity: nat)
    requires CanWrite(s, c) && Within(s, capacity)
    requires c.Add? && s.writer.Filling? ==> |s.buffers[s.writeIdx]| + |c.data| <= capacity
    ensures var s' := WriterStep(s, c);
            Step(s, s') && Within(s', capacity) && s'.count == s.count && (s.writer.Drained? ==> s'.writer.Stored?)
    ensures WriterStep(s, c).published == s.published + (if s.writer.Drained? then 1 else 0)
  {
  }

  lemma WriterIsGood(s: State, c: Choice, run: seq<State>, pieces: seq<seq<byte>>, capacity: nat)
    returns (more: seq<State>, pieces': seq<seq<byte>>)
    requires Good(s, run, pieces, capacity) && CanWrite(s, c)
    requires c.Add? && s.writer.Filling? ==> |s.buffers[s.writeIdx]| + |c.data| <= capacity
    ensures Good(WriterStep(s, c), more, pieces', capacity) && run <= more
    ensures pieces' == if s.writer.Drained? then pieces + [s.buffers[s.writeIdx]] else pieces
  {
    hide Inv, Step, Out, Kth, IsRun, WriterStep, Within;
    var s' := WriterStep(s, c);
    WriterStaysWithin(s, c, capacity);
    WriterKeepsInv(s, c);
    more := WriterMoves(run, s.count, c);
    pieces' := if s.writer.Drained? then pieces + [s.buffers[s.writeIdx]] else pieces;
    forall k | 0 <= k < |pieces| ensures Out(s', k) && Kth(s', k) == pieces[k] {
      assert Out(s, k);
      KthStays(s, s', k);
    }
    if s.writer.Drained? {
      PublishedNow(s, s');
    }
  }

  class SensorDataPipe {
    const capacity: nat
    var s: State
    /** The run of micro-steps so far. */
    ghost var run: seq<State>
    /** The contents of the buffers at the moments they were published. */
    ghost var pieces: seq<seq<byte>>

    ghost predicate Valid()
      reads this
    {
      Good(s, run, pieces, capacity) && InRange(s)
    }

    constructor (count: nat, capacity: nat)
      requires count >= 2
      ensures Valid() && s == Init(count) && this.capacity == capacity && pieces == [] && run == [Init(count)]
    {
      this.capacity := capacity;
      s := Init(count);
      run := [Init(count)];
      pieces := [];
      new;
      InitInv(count);
    }

    /** The other thread runs for a while. */
    method ReaderRuns()
      requires Valid()
      modifies this
      ensures Valid() && ReaderOnly(old(s), s) && pieces == old(pieces) && old(run) <= run
    {
      hide Good, ReaderStep;
      var steps: nat := *;
      while steps > 0
        invariant Valid() && ReaderOnly(old(s), s) && pieces == old(pieces) && old(run) <= run
      {
        if CanRead(s) {
          run := ReaderIsGood(s, run, pieces, capacity);
          s := ReaderStep(s);
        }
        steps := steps - 1;
      }
    }

    /** The writer's next step, then the reader for a while. */
    method Writer(next: State, ghost c: Choice)
      requires Valid() && CanWrite(s, c) && next == WriterStep(s, c)
      requires c.Add? && s.writer.Filling? ==> |s.buffers[s.writeIdx]| + |c.data| <= capacity
      modifies this
      ensures Valid() && ReaderOnly(next, s) && old(run) <= run
      ensures pieces == if old(s).writer.Drained? then old(pieces) + [old(s).buffers[old(s).writeIdx]] else old(pieces)
    {
      hide Good, WriterStep;
      run, pieces := WriterIsGood(s, c, run, pieces, capacity);
      s := next;
      GoodIsInRange(s, run, pieces, capacity);
      ReaderRuns();
    }

    /** SdPipeGetWriteBuffer. `blocked` if the run considered ends while the call still waits for
        the reader, which it does only on an eventfd without a token; otherwise the index of the next
        buffer, which is empty. */
    method GetWriteBuffer() returns (blocked: bool, buf: nat)
      requires Valid() && s.writer.Filling?
      modifies this
      ensures Valid() && old(run) <= run && s.count == old(s).count && s.written == old(s).written
      ensures blocked ==> Starved(s) && old(s).writeEvents == 0
      ensures blocked ==> s.writeIdx == old(s).writeIdx && pieces == old(pieces) && s.buffers == old(s).buffers
      ensures !blocked ==> s.writer.Filling? && buf == s.writeIdx && buf == (old(s).writeIdx + 1) % s.count
      ensures !blocked ==> buf < s.count && s.buffers == old(s).buffers[buf := []]
                           && pieces == old(pieces) + [old(s).buffers[old(s).writeIdx]]
    {
      hide Good;
      var current := s.writeIdx;
      var next := (current + 1) % s.count;
      Writer(s.(writer := Waiting(next)), MoveOn);
      buf := next;
      if s.writeEvents == 0 {
        return true, buf;
      }
      Writer(s.(writeEvents := 0, writer := Drained(next), started := true), MoveOn);
      Publish(next);
      blocked := false;
    }

    /** The rest of the call, once the token is taken. */
    method Publish(next: nat)
      requires Valid() && s.writer == Drained(next)
      modifies this
      ensures Valid() && old(run) <= run && s.count == old(s).count && s.written == old(s).written
      ensures s.writer.Filling? && next == s.writeIdx && s.buffers == old(s).buffers[next := []]
      ensures pieces == old(pieces) + [old(s).buffers[old(s).writeIdx]]
    {
      hide Good;
      Writer(s.(writeIdx := next, writer := Stored(next), published := s.published + 1), MoveOn);
      Writer(s.(full := s.full + 1, writer := Counted(next)), MoveOn);
      Writer(s.(readEvents := s.readEvents + 1, writer := Signalled(next)), MoveOn);
      Writer(s.(buffers := s.buffers[next := []], writer := Filling), MoveOn);
    }

    /** SdPipeFlush: as GetWriteBuffer if there is anything to publish. */
    method Flush() returns (blocked: bool)
      requires Valid() && s.writer.Filling?
      modifies this
      ensures Valid() && old(run) <= run && s.count == old(s).count && s.written == old(s).written
      ensures blocked ==> Starved(s) && old(s).writeEvents == 0 && old(s).buffers[old(s).writeIdx] != []
      ensures blocked ==> s.writeIdx == old(s).writeIdx && pieces == old(pieces) && s.buffers == old(s).buffers
      ensures old(s).buffers[old(s).writeIdx] == [] ==> s == old(s)
      ensures !blocked ==> s.writer.Filling? && s.buffers == old(s).buffers[s.writeIdx := []]
      ensures !blocked ==> var b := old(s).buffers[old(s).writeIdx];
                           pieces == if b == [] then old(pieces) else old(pieces) + [b]
    {
      hide Good;
      blocked := false;
      if |s.buffers[s.writeIdx]| > 0 {
        var buf;
        blocked, buf := GetWriteBuffer();
      }
    }

    /** ArenaAlloc on the current buffer and a copy into it; fails if it does not fit. */
    method Append(data: seq<byte>) returns (ok: bool)
      requires Valid() && s.writer.Filling?
      modifies this
      ensures Valid() && s.writer.Filling? && old(run) <= run && pieces == old(pieces) && s.count == old(s).count
      ensures ok <==> |old(s).buffers[old(s).writeIdx]| + |data| <= capacity
      ensures ok ==> s.written == old(s).written + data && s.writeIdx == old(s).writeIdx
                     && s.buffers == old(s).buffers[s.writeIdx := old(s).buffers[s.writeIdx] + data]
      ensures !ok ==> s == old(s)
    {
      hide Good;
      var b := s.buffers[s.writeIdx];
      ok := |b| + |data| <= capacity;
      if ok {
        Writer(s.(buffers := s.buffers[s.writeIdx := b + data], written := s.written + data), Add(data));
      }
    }
  }
}
