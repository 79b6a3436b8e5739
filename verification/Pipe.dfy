/** The sensor data pipe. */
module Pipe {
  import opened Bytes
  import opened Arithmetic

  // One writer and one reader rotate over BufCount buffers. Each call is cut into its atomic steps,
  // and a run interleaves the steps of both sides in any order.

  /** Where the writer is in SdPipeGetWriteBuffer or SdPipeFlush. */
  datatype Writer =
    | Filling              // outside the pipe, may add to its current buffer
    | Waiting(next: nat)   // at read(WriteEventFd)
    | Drained(next: nat)   // about to store WriteBufIdx
    | Stored(next: nat)    // about to count the buffer as full
    | Counted(next: nat)   // about to write ReadEventFd
    | Signalled(next: nat) // about to clear the next buffer

  /** Where the reader is in SdPipeGetReadBuffer. */
  datatype Reader =
    | Using(held: Option<nat>) // outside the pipe, with the buffer it was given last
    | Asking                   // at read(ReadEventFd)
    | Woken                    // about to load ReadBufIdx
    | Loaded(cur: nat)         // about to store ReadBufIdx
    | Advanced(cur: nat)       // about to count the buffer as no longer full
    | Uncounted(cur: nat)      // about to write WriteEventFd and return

  datatype State = State(
    count: nat,
    writeIdx: nat, readIdx: nat, full: int,
    writeEvents: nat, readEvents: nat,
    buffers: seq<seq<byte>>,
    writer: Writer, reader: Reader,
    // history
    started: bool,            // the writer has read its eventfd at least once
    published: nat,           // how often the writer has moved on
    written: seq<byte>,       // all it has written
    taken: seq<seq<byte>>,    // contents at the moment each buffer is handed to the reader
    order: seq<nat>)          // and their indices

  /** What SdpCreate sets up. */
  function Init(count: nat): State
    requires count >= 2
  {
    State(count, 0, 0, 0, count - 1, 0, seq(count, _ => []), Filling, Using(None), false, 0, [], [], [])
  }

  // ---- steps ----

  datatype Choice = Add(data: seq<byte>) | MoveOn | MoveOnIfFilled

  /** An eventfd read blocks while the counter is zero. */
  predicate CanWrite(s: State, c: Choice) {
    && (s.writer.Waiting? ==> s.writeEvents > 0)
    && s.count > 0 && s.writeIdx < |s.buffers|
    && (s.writer.Signalled? ==> s.writer.next < |s.buffers|)
  }

  function WriterStep(s: State, c: Choice): State
    requires CanWrite(s, c)
  {
    match s.writer
    case Filling =>
      if c.Add? then
        s.(buffers := s.buffers[s.writeIdx := s.buffers[s.writeIdx] + c.data], written := s.written + c.data)
      else if c.MoveOnIfFilled? && s.buffers[s.writeIdx] == [] then s
      else s.(writer := Waiting((s.writeIdx + 1) % s.count))
    case Waiting(next) => s.(writeEvents := 0, writer := Drained(next), started := true)
    case Drained(next) => s.(writeIdx := next, writer := Stored(next), published := s.published + 1)
    case Stored(next) => s.(full := s.full + 1, writer := Counted(next))
    case Counted(next) => s.(readEvents := s.readEvents + 1, writer := Signalled(next))
    case Signalled(next) => s.(buffers := s.buffers[next := []], writer := Filling)
  }

  predicate CanRead(s: State) {
    && (s.reader.Asking? ==> s.readEvents > 0)
    && s.count > 0
    && (s.reader.Uncounted? ==> s.reader.cur < |s.buffers|)
  }

  function ReaderStep(s: State): State
    requires CanRead(s)
  {
    match s.reader
    case Using(_) => s.(reader := Asking)
    case Asking => s.(readEvents := 0, reader := Woken)
    case Woken => s.(reader := Loaded(s.readIdx))
    case Loaded(cur) => s.(readIdx := (cur + 1) % s.count, reader := Advanced(cur))
    case Advanced(cur) => s.(full := s.full - 1, reader := Uncounted(cur))
    case Uncounted(cur) =>
      s.(writeEvents := s.writeEvents + 1, reader := Using(Some(cur)),
         taken := s.taken + [s.buffers[cur]], order := s.order + [cur])
  }

  ghost predicate Step(s: State, s': State) {
    (exists c :: CanWrite(s, c) && s' == WriterStep(s, c)) || (CanRead(s) && s' == ReaderStep(s))
  }

  ghost predicate IsRun(run: seq<State>, count: nat) {
    && count >= 2 && run != [] && run[0] == Init(count)
    && forall i :: 0 <= i < |run| - 1 ==> Step(run[i], run[i + 1])
  }

  // ---- the invariant ----

  /** The writer has taken a token out of its eventfd and not yet put one into the reader's. */
  function WriterTokens(s: State): nat {
    if s.writer.Drained? || s.writer.Stored? || s.writer.Counted? then 1 else 0
  }

  function ReaderTokens(s: State): nat {
    if s.reader.Using? || s.reader.Asking? then 0 else 1
  }

  function Tokens(s: State): nat {
    s.writeEvents + s.readEvents + WriterTokens(s) + ReaderTokens(s)
  }

  /** A buffer is published and not yet handed over. */
  predicate Pending(s: State) {
    s.readEvents > 0 || ReaderTokens(s) == 1 || s.writer.Stored? || s.writer.Counted?
  }

  predicate Counters(s: State) {
    && s.count >= 2
    && (if s.started then Tokens(s) == 1 else
        Tokens(s) == s.writeEvents == s.count - 1 && s.published == 0
        && (s.writer.Filling? || s.writer.Waiting?))
    && s.published == |s.taken| + (if Pending(s) then 1 else 0)
    && s.full == (if Pending(s) && !s.writer.Stored? && !s.reader.Uncounted? then 1 else 0)
  }

  predicate Indices(s: State)
    requires s.count >= 2
  {
    var t := |s.taken|;
    && |s.buffers| == s.count
    && s.writeIdx == s.published % s.count
    && s.readIdx == (if s.reader.Advanced? || s.reader.Uncounted? then t + 1 else t) % s.count
    && (match s.writer
        case Filling => true
        case Waiting(next) => next == (s.published + 1) % s.count
        case Drained(next) => next == (s.published + 1) % s.count
        case Stored(next) => next == s.published % s.count
        case Counted(next) => next == s.published % s.count
        case Signalled(next) => next == s.published % s.count)
    && (match s.reader
        case Using(None) => t == 0
        case Using(Some(held)) => t > 0 && held == (t - 1) % s.count
        case Asking => true
        case Woken => true
        case Loaded(cur) => cur == t % s.count
        case Advanced(cur) => cur == t % s.count
        case Uncounted(cur) => cur == t % s.count)
    && |s.order| == t && forall k :: 0 <= k < t ==> s.order[k] == k % s.count
  }

  function Concat(parts: seq<seq<byte>>): seq<byte> {
    if parts == [] then [] else Concat(parts[..|parts| - 1]) + parts[|parts| - 1]
  }

  /** What the writer has put into its current buffer. */
  function Current(s: State): seq<byte>
    requires s.count >= 2 && Indices(s)
  {
    if s.writer.Stored? || s.writer.Counted? || s.writer.Signalled? then [] else s.buffers[s.writeIdx]
  }

  function InFlight(s: State): seq<byte>
    requires s.count >= 2 && Indices(s)
  {
    if s.published > |s.taken| then s.buffers[|s.taken| % s.count] else []
  }

  ghost predicate Inv(s: State) {
    && Counters(s) && Indices(s)
    && s.written == Concat(s.taken) + InFlight(s) + Current(s)
  }

  // ---- every interleaving keeps it ----

  lemma InitInv(count: nat)
    requires count >= 2
    ensures Inv(Init(count))
  {
  }

  lemma WriterKeepsCounters(s: State, c: Choice)
    requires Counters(s) && CanWrite(s, c)
    ensures Counters(WriterStep(s, c))
  {
  }

  lemma WriterKeepsIndices(s: State, c: Choice)
    requires Counters(s) && Indices(s) && CanWrite(s, c)
    ensures Counters(WriterStep(s, c)) && Indices(WriterStep(s, c))
  {
    WriterKeepsCounters(s, c);
    Rotation(s.published, s.count);
    hide Counters;
  }

  /** The writer's steps do not touch the buffer that awaits the reader. */
  lemma WriterSparesPending(s: State, c: Choice)
    requires Counters(s) && Indices(s) && CanWrite(s, c) && s.published > |s.taken|
    ensures var i := |s.taken| % s.count; WriterStep(s, c).buffers[i] == s.buffers[i]
  {
    Rotation(|s.taken|, s.count);
  }

  lemma WriterKeepsInv(s: State, c: Choice)
    requires Inv(s) && CanWrite(s, c)
    ensures Inv(WriterStep(s, c)) && WriterStep(s, c).count == s.count
  {
    WriterKeepsIndices(s, c);
    var s' := WriterStep(s, c);
    hide Counters, Concat;
    if s.published > |s.taken| {
      WriterSparesPending(s, c);
    }
    if s.writer.Filling? && c.Add? {
      assert Current(s') == Current(s) + c.data;
      Assoc(Concat(s.taken) + InFlight(s), Current(s), c.data);
    } else if s.writer.Drained? {
      Publishes(s, s');
      assert Concat(s.taken) + [] == Concat(s.taken);
      assert Concat(s.taken) + Current(s) + [] == Concat(s.taken) + Current(s);
    } else {
      assert Current(s') == Current(s);
    }
  }

  lemma Publishes(s: State, s': State)
    requires Inv(s) && s.writer.Drained? && s' == WriterStep(s, MoveOn) && Indices(s')
    ensures InFlight(s) == [] && InFlight(s') == Current(s) && Current(s') == []
  {
  }

  lemma ReaderKeepsIndices(s: State)
    requires Counters(s) && Indices(s) && CanRead(s)
    ensures Counters(ReaderStep(s)) && Indices(ReaderStep(s))
  {
    Rotation(|s.taken|, s.count);
  }

  lemma ReaderKeepsInv(s: State)
    requires Inv(s) && CanRead(s)
    ensures Inv(ReaderStep(s)) && ReaderStep(s).count == s.count
  {
    ReaderKeepsIndices(s);
    var s' := ReaderStep(s);
    assert Current(s') == Current(s);
    if s.reader.Uncounted? {
      HandsOver(s);
      hide Counters, Indices;
      assert s'.taken[..|s.taken|] == s.taken;
      assert Concat(s'.taken) == Concat(s.taken) + InFlight(s);
      assert Concat(s'.taken) + [] == Concat(s'.taken);
    }
  }

  lemma HandsOver(s: State)
    requires Counters(s) && Indices(s) && s.reader.Uncounted? && CanRead(s) && Indices(ReaderStep(s))
    ensures InFlight(s) == s.buffers[s.reader.cur] && InFlight(ReaderStep(s)) == []
  {
  }

  lemma StepKeepsInv(s: State, s': State)
    requires Inv(s) && Step(s, s')
    ensures Inv(s') && s'.count == s.count
  {
    hide Inv, WriterStep, ReaderStep;
    if CanRead(s) && s' == ReaderStep(s) {
      ReaderKeepsInv(s);
    } else {
      var c :| CanWrite(s, c) && s' == WriterStep(s, c);
      WriterKeepsInv(s, c);
    }
  }

  lemma {:induction false} RunKeepsInv(run: seq<State>, count: nat, i: nat)
    requires IsRun(run, count) && i < |run|
    ensures Inv(run[i]) && run[i].count == count
  {
    if i == 0 {
      InitInv(count);
    } else {
      RunKeepsInv(run, count, i - 1);
      assert Step(run[i - 1], run[i]);
      StepKeepsInv(run[i - 1], run[i]);
    }
  }

  // ---- safety over whole runs ----

  /** Before the writer's first read of its eventfd there are BufCount - 1 tokens; that read
      drains them all, and ever after there is exactly one. At most one buffer counts as full,
      and the k-th read takes buffer k mod BufCount. */
  lemma TokensAndOrder(run: seq<State>, count: nat, i: nat)
    requires IsRun(run, count) && i < |run|
    ensures var s := run[i];
            && Tokens(s) == (if s.started then 1 else count - 1)
            && (s.full == 0 || s.full == 1)
            && |s.order| == |s.taken| && (forall k :: 0 <= k < |s.order| ==> s.order[k] == k % count)
            && |s.taken| <= s.published <= |s.taken| + 1
  {
    RunKeepsInv(run, count, i);
  }

  lemma StepAt(run: seq<State>, count: nat, i: nat)
    requires IsRun(run, count) && i + 1 < |run|
    ensures Inv(run[i]) && Inv(run[i + 1]) && run[i].count == run[i + 1].count == count && Step(run[i], run[i + 1])
  {
    RunKeepsInv(run, count, i);
    RunKeepsInv(run, count, i + 1);
  }

  /** The k-th buffer has been published. */
  predicate Out(s: State, k: nat) {
    k < s.published && k <= |s.taken| && s.count >= 2 && |s.buffers| == s.count
  }

  /** What it holds, or held when the reader was given it. */
  function Kth(s: State, k: nat): seq<byte>
    requires Out(s, k)
  {
    if k < |s.taken| then s.taken[k] else s.buffers[k % s.count]
  }

  /** From the moment the writer publishes its k-th buffer until the reader is given it, neither
      side clears it or writes to it: what is handed over is what was published. */
  lemma {:induction false} TakenAsPublished(run: seq<State>, count: nat, i: nat, j: nat)
    requires IsRun(run, count) && i < j < |run|
    requires run[i].writer.Drained? && run[i + 1].writer.Stored?
    ensures var s := run[i];
            s.writeIdx < |s.buffers| && Out(run[j], s.published) && Kth(run[j], s.published) == s.buffers[s.writeIdx]
    decreases j
  {
    hide Inv, Step, Kth, Out;
    if j == i + 1 {
      StepAt(run, count, i);
      PublishedNow(run[i], run[j]);
    } else {
      TakenAsPublished(run, count, i, j - 1);
      StepAt(run, count, j - 1);
      KthStays(run[j - 1], run[j], run[i].published);
    }
  }

  lemma PublishedNow(s: State, s': State)
    requires Inv(s) && Inv(s') && Step(s, s') && s.writer.Drained? && s'.writer.Stored?
    ensures s.writeIdx < |s.buffers| && Out(s', s.published) && Kth(s', s.published) == s.buffers[s.writeIdx]
  {
    hide Concat, InFlight, Current;
    assert s'.buffers == s.buffers && s'.taken == s.taken;
  }

  /** No step changes what the k-th buffer holds before it is taken, or held when it was. */
  lemma KthStays(s: State, s': State, k: nat)
    requires Inv(s) && Inv(s') && Step(s, s') && Out(s, k)
    ensures Out(s', k) && Kth(s', k) == Kth(s, k)
  {
    hide Concat, InFlight, Current;
    if CanRead(s) && s' == ReaderStep(s) {
    } else {
      var c :| CanWrite(s, c) && s' == WriterStep(s, c);
      if k == |s.taken| {
        WriterSparesPending(s, c);
      }
    }
  }

  /** The buffers taken, one after the other, are always a prefix of what was written, and all of
      it once nothing is published or being filled. */
  lemma StreamConserved(run: seq<State>, count: nat, i: nat)
    requires IsRun(run, count) && i < |run|
    ensures var s := run[i]; var t := Concat(s.taken);
            |t| <= |s.written| && s.written[..|t|] == t && s.writeIdx < |s.buffers|
            && (s.published == |s.taken| && s.writer.Filling? && s.buffers[s.writeIdx] == [] ==> t == s.written)
  {
    RunKeepsInv(run, count, i);
    var s := run[i];
    assert s.written == Concat(s.taken) + (InFlight(s) + Current(s));
  }

  // ---- whose buffer is it ----

  /** The buffer the reader is using is neither the writer's current nor its next, and still holds
      what the reader was given. */
  predicate Exclusive(s: State) {
    s.reader.Using? && s.reader.held.Some? ==>
      var h := s.reader.held.value;
      && h != s.writeIdx
      && (s.writer.Drained? || s.writer.Signalled? || s.writer.Stored? || s.writer.Counted? ==> s.writer.next != h)
      && s.taken != [] && h < |s.buffers| && s.buffers[h] == s.taken[|s.taken| - 1]
  }

  ghost predicate AlwaysExclusive(count: nat) {
    forall run, i :: IsRun(run, count) && 0 <= i < |run| ==> Exclusive(run[i])
  }

  lemma {:induction false} ThreeAreEnough(run: seq<State>, count: nat, i: nat)
    requires IsRun(run, count) && count >= 3 && i < |run|
    ensures Exclusive(run[i])
  {
    RunKeepsInv(run, count, i);
    if i > 0 {
      ThreeAreEnough(run, count, i - 1);
      StepAt(run, count, i - 1);
      StepKeepsExclusive(run[i - 1], run[i]);
    }
  }

  lemma StepKeepsExclusive(s: State, s': State)
    requires Inv(s) && Step(s, s') && Inv(s') && s.count == s'.count >= 3 && Exclusive(s)
    ensures Exclusive(s')
  {
    hide Concat, InFlight, Current;
    if s'.reader.Using? && s'.reader.held.Some? {
      HeldApart(s');
      if CanRead(s) && s' == ReaderStep(s) {
        assert s.reader.Uncounted?;
      } else {
        var c :| CanWrite(s, c) && s' == WriterStep(s, c);
        HeldKept(s, c);
      }
    }
  }

  lemma HeldApart(s: State)
    requires Counters(s) && Indices(s) && s.count >= 3 && s.reader.Using? && s.reader.held.Some?
    ensures s.reader.held.value != s.writeIdx && s.reader.held.value < s.count && s.taken != []
    ensures s.writer.Drained? || s.writer.Signalled? || s.writer.Stored? || s.writer.Counted? ==>
              s.writer.next != s.reader.held.value
  {
    var t := |s.taken| - 1;
    Rotation(t, s.count);
    Rotation(t + 1, s.count);
    TwoOn(t, s.count);
  }

  lemma HeldKept(s: State, c: Choice)
    requires Counters(s) && Indices(s) && s.reader.Using? && s.reader.held.Some? && Exclusive(s) && CanWrite(s, c)
    ensures var s' := WriterStep(s, c); var h := s.reader.held.value;
              s'.buffers[h] == s.buffers[h] && s'.taken == s.taken
  {
  }

  lemma Start(count: nat) returns (run: seq<State>)
    requires count >= 2
    ensures IsRun(run, count) && run[|run| - 1] == Init(count)
  {
    run := [Init(count)];
  }

  lemma WriterMoves(run: seq<State>, count: nat, c: Choice) returns (more: seq<State>)
    requires IsRun(run, count) && CanWrite(run[|run| - 1], c)
    ensures IsRun(more, count) && more == run + [WriterStep(run[|run| - 1], c)]
  {
    var s := run[|run| - 1];
    assert Step(s, WriterStep(s, c));
    more := run + [WriterStep(s, c)];
    forall i | 0 <= i < |more| - 1 ensures Step(more[i], more[i + 1]) {
      if i < |run| - 1 {
        assert Step(run[i], run[i + 1]);
      }
    }
  }

  lemma ReaderMoves(run: seq<State>, count: nat) returns (more: seq<State>)
    requires IsRun(run, count) && CanRead(run[|run| - 1])
    ensures IsRun(more, count) && more == run + [ReaderStep(run[|run| - 1])]
  {
    var s := run[|run| - 1];
    assert Step(s, ReaderStep(s));
    more := run + [ReaderStep(s)];
    forall i | 0 <= i < |more| - 1 ensures Step(more[i], more[i + 1]) {
      if i < |run| - 1 {
        assert Step(run[i], run[i + 1]);
      }
    }
  }

  /** A whole SdPipeGetWriteBuffer while the reader stands still. */
  lemma WriterCalls(run: seq<State>, count: nat) returns (more: seq<State>)
    requires IsRun(run, count) && |run[|run| - 1].buffers| == run[|run| - 1].count == count >= 2
    requires var s := run[|run| - 1]; s.writer.Filling? && s.writeEvents > 0 && s.writeIdx < count
    ensures IsRun(more, count)
    ensures var s := run[|run| - 1]; var next := (s.writeIdx + 1) % count;
            more[|more| - 1] == s.(writeIdx := next, full := s.full + 1, writeEvents := 0,
                                   readEvents := s.readEvents + 1,
                                   buffers := s.buffers[next := []], started := true, published := s.published + 1)
  {
    hide IsRun;
    more := WriterMoves(run, count, MoveOn);
    more := WriterMoves(more, count, MoveOn);
    more := WriterMoves(more, count, MoveOn);
    more := WriterMoves(more, count, MoveOn);
    more := WriterMoves(more, count, MoveOn);
    more := WriterMoves(more, count, MoveOn);
  }

  /** A whole SdPipeGetReadBuffer while the writer stands still. */
  lemma ReaderCalls(run: seq<State>, count: nat) returns (more: seq<State>)
    requires IsRun(run, count) && |run[|run| - 1].buffers| == run[|run| - 1].count == count >= 2
    requires var s := run[|run| - 1]; s.reader.Using? && s.readEvents > 0 && s.readIdx < count
    ensures IsRun(more, count)
    ensures var s := run[|run| - 1]; var cur := s.readIdx;
            more[|more| - 1] == s.(readIdx := (cur + 1) % count, full := s.full - 1, readEvents := 0,
                                   writeEvents := s.writeEvents + 1, reader := Using(Some(cur)),
                                   taken := s.taken + [s.buffers[cur]], order := s.order + [cur])
  {
    hide IsRun;
    more := ReaderMoves(run, count);
    more := ReaderMoves(more, count);
    more := ReaderMoves(more, count);
    more := ReaderMoves(more, count);
    more := ReaderMoves(more, count);
    more := ReaderMoves(more, count);
  }

  /** With two buffers the writer can clear the buffer the reader is still using: it writes one
      byte, publishes it, the reader is given it, and the writer moves on. */
  lemma TwoAreNotEnough() returns (run: seq<State>)
    ensures IsRun(run, 2)
    ensures var s := run[|run| - 1];
            s.reader == Using(Some(0)) && s.taken == [[1]] && s.writer.Filling? && s.writeIdx == 0
            && s.buffers == [[], []]
    ensures !Exclusive(run[|run| - 1])
  {
    hide IsRun;
    run := Start(2);
    assert run[|run| - 1].buffers == [[], []];
    run := WriterMoves(run, 2, Add([1]));
    assert run[|run| - 1].buffers[0] == [1] && run[|run| - 1].buffers == [[1], []];
    run := WriterCalls(run, 2);
    run := ReaderCalls(run, 2);
    run := WriterCalls(run, 2);
  }

  /** The reader can rely on its buffer exactly when there are at least three. */
  lemma ExclusiveIffThree(count: nat)
    requires count >= 2
    ensures AlwaysExclusive(count) <==> count >= 3
  {
    if count >= 3 {
      forall run, i | IsRun(run, count) && 0 <= i < |run| ensures Exclusive(run[i]) {
        ThreeAreEnough(run, count, i);
      }
    } else {
      var run := TwoAreNotEnough();
      assert !Exclusive(run[|run| - 1]);
    }
  }

  // ---- no deadlock ----

  /** Both sides are inside pipe calls. */
  predicate BothInside(s: State) {
    !s.writer.Filling? && !s.reader.Using?
  }

  /** Steps left until both calls return. */
  function Left(s: State): nat {
    (match s.writer
     case Filling => 0
     case Waiting(_) => 5
     case Drained(_) => 4
     case Stored(_) => 3
     case Counted(_) => 2
     case Signalled(_) => 1)
    + (match s.reader
       case Using(_) => 0
       case Asking => 5
       case Woken => 4
       case Loaded(_) => 3
       case Advanced(_) => 2
       case Uncounted(_) => 1)
  }

  /** Never are both blocked: one of them can take its next step, ... */
  lemma SomeoneMoves(run: seq<State>, count: nat, i: nat)
    requires IsRun(run, count) && i < |run| && BothInside(run[i])
    ensures CanRead(run[i]) || CanWrite(run[i], MoveOn)
  {
    RunKeepsInv(run, count, i);
    Rotation(run[i].published, count);
    Rotation(|run[i].taken|, count);
  }

  /** ... and a writer left waiting has left the reader a buffer to take. */
  lemma BlockedWriterIsAhead(run: seq<State>, count: nat, i: nat)
    requires IsRun(run, count) && i < |run| && run[i].writer.Waiting? && run[i].writeEvents == 0
    ensures Pending(run[i]) && run[i].published == |run[i].taken| + 1
  {
    RunKeepsInv(run, count, i);
  }

  /** ... and within ten steps one of the two calls returns. */
  lemma {:induction false} SomeoneReturns(run: seq<State>, count: nat, i: nat)
    requires IsRun(run, count) && i < |run| && BothInside(run[i]) && i + Left(run[i]) < |run|
    ensures exists j :: i < j <= i + Left(run[i]) && !BothInside(run[j])
    decreases |run| - i
  {
    StepAt(run, count, i);
    LeftShrinks(run[i], run[i + 1]);
    if BothInside(run[i + 1]) {
      SomeoneReturns(run, count, i + 1);
    }
  }

  lemma LeftShrinks(s: State, s': State)
    requires Step(s, s') && BothInside(s)
    ensures Left(s') < Left(s)
  {
  }
}
