/** The allocator as the C code runs it, on shared memory; `view` is what it amounts to. */
module UArena {
  import opened Arithmetic
  import opened Bytes
  import opened Arena
  import opened PipeCalls
  import Pipe

  class UArena {
    const mem: array<byte>
    const base: nat
    const cap: nat
    var cur: nat
    ghost var view: Arena

    ghost predicate Valid()
      reads this
    {
      && base + cap <= mem.Length
      && view.base == base && view.cap == cap && view.cur == cur && WellFormed(view)
    }

    /** ua_init */
    constructor (mem: array<byte>, base: nat, cap: nat)
      requires base + cap <= mem.Length
      ensures Valid() && this.mem == mem && this.base == base && this.cap == cap && view == Create(base, cap)
    {
      this.mem, this.base, this.cap, cur := mem, base, cap, 0;
      view := Create(base, cap);
    }

    /** The address of the block, or nothing if it does not fit. */
    method Alloc(size: nat) returns (p: Option<nat>)
      requires Valid()
      modifies this
      ensures Valid() && view == Do(old(view), Op.Alloc(size))
      ensures cur == if Fits(old(view), size) then old(cur) + size else old(cur)
      ensures p == (if Fits(old(view), size) then Some(base + old(cur)) else None)
    {
      DoKeepsWellFormed(view, Op.Alloc(size));
      p := None;
      if cur + size <= cap {
        p := Some(base + cur);
        view := Do(view, Op.Alloc(size));
        cur := cur + size;
      }
    }

    method Zalloc(size: nat) returns (p: Option<nat>)
      requires Valid()
      modifies this, mem
      ensures Valid() && view == Do(old(view), Op.Alloc(size))
      ensures cur == if Fits(old(view), size) then old(cur) + size else old(cur)
      ensures p == (if Fits(old(view), size) then Some(base + old(cur)) else None)
      ensures forall k :: 0 <= k < mem.Length ==>
                mem[k] == if p.Some? && p.value <= k < p.value + size then 0 else old(mem[k])
    {
      p := Alloc(size);
      if p.Some? {
        Clear(p.value, size);
      }
    }

    /** explicit_bzero */
    method Clear(from: nat, size: nat)
      requires from + size <= mem.Length
      modifies mem
      ensures forall k :: 0 <= k < mem.Length ==> mem[k] == if from <= k < from + size then 0 else old(mem[k])
    {
      var i := 0;
      while i < size
        invariant 0 <= i <= size
        invariant forall k :: 0 <= k < mem.Length ==> mem[k] == if from <= k < from + i then 0 else old(mem[k])
      {
        mem[from + i] := 0;
        i := i + 1;
      }
    }

    /** Claims sz more bytes, all or none; reports how many are there if not. */
    method Reserve(sz: nat) returns (reserved: nat)
      requires Valid()
      modifies this
      ensures Valid() && view == Do(old(view), Op.Reserve(sz))
      ensures reserved == if Fits(old(view), sz) then sz else cap - old(cur)
      ensures reserved < sz <==> !Fits(old(view), sz)
    {
      DoKeepsWellFormed(view, Op.Reserve(sz));
      if cur + sz <= cap {
        view := Do(view, Op.Reserve(sz));
        cur := cur + sz;
        return sz;
      }
      reserved := cap - cur;
    }

    method Free()
      requires Valid()
      modifies this
      ensures Valid() && view == Do(old(view), Op.Free)
    {
      DoKeepsWellFormed(view, Op.Free);
      view := Do(view, Op.Free);
      cur := 0;
    }

    method Pop(size: nat)
      requires Valid()
      modifies this
      ensures Valid() && view == Do(old(view), Op.Pop(size))
    {
      DoKeepsWellFormed(view, Op.Pop(size));
      view := Do(view, Op.Pop(size));
      if cur - size >= 0 {
        cur := cur - size;
      }
    }

    method Seek(pos: nat) returns (p: Option<nat>)
      requires Valid()
      modifies this
      ensures Valid() && view == Do(old(view), Op.Seek(pos))
      ensures p == if pos <= cap then Some(base + pos) else None
    {
      DoKeepsWellFormed(view, Op.Seek(pos));
      view := Do(view, Op.Seek(pos));
      p := None;
      if pos <= cap {
        cur := pos;
        p := Some(base + cur);
      }
    }

    /** ua_bootstrap; the struct of the new arena comes out of this one unless it exists already. */
    method Bootstrap(existing: bool, size: nat) returns (inner: UArena?)
      requires Valid()
      modifies this, mem
      ensures Valid() && view == Do(old(view), Op.Bootstrap(existing, size))
      ensures inner != null <==>
                var struct := if existing then 0 else ARENA_SIZE;
                old(cur) + struct <= cap && old(cur) + struct + size <= cap
      ensures inner != null ==>
                var struct := if existing then 0 else ARENA_SIZE;
                fresh(inner) && inner.Valid() && inner.mem == mem && inner.cap == size
                && inner.base == base + old(cur) + struct && inner.view == Create(inner.base, size)
                && cur == old(cur) + struct + size
      ensures inner != null && size > 0 ==>
                var i := |view.parts| - 1; i >= 0 && view.parts[i].Sub? && view.parts[i].arena == inner.view
      ensures old(cur) <= cur
    {
      ghost var before := view;
      DoKeepsWellFormed(before, Op.Bootstrap(existing, size));
      var struct := Some(base);
      if !existing {
        struct := Alloc(ARENA_SIZE);
      }
      var memory := Zalloc(size);
      if struct == None || memory == None {
        return null;
      }
      view := Do(before, Op.Bootstrap(existing, size));
      inner := new UArena(mem, memory.value, size);
    }
  }

  // ---- SdpCreate ----

  /** sizeof(sensor_data_pipe), sizeof(SdhsArena *) */
  const PIPE_SIZE: nat := 64
  const ADDRESS_SIZE: nat := 8

  /** The buffers there are, each with all its memory, one behind the other. */
  ghost predicate LaidOut(buffers: seq<UArena?>, mem: array<byte>, size: nat, lo: nat, hi: nat) {
    && (forall i :: 0 <= i < |buffers| && buffers[i] != null ==>
          var b := buffers[i]; b.mem == mem && b.cap == size && lo <= b.base && b.base + size <= hi)
    && (forall i, j :: 0 <= i < j < |buffers| && buffers[i] != null && buffers[j] != null ==>
          buffers[i] != buffers[j] && buffers[i].base + size <= buffers[j].base)
  }

  /** Every bootstrap has succeeded. */
  ghost predicate AllThere(buffers: seq<UArena?>) {
    forall i :: 0 <= i < |buffers| ==> buffers[i] != null
  }

  /** And none of them has been used yet. */
  ghost predicate Unused(buffers: seq<UArena?>)
    reads buffers
  {
    forall i :: 0 <= i < |buffers| && buffers[i] != null ==> buffers[i].Valid() && buffers[i].cur == 0
  }

  lemma FourTerms(count: nat, size: nat)
    ensures PIPE_SIZE + count * ADDRESS_SIZE + count * ARENA_SIZE + count * size
         == PIPE_SIZE + ADDRESS_SIZE * count + count * (ARENA_SIZE + size)
    ensures count * (ARENA_SIZE + size) >= 0
  {
    assert count * (ARENA_SIZE + size) == count * ARENA_SIZE + count * size;
  }

  method AddBuffer(arena: UArena, size: nat, buffers: seq<UArena?>, ghost lo: nat, ghost before: Arena)
    returns (more: seq<UArena?>)
    requires arena.Valid() && lo <= arena.base + arena.cur && Over(before, arena.view)
    requires LaidOut(buffers, arena.mem, size, lo, arena.base + arena.cur)
    requires arena !in buffers && Unused(buffers)
    modifies arena, arena.mem
    ensures arena.Valid() && Over(before, arena.view) && old(arena.cur) <= arena.cur
    ensures |more| == |buffers| + 1 && buffers <= more && Unused(more)
    ensures more[|buffers|] != null ==> fresh(more[|buffers|])
    ensures LaidOut(more, arena.mem, size, lo, arena.base + arena.cur)
    ensures AllThere(more) <==> AllThere(buffers) && old(arena.cur) + ARENA_SIZE + size <= arena.cap
    ensures AllThere(more) ==> arena.cur == old(arena.cur) + ARENA_SIZE + size
  {
    hide WellFormed, Over, Boot;
    BootStaysOver(before, arena.view, false, size);
    var buffer := arena.Bootstrap(false, size);
    more := buffers + [buffer];
    assert more[|buffers|] == buffer && forall i :: 0 <= i < |buffers| ==> more[i] == buffers[i];
  }

  /** What a pipe with its buffers takes out of an arena. */
  function PipeExtent(count: nat, size: nat): (n: nat)
    ensures n == PIPE_SIZE + ADDRESS_SIZE * count + count * (ARENA_SIZE + size)
  {
    FourTerms(count, size);
    PIPE_SIZE + count * ADDRESS_SIZE + count * ARENA_SIZE + count * size
  }

  /** The struct, the pointers and the buffers. The first two must fit, the code writes through them
      unchecked; all the buffers are there exactly if they fit as well. */
  method Populate(arena: UArena, count: nat, size: nat) returns (buffers: seq<UArena?>)
    requires arena.Valid() && arena.cur + PIPE_SIZE + ADDRESS_SIZE * count <= arena.cap
    modifies arena, arena.mem
    ensures arena.Valid() && Over(old(arena.view), arena.view)
    ensures |buffers| == count && LaidOut(buffers, arena.mem, size, arena.base + old(arena.cur), arena.base + arena.cur)
    ensures Unused(buffers) && forall i :: 0 <= i < |buffers| && buffers[i] != null ==> fresh(buffers[i])
    ensures AllThere(buffers) <==> old(arena.cur) + PipeExtent(count, size) <= arena.cap
    ensures AllThere(buffers) ==> arena.cur == old(arena.cur) + PipeExtent(count, size)
  {
    hide WellFormed, LaidOut, AllThere, Unused, Over, Bump;
    ghost var before, from := arena.view, arena.cur + PIPE_SIZE + ADDRESS_SIZE * count;
    ghost var unit := ARENA_SIZE + size;
    FourTerms(count, size);
    OverItself(before);
    BumpStaysOver(before, arena.view, PIPE_SIZE);
    var pipe := arena.Alloc(PIPE_SIZE);
    BumpStaysOver(before, arena.view, ADDRESS_SIZE * count);
    var pointers := arena.Alloc(ADDRESS_SIZE * count);
    buffers := [];
    NoBuffers(arena.mem, size, arena.base + old(arena.cur), arena.base + from);
    var b := 0;
    while b < count
      invariant 0 <= b <= count && |buffers| == b
      invariant arena.Valid() && Over(before, arena.view) && old(arena.cur) <= arena.cur
      invariant LaidOut(buffers, arena.mem, size, arena.base + old(arena.cur), arena.base + arena.cur)
      invariant Unused(buffers) && forall i :: 0 <= i < |buffers| && buffers[i] != null ==> fresh(buffers[i])
      invariant AllThere(buffers) ==> arena.cur == from + b * unit <= arena.cap
      invariant !AllThere(buffers) ==> from + count * unit > arena.cap
    {
      PartInside(b, count, unit);
      buffers := AddBuffer(arena, size, buffers, arena.base + old(arena.cur), before);
      b := b + 1;
    }
  }

  /** SdpCreate. Without an arena to use it makes one whose four-term size is exactly enough: every
      bootstrap succeeds and the arena ends up full. If the eventfds cannot be had, a given arena
      is as it was. */
  method SdpCreate(count: nat, size: nat, given: UArena?, eventfdFails: bool)
    returns (pipe: SensorDataPipe?, arena: UArena, buffers: seq<UArena?>)
    requires count >= 2
    requires given != null ==> given.Valid() && given.cur + PIPE_SIZE + ADDRESS_SIZE * count <= given.cap
    modifies given, if given == null then {} else {given.mem}
    ensures given == null ==> fresh(arena) && arena.cap == PipeExtent(count, size)
    ensures given != null ==> arena == given
    ensures arena.Valid() && (pipe == null <==> eventfdFails)
    ensures pipe == null && given != null ==> arena.view == old(given.view)
    ensures pipe != null && AllThere(buffers) ==> pipe.Valid() && pipe.s == Pipe.Init(count) && pipe.capacity == size
    ensures pipe != null ==> var from := if given == null then 0 else old(given.cur);
                             && |buffers| == count
                             && LaidOut(buffers, arena.mem, size, arena.base + from, arena.base + arena.cur)
                             && (AllThere(buffers) <==> from + PipeExtent(count, size) <= arena.cap)
                             && (AllThere(buffers) ==> arena.cur == from + PipeExtent(count, size))
    ensures pipe != null && given == null ==> AllThere(buffers) && arena.cur == arena.cap
    ensures pipe != null ==> Unused(buffers)
    ensures pipe != null ==> forall i :: 0 <= i < |buffers| && buffers[i] != null ==> fresh(buffers[i])
  {
    hide WellFormed, LaidOut, AllThere, Unused, Over, Do;
    if given == null {
      var total := PipeExtent(count, size);
      var memory := new byte[total];
      arena := new UArena(memory, 0, total);
    } else {
      arena := given;
    }
    assert 0 <= count * (ARENA_SIZE + size) by { FourTerms(count, size); }
    ghost var before := arena.view;
    var start := arena.cur;
    buffers := Populate(arena, count, size);
    if eventfdFails {
      pipe := null;
      if given != null {
        CurInside(before);
        Released(before, arena.view);
        var at := arena.Seek(start);
      }
      return;
    }
    pipe := new SensorDataPipe(count, size);
  }

  lemma NoBuffers(mem: array<byte>, size: nat, lo: nat, hi: nat)
    ensures LaidOut([], mem, size, lo, hi) && AllThere([]) && Unused([])
  {
  }
}
