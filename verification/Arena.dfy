/** u_arena: a bump allocator whose arenas nest. The tree records which blocks are live. */
module Arena {
  import opened Bytes

  /** sizeof(UArena) */
  const ARENA_SIZE: nat := 32

  /** Offsets of parts are relative to their arena; the arena's memory starts at base. */
  datatype Arena = Arena(base: nat, cap: nat, cur: nat, parts: seq<Part>)
  datatype Part = Block(start: nat, size: nat) | Sub(start: nat, arena: Arena)

  function End(p: Part): nat {
    match p
    case Block(start, size) => start + size
    case Sub(start, arena) => start + arena.cap
  }

  /** The position is inside; the live parts follow one another below it; a bootstrapped arena
      lies exactly on its part. */
  predicate WellFormed(a: Arena)
    decreases a
  {
    && a.cur <= a.cap
    && (forall i :: 0 <= i < |a.parts| ==> End(a.parts[i]) <= a.cur)
    && (forall i, j :: 0 <= i < j < |a.parts| ==> End(a.parts[i]) <= a.parts[j].start)
    && (forall i :: 0 <= i < |a.parts| && a.parts[i].Sub? ==>
          a.parts[i].arena.base == a.base + a.parts[i].start && WellFormed(a.parts[i].arena))
  }

  // ---- operations ----

  datatype Op =
    | Alloc(size: nat) | Reserve(size: nat) | Pop(size: nat) | Seek(pos: nat) | Free
    | Bootstrap(existing: bool, cap: nat)

  /** The parts that end at or below pos; what lies beyond dies. */
  function Kept(parts: seq<Part>, pos: nat): seq<Part> {
    if parts == [] then []
    else if End(parts[0]) <= pos then [parts[0]] + Kept(parts[1..], pos)
    else Kept(parts[1..], pos)
  }

  function Rewind(a: Arena, pos: nat): Arena {
    a.(cur := pos, parts := Kept(a.parts, pos))
  }

  predicate Fits(a: Arena, size: nat) {
    a.cur + size <= a.cap
  }

  function Bump(a: Arena, size: nat): Arena {
    if Fits(a, size) then a.(cur := a.cur + size, parts := Recorded(a.parts, Block(a.cur, size))) else a
  }

  /** An empty block is nobody's. */
  function Recorded(parts: seq<Part>, p: Part): seq<Part> {
    if End(p) > p.start then parts + [p] else parts
  }

  /** The struct, unless the caller brings one, then the memory. Both are attempted in any case. */
  function Boot(a: Arena, existing: bool, cap: nat): Arena {
    var a1 := if existing then a else Bump(a, ARENA_SIZE);
    if (existing || Fits(a, ARENA_SIZE)) && Fits(a1, cap) then
      a1.(cur := a1.cur + cap, parts := Recorded(a1.parts, Sub(a1.cur, Create(a1.base + a1.cur, cap))))
    else Bump(a1, cap)
  }

  function Do(a: Arena, op: Op): Arena {
    match op
    case Alloc(size) => Bump(a, size)
    case Reserve(size) => Bump(a, size)
    case Pop(size) => if a.cur >= size then Rewind(a, a.cur - size) else a
    case Seek(pos) => if pos <= a.cap then Rewind(a, pos) else a
    case Free => Rewind(a, 0)
    case Bootstrap(existing, cap) => Boot(a, existing, cap)
  }

  /** The operation on the arena that path leads to, from part to part. */
  function DoAt(a: Arena, path: seq<nat>, op: Op): Arena
    decreases |path|
  {
    if path == [] then Do(a, op)
    else if path[0] >= |a.parts| || !a.parts[path[0]].Sub? then a
    else
      var p := a.parts[path[0]];
      a.(parts := a.parts[path[0] := p.(arena := DoAt(p.arena, path[1..], op))])
  }

  datatype Action = Action(path: seq<nat>, op: Op)

  /** A run. */
  function DoAll(a: Arena, actions: seq<Action>): Arena
    decreases |actions|
  {
    if actions == [] then a else DoAll(DoAt(a, actions[0].path, actions[0].op), actions[1..])
  }

  function Create(base: nat, cap: nat): Arena {
    Arena(base, cap, 0, [])
  }

  // ---- every run keeps the tree well formed ----

  lemma {:induction false} KeptParts(parts: seq<Part>, pos: nat)
    ensures |Kept(parts, pos)| <= |parts|
    ensures forall p :: p in Kept(parts, pos) ==> p in parts && End(p) <= pos
    ensures (forall i, j :: 0 <= i < j < |parts| ==> End(parts[i]) <= parts[j].start) ==>
              forall i, j :: 0 <= i < j < |Kept(parts, pos)| ==> End(Kept(parts, pos)[i]) <= Kept(parts, pos)[j].start
  {
    if parts != [] {
      KeptParts(parts[1..], pos);
      assert forall p :: p in parts[1..] ==> p in parts;
      if forall i, j :: 0 <= i < j < |parts| ==> End(parts[i]) <= parts[j].start {
        KeptBehind(parts, pos);
      }
    }
  }

  /** What is kept of the tail starts behind the first part. */
  lemma KeptBehind(parts: seq<Part>, pos: nat)
    requires parts != [] && forall i, j :: 0 <= i < j < |parts| ==> End(parts[i]) <= parts[j].start
    requires forall p :: p in Kept(parts[1..], pos) ==> p in parts[1..]
    ensures forall k :: 0 <= k < |Kept(parts[1..], pos)| ==> End(parts[0]) <= Kept(parts[1..], pos)[k].start
  {
    var kept := Kept(parts[1..], pos);
    forall k | 0 <= k < |kept| ensures End(parts[0]) <= kept[k].start {
      assert kept[k] in parts[1..];
      var j :| 0 <= j < |parts[1..]| && parts[1..][j] == kept[k];
      assert parts[j + 1] == kept[k];
    }
  }

  lemma RewindKeepsWellFormed(a: Arena, pos: nat)
    requires WellFormed(a) && pos <= a.cap
    ensures WellFormed(Rewind(a, pos))
  {
    KeptParts(a.parts, pos);
    var kept := Kept(a.parts, pos);
    forall i | 0 <= i < |kept|
      ensures End(kept[i]) <= pos
      ensures kept[i].Sub? ==> kept[i].arena.base == a.base + kept[i].start && WellFormed(kept[i].arena)
    {
      assert kept[i] in kept;
    }
  }

  lemma RecordKeepsWellFormed(a: Arena, p: Part)
    requires WellFormed(a) && p.start == a.cur && End(p) <= a.cap
    requires p.Sub? ==> p.arena.base == a.base + p.start && WellFormed(p.arena)
    ensures WellFormed(a.(cur := End(p), parts := Recorded(a.parts, p)))
  {
  }

  lemma BumpKeepsWellFormed(a: Arena, size: nat)
    requires WellFormed(a)
    ensures WellFormed(Bump(a, size))
  {
    if Fits(a, size) {
      RecordKeepsWellFormed(a, Block(a.cur, size));
    }
  }

  lemma BootKeepsWellFormed(a: Arena, existing: bool, cap: nat)
    requires WellFormed(a)
    ensures WellFormed(Boot(a, existing, cap))
  {
    hide WellFormed;
    var a1 := if existing then a else Bump(a, ARENA_SIZE);
    BumpKeepsWellFormed(a, ARENA_SIZE);
    BumpKeepsWellFormed(a1, cap);
    if Fits(a1, cap) {
      var inner := Create(a1.base + a1.cur, cap);
      assert WellFormed(inner) by { CreateWellFormed(a1.base + a1.cur, cap); }
      RecordKeepsWellFormed(a1, Sub(a1.cur, inner));
    }
  }

  lemma CreateWellFormed(base: nat, cap: nat)
    ensures WellFormed(Create(base, cap))
  {
  }

  lemma DoKeepsWellFormed(a: Arena, op: Op)
    requires WellFormed(a)
    ensures WellFormed(Do(a, op)) && Do(a, op).base == a.base && Do(a, op).cap == a.cap
  {
    hide WellFormed, Kept;
    match op
    case Alloc(size) => BumpKeepsWellFormed(a, size);
    case Reserve(size) => BumpKeepsWellFormed(a, size);
    case Pop(size) =>
      assert a.cur <= a.cap by { CurInside(a); }
      if a.cur >= size {
        RewindKeepsWellFormed(a, a.cur - size);
      }
    case Seek(pos) =>
      if pos <= a.cap {
        RewindKeepsWellFormed(a, pos);
      }
    case Free => RewindKeepsWellFormed(a, 0);
    case Bootstrap(existing, cap) => BootKeepsWellFormed(a, existing, cap);
  }

  lemma CurInside(a: Arena)
    requires WellFormed(a)
    ensures a.cur <= a.cap
  {
  }

  lemma {:induction false} DoAtKeepsWellFormed(a: Arena, path: seq<nat>, op: Op)
    requires WellFormed(a)
    ensures var a' := DoAt(a, path, op); WellFormed(a') && a'.base == a.base && a'.cap == a.cap
    decreases |path|
  {
    if path == [] {
      DoKeepsWellFormed(a, op);
    } else if path[0] < |a.parts| && a.parts[path[0]].Sub? {
      DoAtKeepsWellFormed(a.parts[path[0]].arena, path[1..], op);
    }
  }

  lemma {:induction false} RunKeepsWellFormed(a: Arena, actions: seq<Action>)
    requires WellFormed(a)
    ensures var b := DoAll(a, actions); WellFormed(b) && b.base == a.base && b.cap == a.cap
    decreases |actions|
  {
    if actions != [] {
      DoAtKeepsWellFormed(a, actions[0].path, actions[0].op);
      RunKeepsWellFormed(DoAt(a, actions[0].path, actions[0].op), actions[1..]);
    }
  }

  // ---- well formed trees have disjoint blocks ----

  datatype Extent = Extent(lo: nat, hi: nat)

  /** The live blocks at the leaves of the tree, in address order. */
  function Leaves(a: Arena): seq<Extent>
    decreases a, 1
  {
    LeavesOf(a.parts, a.base)
  }

  function LeavesOf(parts: seq<Part>, base: nat): seq<Extent>
    decreases parts, 0
  {
    if parts == [] then [] else
      PartLeaves(parts[0], base) + LeavesOf(parts[1..], base)
  }

  function PartLeaves(p: Part, base: nat): seq<Extent>
    decreases p, 0
  {
    match p
    case Block(start, size) => [Extent(base + start, base + start + size)]
    case Sub(_, arena) => Leaves(arena)
  }

  predicate Ascending(es: seq<Extent>, lo: nat, hi: nat) {
    && (forall i :: 0 <= i < |es| ==> lo <= es[i].lo <= es[i].hi <= hi)
    && (forall i, j :: 0 <= i < j < |es| ==> es[i].hi <= es[j].lo)
  }

  lemma {:induction false} LeavesAscend(a: Arena)
    requires WellFormed(a)
    ensures Ascending(Leaves(a), a.base, a.base + a.cur)
    decreases a, 1
  {
    LeavesOfAscend(a.parts, a.base, 0, a.cur);
  }

  lemma {:induction false} LeavesOfAscend(parts: seq<Part>, base: nat, from: nat, to: nat)
    requires from <= to
    requires forall i :: 0 <= i < |parts| ==> from <= parts[i].start && End(parts[i]) <= to
    requires forall i, j :: 0 <= i < j < |parts| ==> End(parts[i]) <= parts[j].start
    requires forall i :: 0 <= i < |parts| && parts[i].Sub? ==>
               parts[i].arena.base == base + parts[i].start && WellFormed(parts[i].arena)
    ensures Ascending(LeavesOf(parts, base), base + from, base + to)
    decreases parts, 0
  {
    if parts != [] {
      PartLeavesAscend(parts[0], base);
      LeavesOfAscend(parts[1..], base, End(parts[0]), to);
    }
  }

  lemma {:induction false} PartLeavesAscend(p: Part, base: nat)
    requires p.Sub? ==> p.arena.base == base + p.start && WellFormed(p.arena)
    ensures Ascending(PartLeaves(p, base), base + p.start, base + End(p))
    decreases p, 0
  {
    if p.Sub? {
      LeavesAscend(p.arena);
    }
  }

  /** Over any run of operations anywhere in the tree, every live block is inside the root arena
      and no two of them overlap. */
  lemma BlocksDisjoint(base: nat, cap: nat, actions: seq<Action>, i: nat, j: nat)
    requires i < j < |Leaves(DoAll(Create(base, cap), actions))|
    ensures var es := Leaves(DoAll(Create(base, cap), actions));
            base <= es[i].lo <= es[i].hi <= es[j].lo <= es[j].hi <= base + cap
  {
    RunKeepsWellFormed(Create(base, cap), actions);
    LeavesAscend(DoAll(Create(base, cap), actions));
  }

  // ---- scratch ----

  /** The operation does not rewind the arena below the mark. */
  predicate NotBelow(a: Arena, op: Op, mark: nat) {
    match op
    case Pop(size) => a.cur >= size ==> a.cur - size >= mark
    case Seek(pos) => pos <= a.cap ==> pos >= mark
    case Free => false
    case _ => true
  }

  /** A run, in the arena itself and anywhere in the arenas bootstrapped in it, that never rewinds
      the arena itself below the mark. */
  predicate StaysAbove(a: Arena, actions: seq<Action>, mark: nat)
    decreases |actions|
  {
    actions == [] || (
      (actions[0].path == [] ==> NotBelow(a, actions[0].op, mark))
      && StaysAbove(DoAt(a, actions[0].path, actions[0].op), actions[1..], mark))
  }

  /** The actions of a run on the first n parts. */
  function OnFirst(actions: seq<Action>, n: nat): seq<Action> {
    if actions == [] then [] else
      (if actions[0].path != [] && actions[0].path[0] < n then [actions[0]] else []) + OnFirst(actions[1..], n)
  }

  lemma {:induction false} KeptAll(parts: seq<Part>, pos: nat)
    requires forall i :: 0 <= i < |parts| ==> End(parts[i]) <= pos
    ensures Kept(parts, pos) == parts
  {
    if parts != [] {
      KeptAll(parts[1..], pos);
    }
  }

  lemma {:induction false} KeptAppend(parts: seq<Part>, p: Part, mark: nat)
    ensures Kept(parts + [p], mark) == Kept(parts, mark) + (if End(p) <= mark then [p] else [])
  {
    if parts == [] {
      assert parts + [p] == [p] && [p][1..] == [];
    } else {
      assert (parts + [p])[1..] == parts[1..] + [p];
      KeptAppend(parts[1..], p, mark);
    }
  }

  /** Above the mark: the position, and every part that did not stand when the mark was taken. */
  predicate Above(a: Arena, b: Arena) {
    b.base == a.base && b.cap == a.cap && b.cur >= a.cur && Kept(b.parts, a.cur) == a.parts
  }

  lemma BumpStaysAbove(a: Arena, b: Arena, size: nat)
    requires Above(a, b)
    ensures Above(a, Bump(b, size))
  {
    KeptAppend(b.parts, Block(b.cur, size), a.cur);
  }

  lemma {:induction false} KeptConcat(xs: seq<Part>, ys: seq<Part>, pos: nat)
    ensures Kept(xs + ys, pos) == Kept(xs, pos) + Kept(ys, pos)
  {
    if xs == [] {
      assert xs + ys == ys;
    } else {
      assert (xs + ys)[1..] == xs[1..] + ys;
      KeptConcat(xs[1..], ys, pos);
    }
  }

  lemma {:induction false} KeptNone(parts: seq<Part>, pos: nat)
    requires forall i :: 0 <= i < |parts| ==> End(parts[i]) > pos
    ensures Kept(parts, pos) == []
  {
    if parts != [] {
      KeptNone(parts[1..], pos);
    }
  }

  /** b is a with more on top: its first parts are a's, the others reach above a's position. */
  predicate Over(a: Arena, b: Arena) {
    && b.base == a.base && b.cap == a.cap && a.cur <= b.cur
    && a.parts <= b.parts
    && (forall i :: 0 <= i < |a.parts| ==> End(a.parts[i]) <= a.cur)
    && forall i :: |a.parts| <= i < |b.parts| ==> End(b.parts[i]) > a.cur
  }

  lemma OverItself(a: Arena)
    requires WellFormed(a)
    ensures Over(a, a)
  {
  }

  lemma BumpStaysOver(a: Arena, b: Arena, size: nat)
    requires Over(a, b)
    ensures Over(a, Bump(b, size))
  {
  }

  lemma BootStaysOver(a: Arena, b: Arena, existing: bool, cap: nat)
    requires Over(a, b)
    ensures Over(a, Boot(b, existing, cap))
  {
    var b1 := if existing then b else Bump(b, ARENA_SIZE);
    BumpStaysOver(a, b, ARENA_SIZE);
    BumpStaysOver(a, b1, cap);
  }

  lemma RewindStaysOver(a: Arena, b: Arena, pos: nat)
    requires Over(a, b) && pos >= a.cur
    ensures Over(a, Rewind(b, pos))
  {
    hide Kept;
    var more := b.parts[|a.parts|..];
    assert b.parts == a.parts + more;
    KeptConcat(a.parts, more, pos);
    KeptAll(a.parts, pos);
    assert forall k :: 0 <= k < |more| ==> more[k] == b.parts[|a.parts| + k];
    KeptStayAbove(more, pos, a.cur);
  }

  lemma {:induction false} KeptStayAbove(parts: seq<Part>, pos: nat, mark: nat)
    requires forall k :: 0 <= k < |parts| ==> End(parts[k]) > mark
    ensures forall k :: 0 <= k < |Kept(parts, pos)| ==> End(Kept(parts, pos)[k]) > mark
  {
    if parts != [] {
      KeptStayAbove(parts[1..], pos, mark);
    }
  }

  /** Releasing keeps just the first parts. */
  lemma Released(a: Arena, b: Arena)
    requires Over(a, b) && a.cur <= a.cap
    ensures Do(b, Seek(a.cur)) == a
  {
    var more := b.parts[|a.parts|..];
    assert b.parts == a.parts + more;
    KeptConcat(a.parts, more, a.cur);
    KeptAll(a.parts, a.cur);
    KeptNone(more, a.cur);
  }

  lemma StepStaysOver(a: Arena, b: Arena, op: Op)
    requires Over(a, b) && NotBelow(b, op, a.cur)
    ensures Over(a, Do(b, op))
  {
    hide Over, Kept;
    match op {
      case Alloc(size) => BumpStaysOver(a, b, size);
      case Reserve(size) => BumpStaysOver(a, b, size);
      case Pop(size) =>
        if b.cur >= size {
          RewindStaysOver(a, b, b.cur - size);
        }
      case Seek(pos) =>
        if pos <= b.cap {
          RewindStaysOver(a, b, pos);
        }
      case Free =>
      case Bootstrap(existing, cap) => BootStaysOver(a, b, existing, cap);
    }
  }

  lemma {:induction false} DoAtKeepsCap(a: Arena, path: seq<nat>, op: Op)
    ensures DoAt(a, path, op).cap == a.cap && DoAt(a, path, op).base == a.base
    ensures path != [] ==> DoAt(a, path, op).cur == a.cur && |DoAt(a, path, op).parts| == |a.parts|
    ensures path != [] ==> forall i :: 0 <= i < |a.parts| ==> End(DoAt(a, path, op).parts[i]) == End(a.parts[i])
    decreases |path|
  {
    if path != [] && path[0] < |a.parts| && a.parts[path[0]].Sub? {
      DoAtKeepsCap(a.parts[path[0]].arena, path[1..], op);
    }
  }

  /** An action inside a part changes that part on both sides, or only above. */
  lemma InsideStaysOver(a: Arena, b: Arena, path: seq<nat>, op: Op)
    requires Over(a, b) && path != []
    ensures path[0] < |a.parts| ==> Over(DoAt(a, path, op), DoAt(b, path, op))
    ensures path[0] >= |a.parts| ==> Over(a, DoAt(b, path, op))
  {
    DoAtKeepsCap(a, path, op);
    DoAtKeepsCap(b, path, op);
    if path[0] < |a.parts| {
      assert a.parts[path[0]] == b.parts[path[0]];
    }
  }

  lemma {:induction false} RunStaysOver(a: Arena, b: Arena, actions: seq<Action>)
    requires Over(a, b) && StaysAbove(b, actions, a.cur)
    ensures var a' := DoAll(a, OnFirst(actions, |a.parts|));
            Over(a', DoAll(b, actions)) && a'.cur == a.cur && a'.cap == a.cap
    decreases |actions|
  {
    hide Over, NotBelow, Do;
    if actions != [] {
      var x, rest := actions[0], actions[1..];
      var b' := DoAt(b, x.path, x.op);
      if x.path == [] {
        StepStaysOver(a, b, x.op);
        RunStaysOver(a, b', rest);
        assert [] + OnFirst(rest, |a.parts|) == OnFirst(rest, |a.parts|);
      } else {
        InsideStaysOver(a, b, x.path, x.op);
        DoAtKeepsCap(a, x.path, x.op);
        if x.path[0] < |a.parts| {
          RunStaysOver(DoAt(a, x.path, x.op), b', rest);
          var first := OnFirst(actions, |a.parts|);
          assert first[0] == x && first[1..] == OnFirst(rest, |a.parts|);
        } else {
          RunStaysOver(a, b', rest);
          assert [] + OnFirst(rest, |a.parts|) == OnFirst(rest, |a.parts|);
        }
      }
    }
  }

  /** ua_scratch_begin, any use that does not rewind below the mark, in the arena or in any arena
      bootstrapped in it, ua_scratch_release: all that is left of the use is what it did inside the
      arenas that were there before. */
  lemma ScratchReleases(a: Arena, actions: seq<Action>)
    requires WellFormed(a) && StaysAbove(a, actions, a.cur)
    ensures Do(DoAll(a, actions), Seek(a.cur)) == DoAll(a, OnFirst(actions, |a.parts|))
  {
    RunStaysOver(a, a, actions);
    Released(DoAll(a, OnFirst(actions, |a.parts|)), DoAll(a, actions));
  }

  /** A use that leaves those alone leaves no trace: the arena is as it was, and every block that
      was live still is. */
  lemma ScratchRestores(a: Arena, actions: seq<Action>)
    requires WellFormed(a) && StaysAbove(a, actions, a.cur) && OnFirst(actions, |a.parts|) == []
    ensures Do(DoAll(a, actions), Seek(a.cur)) == a
  {
    ScratchReleases(a, actions);
  }

  // ---- arenas as they see themselves ----

  /** The arena that path leads to. */
  function Reach(a: Arena, path: seq<nat>): Option<Arena>
    decreases |path|
  {
    if path == [] then Some(a)
    else if path[0] >= |a.parts| || !a.parts[path[0]].Sub? then None
    else Reach(a.parts[path[0]].arena, path[1..])
  }

  /** The same place; what has been done inside a bootstrapped arena is that arena's business. */
  predicate SamePart(x: Part, y: Part) {
    x.start == y.start && End(x) == End(y) && x.Sub? == y.Sub? && (x.Sub? ==> x.arena.base == y.arena.base)
  }

  predicate SameParts(xs: seq<Part>, ys: seq<Part>) {
    |xs| == |ys| && forall i :: 0 <= i < |xs| ==> SamePart(xs[i], ys[i])
  }

  predicate SameTop(a: Arena, b: Arena) {
    a.base == b.base && a.cap == b.cap && a.cur == b.cur && SameParts(a.parts, b.parts)
  }

  lemma {:induction false} KeptSame(xs: seq<Part>, ys: seq<Part>, pos: nat)
    requires SameParts(xs, ys)
    ensures SameParts(Kept(xs, pos), Kept(ys, pos))
  {
    hide SameParts;
    SameSplit(xs, ys);
    if xs != [] {
      KeptSame(xs[1..], ys[1..], pos);
      SameCons(xs[0], ys[0], Kept(xs[1..], pos), Kept(ys[1..], pos));
    }
  }

  lemma SameSplit(xs: seq<Part>, ys: seq<Part>)
    requires SameParts(xs, ys)
    ensures xs == [] <==> ys == []
    ensures xs != [] ==> SamePart(xs[0], ys[0]) && SameParts(xs[1..], ys[1..])
  {
    assert forall i :: 1 <= i < |xs| ==> xs[1..][i - 1] == xs[i] && ys[1..][i - 1] == ys[i];
  }

  lemma SameCons(x: Part, y: Part, xs: seq<Part>, ys: seq<Part>)
    requires SamePart(x, y) && SameParts(xs, ys)
    ensures SameParts([x] + xs, [y] + ys)
  {
  }

  lemma RecordedSame(xs: seq<Part>, ys: seq<Part>, p: Part)
    requires SameParts(xs, ys)
    ensures SameParts(Recorded(xs, p), Recorded(ys, p))
  {
  }

  lemma BootSame(a: Arena, b: Arena, existing: bool, cap: nat)
    requires SameTop(a, b)
    ensures SameTop(Boot(a, existing, cap), Boot(b, existing, cap))
  {
    hide SameParts, Recorded;
    var a1 := if existing then a else Bump(a, ARENA_SIZE);
    var b1 := if existing then b else Bump(b, ARENA_SIZE);
    RecordedSame(a.parts, b.parts, Block(a.cur, ARENA_SIZE));
    RecordedSame(a1.parts, b1.parts, Block(a1.cur, cap));
    RecordedSame(a1.parts, b1.parts, Sub(a1.cur, Create(a1.base + a1.cur, cap)));
  }

  /** An operation does not look into bootstrapped arenas. */
  lemma DoSame(a: Arena, b: Arena, op: Op)
    requires SameTop(a, b)
    ensures SameTop(Do(a, op), Do(b, op))
  {
    hide SameParts, Kept, Recorded, Boot;
    match op {
      case Alloc(size) => RecordedSame(a.parts, b.parts, Block(a.cur, size));
      case Reserve(size) => RecordedSame(a.parts, b.parts, Block(a.cur, size));
      case Pop(size) => KeptSame(a.parts, b.parts, if a.cur >= size then a.cur - size else 0);
      case Seek(pos) => KeptSame(a.parts, b.parts, pos);
      case Free => KeptSame(a.parts, b.parts, 0);
      case Bootstrap(existing, cap) => BootSame(a, b, existing, cap);
    }
  }

  lemma {:induction false} AtWellFormed(a: Arena, path: seq<nat>)
    requires WellFormed(a) && Reach(a, path).Some?
    ensures WellFormed(Reach(a, path).value)
    decreases |path|
  {
    if path != [] {
      AtWellFormed(a.parts[path[0]].arena, path[1..]);
    }
  }

  /** An operation that does not rewind below a part leaves it where it is. */
  lemma KeepsPart(a: Arena, i: nat, op: Op)
    requires WellFormed(a) && i < |a.parts| && NotBelow(a, op, End(a.parts[i]))
    ensures i < |Do(a, op).parts| && Do(a, op).parts[i] == a.parts[i]
  {
    hide WellFormed, Kept;
    match op {
      case Alloc(size) =>
      case Reserve(size) =>
      case Pop(size) =>
        if a.cur >= size {
          RewindKeepsPart(a, i, a.cur - size);
        }
      case Seek(pos) =>
        if pos <= a.cap {
          RewindKeepsPart(a, i, pos);
        }
      case Free =>
      case Bootstrap(existing, cap) =>
    }
  }

  lemma RewindKeepsPart(a: Arena, i: nat, pos: nat)
    requires WellFormed(a) && i < |a.parts| && pos >= End(a.parts[i])
    ensures i < |Rewind(a, pos).parts| && Rewind(a, pos).parts[i] == a.parts[i]
  {
    hide Kept;
    var l, x, r := a.parts[..i], a.parts[i], a.parts[i + 1..];
    assert forall k :: 0 <= k < i ==> End(l[k]) <= x.start;
    hide WellFormed;
    Split(a.parts, i, Kept(r, pos));
    KeptAround(l, x, r, pos);
  }

  lemma Split(parts: seq<Part>, i: nat, k: seq<Part>)
    requires i < |parts|
    ensures parts == parts[..i] + ([parts[i]] + parts[i + 1..])
    ensures (parts[..i] + ([parts[i]] + k))[i] == parts[i]
  {
  }

  lemma KeptAround(l: seq<Part>, x: Part, r: seq<Part>, pos: nat)
    requires (forall k :: 0 <= k < |l| ==> End(l[k]) <= pos) && End(x) <= pos
    ensures Kept(l + ([x] + r), pos) == l + ([x] + Kept(r, pos))
  {
    KeptConcat(l, [x] + r, pos);
    KeptAll(l, pos);
    assert ([x] + r)[1..] == r;
  }

  /** What an action at path p means for the arena at path q: itself at p; above and beside p, and
      below it if the part on the way there survives, nothing. */
  lemma {:induction false} ActionSeenAt(a: Arena, p: seq<nat>, op: Op, q: seq<nat>)
    requires Reach(a, p).Some? && Reach(a, q).Some?
    requires p < q ==> var b, i := Reach(a, p).value, q[|p|];
                       i < |b.parts| && i < |Do(b, op).parts| && Do(b, op).parts[i] == b.parts[i]
    ensures var b := DoAt(a, p, op);
            Reach(b, q).Some?
            && if p == q then Reach(b, q).value == Do(Reach(a, p).value, op)
               else SameTop(Reach(b, q).value, Reach(a, q).value)
    decreases |p|
  {
    if p == [] {
      assert q != [] ==> p < q && q[0] == q[|p|];
    } else if q == [] {
      DoAtKeepsCap(a.parts[p[0]].arena, p[1..], op);
    } else if p[0] == q[0] {
      assert p == [p[0]] + p[1..] && q == [q[0]] + q[1..];
      assert p[1..] < q[1..] ==> p < q && q[|p|] == q[1..][|p[1..]|];
      ActionSeenAt(a.parts[p[0]].arena, p[1..], op, q[1..]);
    }
  }
}
