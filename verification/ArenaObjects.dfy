/** Arena objects, each knowing only its own position and parts, together run as the tree. */
module ArenaObjects {
  import opened Bytes
  import opened Arena
  import opened UArena

  /** Object k is the arena at paths[k] of the tree, and there is no other object for that arena. */
  ghost predicate Objects(tree: Arena, nodes: seq<UArena>, paths: seq<seq<nat>>, mem: array<byte>)
    reads nodes
  {
    && WellFormed(tree) && |nodes| == |paths|
    && (forall k :: 0 <= k < |nodes| ==> nodes[k].Valid() && nodes[k].mem == mem)
    && (forall k :: 0 <= k < |nodes| ==> Stands(tree, paths[k], nodes[k].view))
    && (forall j, k :: 0 <= j < k < |nodes| ==> nodes[j] != nodes[k] && paths[j] != paths[k])
  }

  /** The arena at the path, as it sees itself. */
  ghost predicate Stands(tree: Arena, path: seq<nat>, view: Arena) {
    Reach(tree, path).Some? && SameTop(Reach(tree, path).value, view)
  }

  /** The operation does not rewind the arena at path p below an arena inside it that has an object. */
  ghost predicate Spares(tree: Arena, paths: seq<seq<nat>>, p: seq<nat>, op: Op)
    requires Reach(tree, p).Some?
  {
    forall j :: 0 <= j < |paths| && p < paths[j] ==> SparesPart(Reach(tree, p).value, paths[j][|p|], op)
  }

  predicate SparesPart(a: Arena, i: nat, op: Op) {
    i < |a.parts| && NotBelow(a, op, End(a.parts[i]))
  }

  /** The part a bootstrap adds, if it succeeds and has any memory. */
  predicate Boots(a: Arena, op: Op) {
    op.Bootstrap? && op.cap > 0
    && var struct := if op.existing then 0 else ARENA_SIZE;
       a.cur + struct <= a.cap && a.cur + struct + op.cap <= a.cap
  }

  /** The paths of the objects after an operation at p: a bootstrapped arena gets one. */
  function Grown(tree: Arena, paths: seq<seq<nat>>, p: seq<nat>, op: Op): seq<seq<nat>>
    requires Reach(tree, p).Some?
  {
    var a := Reach(tree, p).value;
    if Boots(a, op) then paths + [p + [|Do(a, op).parts| - 1]] else paths
  }

  datatype Call = Call(who: nat, op: Op)

  /** Every call is on an object there is, and spares the arenas that have objects. */
  ghost predicate Legal(tree: Arena, paths: seq<seq<nat>>, calls: seq<Call>)
    decreases |calls|
  {
    calls == [] || (
      var c := calls[0];
      c.who < |paths| && Reach(tree, paths[c.who]).Some? && Spares(tree, paths, paths[c.who], c.op)
      && Legal(DoAt(tree, paths[c.who], c.op), Grown(tree, paths, paths[c.who], c.op), calls[1..]))
  }

  /** The calls as actions on the tree. */
  ghost function ActionsOf(tree: Arena, paths: seq<seq<nat>>, calls: seq<Call>): seq<Action>
    requires Legal(tree, paths, calls)
    decreases |calls|
  {
    if calls == [] then [] else
      var c := calls[0];
      var p := paths[c.who];
      [Action(p, c.op)] + ActionsOf(DoAt(tree, p, c.op), Grown(tree, paths, p, c.op), calls[1..])
  }

  // ---- one call ----

  /** The new arena, if the operation bootstraps one that has any memory. */
  method Perform(arena: UArena, op: Op) returns (inner: UArena?)
    requires arena.Valid()
    modifies arena, arena.mem
    ensures arena.Valid() && arena.view == Do(old(arena.view), op)
    ensures inner != null <==> Boots(old(arena.view), op)
    ensures inner != null ==>
              fresh(inner) && inner.Valid() && inner.mem == arena.mem
              && arena.view.parts != []
              && var last := arena.view.parts[|arena.view.parts| - 1]; last.Sub? && last.arena == inner.view
  {
    hide Do, WellFormed;
    inner := null;
    match op {
      case Alloc(size) => var p := arena.Alloc(size);
      case Reserve(size) => var n := arena.Reserve(size);
      case Pop(size) => arena.Pop(size);
      case Seek(pos) => var p := arena.Seek(pos);
      case Free => arena.Free();
      case Bootstrap(existing, size) =>
        inner := arena.Bootstrap(existing, size);
        if size == 0 {
          inner := null;
        }
    }
  }

  /** What the call does to the place of any object. */
  lemma PlaceAfter(tree: Arena, paths: seq<seq<nat>>, p: seq<nat>, op: Op, q: seq<nat>, view: Arena)
    requires WellFormed(tree) && Reach(tree, p).Some? && Stands(tree, q, view)
    requires Spares(tree, paths, p, op) && q in paths
    ensures Stands(DoAt(tree, p, op), q, if p == q then Do(view, op) else view)
  {
    hide WellFormed, SameTop, Do;
    var a := Reach(tree, p).value;
    AtWellFormed(tree, p);
    if p < q {
      var j :| 0 <= j < |paths| && paths[j] == q;
      KeepsPart(a, q[|p|], op);
    }
    ActionSeenAt(tree, p, op, q);
    if p == q {
      DoSame(a, view, op);
    } else {
      SameTopTransitive(Reach(DoAt(tree, p, op), q).value, Reach(tree, q).value, view);
    }
  }

  lemma SameTopTransitive(a: Arena, b: Arena, c: Arena)
    requires SameTop(a, b) && SameTop(b, c)
    ensures SameTop(a, c)
  {
    assert forall i :: 0 <= i < |a.parts| ==> SamePart(a.parts[i], b.parts[i]) && SamePart(b.parts[i], c.parts[i]);
  }

  /** The place of a bootstrapped arena. */
  lemma NewPlace(tree: Arena, p: seq<nat>, op: Op, view: Arena, inner: Arena)
    requires Reach(tree, p).Some? && SameTop(Reach(tree, p).value, view) && Boots(view, op)
    requires var after := Do(view, op);
             after.parts != [] && after.parts[|after.parts| - 1].Sub? && after.parts[|after.parts| - 1].arena == inner
    ensures Boots(Reach(tree, p).value, op)
    ensures var a := Do(Reach(tree, p).value, op);
            a.parts != [] && Reach(DoAt(tree, p, op), p + [|a.parts| - 1]) == Some(inner)
  {
    var a, i := Reach(tree, p).value, |Do(Reach(tree, p).value, op).parts| - 1;
    DoSame(a, view, op);
    assert SameParts(Do(a, op).parts, Do(view, op).parts);
    assert SamePart(Do(a, op).parts[i], Do(view, op).parts[i]);
    BootedLast(a, op);
    BootedLast(view, op);
    ActionSeenAt(tree, p, op, p);
    AtBelow(DoAt(tree, p, op), p, i);
  }

  lemma BootedLast(a: Arena, op: Op)
    requires Boots(a, op)
    ensures var b := Do(a, op);
            b.parts != [] && var last := b.parts[|b.parts| - 1];
            last.Sub? && last.arena == Create(last.arena.base, op.cap)
  {
  }

  lemma {:induction false} AtBelow(a: Arena, p: seq<nat>, i: nat)
    requires Reach(a, p).Some? && i < |Reach(a, p).value.parts| && Reach(a, p).value.parts[i].Sub?
    ensures Reach(a, p + [i]) == Some(Reach(a, p).value.parts[i].arena)
    decreases |p|
  {
    if p == [] {
      assert (p + [i])[1..] == [];
    } else {
      assert (p + [i])[1..] == p[1..] + [i];
      AtBelow(a.parts[p[0]].arena, p[1..], i);
    }
  }

  /** After one call the objects, with the bootstrapped one if there is one, are the tree after the
      action at the caller's place. */
  lemma ObjectsAfter(tree: Arena, paths: seq<seq<nat>>, views: seq<Arena>, k: nat, op: Op, inner: Arena)
    requires WellFormed(tree) && k < |paths| == |views|
    requires forall j :: 0 <= j < |paths| ==> Stands(tree, paths[j], views[j])
    requires Reach(tree, paths[k]).Some? && Spares(tree, paths, paths[k], op)
    requires Boots(views[k], op) ==>
               var after := Do(views[k], op);
               after.parts != [] && after.parts[|after.parts| - 1].Sub? && after.parts[|after.parts| - 1].arena == inner
    ensures var tree' := DoAt(tree, paths[k], op);
            WellFormed(tree')
            && forall j :: 0 <= j < |paths| ==>
                    Stands(tree', paths[j], if paths[j] == paths[k] then Do(views[j], op) else views[j])
    ensures Boots(views[k], op) <==> Boots(Reach(tree, paths[k]).value, op)
    ensures Boots(views[k], op) ==>
              var more := Grown(tree, paths, paths[k], op);
              |more| == |paths| + 1 && Stands(DoAt(tree, paths[k], op), more[|paths|], inner)
  {
    hide WellFormed, Do;
    DoAtKeepsWellFormed(tree, paths[k], op);
    assert Stands(tree, paths[k], views[k]);
    forall j | 0 <= j < |paths|
      ensures Stands(DoAt(tree, paths[k], op), paths[j], if paths[j] == paths[k] then Do(views[j], op) else views[j])
    {
      PlaceAfter(tree, paths, paths[k], op, paths[j], views[j]);
    }
    if Boots(views[k], op) {
      NewPlace(tree, paths[k], op, views[k], inner);
      SameTopItself(inner);
    }
  }

  lemma SameTopItself(a: Arena)
    ensures SameTop(a, a)
  {
  }

  /** A new path is no old one: the arenas inside the caller that have objects stand on its old parts. */
  lemma NewPathIsNew(tree: Arena, paths: seq<seq<nat>>, views: seq<Arena>, k: nat, op: Op, j: nat)
    requires k < |paths| == |views| && j < |paths| && forall i :: 0 <= i < |paths| ==> Stands(tree, paths[i], views[i])
    requires Reach(tree, paths[k]).Some? && Boots(Reach(tree, paths[k]).value, op)
    ensures paths[j] != Grown(tree, paths, paths[k], op)[|paths|]
  {
    var a, p := Reach(tree, paths[k]).value, paths[k];
    var i := |Do(a, op).parts| - 1;
    assert Stands(tree, paths[j], views[j]) && Stands(tree, p, views[k]);
    assert |a.parts| <= i;
    if paths[j] == p + [i] {
      NoPartThere(tree, p, i);
    }
  }

  lemma {:induction false} NoPartThere(a: Arena, p: seq<nat>, i: nat)
    requires Reach(a, p).Some? && i >= |Reach(a, p).value.parts|
    ensures Reach(a, p + [i]) == None
    decreases |p|
  {
    if p != [] {
      assert (p + [i])[1..] == p[1..] + [i];
      NoPartThere(a.parts[p[0]].arena, p[1..], i);
    }
  }

  ghost function Views(nodes: seq<UArena>): (vs: seq<Arena>)
    reads nodes
    ensures |vs| == |nodes| && forall k :: 0 <= k < |nodes| ==> vs[k] == nodes[k].view
  {
    seq(|nodes|, k requires 0 <= k < |nodes| reads nodes => nodes[k].view)
  }

  /** One call on object k. */
  method Act(nodes: seq<UArena>, k: nat, op: Op, mem: array<byte>, ghost tree: Arena, ghost paths: seq<seq<nat>>)
    returns (more: seq<UArena>)
    requires k < |nodes| && Objects(tree, nodes, paths, mem)
    requires Reach(tree, paths[k]).Some? && Spares(tree, paths, paths[k], op)
    modifies nodes[k], mem
    ensures nodes <= more && forall j :: |nodes| <= j < |more| ==> fresh(more[j])
    ensures Objects(DoAt(tree, paths[k], op), more, Grown(tree, paths, paths[k], op), mem)
  {
    hide WellFormed, Do, Stands, Spares;
    ghost var views := Views(nodes);
    var inner := Perform(nodes[k], op);
    ObjectsAfter(tree, paths, views, k, op, if inner != null then inner.view else tree);
    more := nodes;
    if inner != null {
      more := nodes + [inner];
      forall j | 0 <= j < |paths| ensures paths[j] != Grown(tree, paths, paths[k], op)[|paths|] {
        NewPathIsNew(tree, paths, views, k, op, j);
      }
    }
  }

  // ---- any run ----

  /** Any run of calls on the objects of a tree, to any depth, bootstrapping new ones on the way and
      never rewinding an arena below one inside it that has an object, is a run of the tree: it stays
      well formed, and every object is where the tree has it. */
  method RunObjects(nodes: seq<UArena>, calls: seq<Call>, mem: array<byte>,
                    ghost tree: Arena, ghost paths: seq<seq<nat>>)
    returns (all: seq<UArena>, ghost tree': Arena, ghost paths': seq<seq<nat>>)
    requires Objects(tree, nodes, paths, mem) && Legal(tree, paths, calls)
    modifies nodes, mem
    ensures nodes <= all && Objects(tree', all, paths', mem)
    ensures tree' == DoAll(tree, ActionsOf(tree, paths, calls))
  {
    hide Objects, Spares, Grown, DoAt;
    all, tree', paths' := nodes, tree, paths;
    var k := 0;
    assert calls[0..] == calls;
    while k < |calls|
      invariant 0 <= k <= |calls| && nodes <= all && forall j :: |nodes| <= j < |all| ==> fresh(all[j])
      invariant Objects(tree', all, paths', mem) && Legal(tree', paths', calls[k..])
      invariant DoAll(tree', ActionsOf(tree', paths', calls[k..])) == DoAll(tree, ActionsOf(tree, paths, calls))
    {
      var c := calls[k];
      assert calls[k..][0] == c && calls[k..][1..] == calls[k + 1..];
      SameNumber(tree', all, paths', mem);
      ghost var p := paths'[c.who];
      ghost var rest := ActionsOf(DoAt(tree', p, c.op), Grown(tree', paths', p, c.op), calls[k + 1..]);
      assert ([Action(p, c.op)] + rest)[1..] == rest;
      all := Act(all, c.who, c.op, mem, tree', paths');
      tree', paths' := DoAt(tree', p, c.op), Grown(tree', paths', p, c.op);
      k := k + 1;
    }
  }

  lemma SameNumber(tree: Arena, nodes: seq<UArena>, paths: seq<seq<nat>>, mem: array<byte>)
    requires Objects(tree, nodes, paths, mem)
    ensures |nodes| == |paths|
  {
  }

  /** One object, freshly made, is a tree. */
  lemma FirstObject(root: UArena)
    requires root.Valid()
    ensures Objects(root.view, [root], [[]], root.mem)
  {
    assert Stands(root.view, [], root.view) by { SameTopItself(root.view); }
  }
}
