/** cJSON_Duplicate: a copy that shares no block with its source, or no trace at all. The copy grows
    node by node on top of a heap it leaves alone, its child list open at the front until it is
    complete, and can be deleted at any moment. */
module Duplication {
  import opened Bytes
  import opened JsonTree
  import opened Memory
  import opened Items
  import opened ListEdits
  import opened Parser
  import Lists

  // ---- what a copy is ----

  function Unplaced(t: Owned): Owned {
    if t.Text? then Text(NULL, t.s) else Nothing
  }

  /** The item without its addresses: two items are copies of each other if this is equal. */
  function Erased(x: Item): Item
    decreases x, 1
  {
    Item(NULL, x.kind, x.valueint, x.valuedouble, Unplaced(x.text), Unplaced(x.key), AllErased(x.kids))
  }

  function AllErased(xs: seq<Item>): seq<Item>
    decreases xs, 0
  {
    if xs == [] then [] else [Erased(xs[0])] + AllErased(xs[1..])
  }

  function Childless(x: Item): Item {
    x.(kids := [])
  }

  lemma {:induction false} ErasedAppend(xs: seq<Item>, x: Item)
    ensures AllErased(xs + [x]) == AllErased(xs) + [Erased(x)]
  {
    if xs == [] {
      assert xs + [x] == [x] && [x][1..] == [];
    } else {
      assert (xs + [x])[1..] == xs[1..] + [x];
      ErasedAppend(xs[1..], x);
    }
  }

  /** A copy holds the same value in the same form. */
  lemma {:induction false} CopyHoldsTheSame(x: Item, y: Item)
    requires Erased(x) == Erased(y)
    ensures Value(x) == Value(y) && (Typed(x) <==> Typed(y))
    decreases x, 1
  {
    CopiesHoldTheSame(x.kids, y.kids);
  }

  lemma {:induction false} CopiesHoldTheSame(xs: seq<Item>, ys: seq<Item>)
    requires AllErased(xs) == AllErased(ys)
    ensures Values(xs) == Values(ys) && Members(xs) == Members(ys)
    ensures (AllTyped(xs) <==> AllTyped(ys)) && (AllKeyed(xs) <==> AllKeyed(ys))
    decreases xs, 0
  {
    if xs != [] && ys != [] {
      assert Erased(xs[0]) == AllErased(xs)[0] == AllErased(ys)[0] == Erased(ys[0]);
      assert AllErased(xs[1..]) == AllErased(xs)[1..] == AllErased(ys)[1..] == AllErased(ys[1..]);
      CopyHoldsTheSame(xs[0], ys[0]);
      CopiesHoldTheSame(xs[1..], ys[1..]);
      KeyedSplit(xs);
      KeyedSplit(ys);
    }
  }

  lemma KeyedSplit(xs: seq<Item>)
    requires xs != []
    ensures AllKeyed(xs) <==> xs[0].key.Text? && AllKeyed(xs[1..])
  {
    assert forall i :: 1 <= i < |xs| ==> xs[i] == xs[1..][i - 1];
  }

  /** Levels of children below x. */
  function Levels(x: Item): nat
    decreases x, 1
  {
    ListLevels(x.kids)
  }

  function ListLevels(xs: seq<Item>): nat
    decreases xs, 0
  {
    if xs == [] then 0 else
      var d, r := 1 + Levels(xs[0]), ListLevels(xs[1..]);
      if d < r then r else d
  }

  lemma {:induction false} KidLevels(xs: seq<Item>, i: nat)
    requires i < |xs|
    ensures Levels(xs[i]) < ListLevels(xs)
  {
    if i > 0 {
      KidLevels(xs[1..], i - 1);
    }
  }

  /** Every child's levels are within n iff all of theirs are. */
  lemma {:induction false} LevelsBound(xs: seq<Item>, n: nat)
    requires forall i :: 0 <= i < |xs| ==> Levels(xs[i]) < n
    ensures ListLevels(xs) <= n
  {
    if xs != [] {
      assert forall i :: 0 <= i < |xs[1..]| ==> xs[1..][i] == xs[i + 1];
      LevelsBound(xs[1..], n);
    }
  }

  // ---- the copy under construction ----

  /** On top of heap h0, and of nothing else, stands y; its child list is still open at the front. */
  ghost predicate Growing(h0: Heap, h: Heap, y: Item) {
    && y.addr != NULL && NodeAt(h, y, NULL, NULL) && OwnedAt(h, y.text) && OwnedAt(h, y.key)
    && ListAt(h, y.kids, NULL) && ItemSep(y)
    && ItemAddrs(y) !! h0.Keys
    && h.Keys == h0.Keys + ItemAddrs(y)
    && forall q :: q in h0 ==> h[q] == h0[q]
  }

  lemma Started(h0: Heap, p: Ptr, h: Heap, y: Item)
    requires NULL !in h0 && p != NULL && p !in h0
    requires y == Item(p, y.kind, y.valueint, y.valuedouble, Nothing, Nothing, [])
    requires h == h0[p := Node(NULL, NULL, NULL, y.kind, NULL, y.valueint, y.valuedouble, NULL)]
    ensures Growing(h0, h, y)
  {
    assert ListAddrs(y.kids) == {};
  }

  lemma TextCopied(h0: Heap, h: Heap, h': Heap, y: Item, at: Ptr, s: CStr)
    requires Growing(h0, h, y) && y.kids == [] && y.text == Nothing && at != NULL && at !in h
    requires h' == h[at := Str(s)][y.addr := h[y.addr].(text := at)]
    ensures Growing(h0, h', y.(text := Text(at, s)))
  {
    assert ListAddrs(y.kids) == {};
    assert at !in ItemAddrs(y);
  }

  lemma KeyCopied(h0: Heap, h: Heap, h': Heap, y: Item, at: Ptr, s: CStr)
    requires Growing(h0, h, y) && y.kids == [] && y.key == Nothing && at != NULL && at !in h
    requires h' == h[at := Str(s)][y.addr := h[y.addr].(key := at)]
    ensures Growing(h0, h', y.(key := Text(at, s)))
  {
    assert ListAddrs(y.kids) == {};
    assert at !in ItemAddrs(y);
  }

  /** The fail label: what stands so far is deleted. */
  method Fail(mem: Memory, item: Ptr, ghost h0: Heap, ghost y: Item)
    requires mem.Valid() && item == y.addr && Growing(h0, mem.blocks, y)
    modifies mem
    ensures mem.Valid() && mem.oom == old(mem.oom) && mem.blocks == h0
  {
    Lists.DeleteItem(mem, item, y, NULL);
    assert mem.blocks == h0;
  }

  /** The node and its strings. */
  method CopyNode(mem: Memory, item: Ptr, ghost x: Item) returns (p: Ptr, ghost y: Item)
    requires mem.Valid() && !mem.oom && item == x.addr && NodeOf(mem.blocks, x)
    requires OwnedAt(mem.blocks, x.text) && OwnedAt(mem.blocks, x.key)
    modifies mem
    ensures mem.Valid() && (p == NULL <==> mem.oom)
    ensures p == NULL ==> mem.blocks == old(mem.blocks)
    ensures p != NULL ==> p == y.addr && Growing(old(mem.blocks), mem.blocks, y) && y.kids == []
                          && Erased(y) == Erased(Childless(x))
  {
    ghost var h0 := mem.blocks;
    var from := mem.blocks[item];
    y := Childless(x);
    p := mem.NewItem();
    if p == NULL {
      return;
    }
    y := Item(p, from.kind, from.valueint, from.valuedouble, Nothing, Nothing, []);
    mem.SetNode(p, mem.blocks[p].(kind := from.kind, valueint := from.valueint, valuedouble := from.valuedouble));
    Started(h0, p, mem.blocks, y);
    if from.text != NULL {
      ghost var h := mem.blocks;
      var text := mem.Strdup(from.text);
      if text == NULL {
        Fail(mem, p, h0, y);
        return NULL, y;
      }
      mem.SetNode(p, mem.blocks[p].(text := text));
      TextCopied(h0, h, mem.blocks, y, text, x.text.s);
      y := y.(text := Text(text, x.text.s));
    }
    if from.key != NULL {
      ghost var h := mem.blocks;
      var key := mem.Strdup(from.key);
      if key == NULL {
        Fail(mem, p, h0, y);
        return NULL, y;
      }
      mem.SetNode(p, mem.blocks[p].(key := key));
      KeyCopied(h0, h, mem.blocks, y, key, x.key.s);
      y := y.(key := Text(key, x.key.s));
    }
  }

  // ---- the children ----

  /** The new child is linked behind `last`, or becomes the first. */
  method LinkCopy(mem: Memory, p: Ptr, last: Ptr, newchild: Ptr,
                  ghost h0: Heap, ghost h: Heap, ghost y: Item, ghost z: Item)
    requires mem.Valid() && p == y.addr && last == Tail(y.kids) && newchild == z.addr
    requires Growing(h0, h, y) && BuiltOn(h, mem.blocks, z)
    modifies mem
    ensures mem.Valid() && mem.oom == old(mem.oom)
    ensures Growing(h0, mem.blocks, WithKids(y, y.kids + [z]))
  {
    ghost var h1 := mem.blocks;
    GrowingKids(h0, h, h1, y, z);
    if last != NULL {
      mem.SetNode(last, mem.blocks[last].(next := newchild));
      mem.SetNode(newchild, mem.blocks[newchild].(prev := last));
    } else {
      mem.SetNode(p, mem.blocks[p].(child := newchild));
    }
    CopyLinked(h0, h, h1, mem.blocks, y, z);
  }

  lemma GrowingKids(h0: Heap, h: Heap, h1: Heap, y: Item, z: Item)
    requires Growing(h0, h, y) && BuiltOn(h, h1, z)
    ensures y.addr in h1 && h1[y.addr].Node? && z.addr in h1 && h1[z.addr].Node?
    ensures Tail(y.kids) == NULL <==> y.kids == []
    ensures y.kids != [] ==> Tail(y.kids) in h1 && h1[Tail(y.kids)].Node? && Tail(y.kids) != z.addr
  {
    if y.kids != [] {
      KidParts(h, y.kids, |y.kids| - 1, NULL);
    }
  }

  lemma CopyLinked(h0: Heap, h: Heap, h1: Heap, h': Heap, y: Item, z: Item)
    requires Growing(h0, h, y) && BuiltOn(h, h1, z) && y.addr in h1 && z.addr in h1
    requires h1[y.addr].Node? && h1[z.addr].Node?
    requires y.kids == [] ==> h' == h1[y.addr := h1[y.addr].(child := z.addr)]
    requires y.kids != [] ==> var t := Tail(y.kids);
                              t in h1 && h1[t].Node? && t != z.addr
                              && h' == h1[t := h1[t].(next := z.addr)][z.addr := h1[z.addr].(prev := t)]
    ensures Growing(h0, h', WithKids(y, y.kids + [z]))
  {
    hide Growing, BuiltOn;
    if y.kids == [] {
      FirstChild(h0, h, h1, h', y, z);
    } else {
      LaterChild(h0, h, h1, h', y, z);
    }
  }

  lemma FirstChild(h0: Heap, h: Heap, h1: Heap, h': Heap, y: Item, z: Item)
    requires Growing(h0, h, y) && BuiltOn(h, h1, z) && y.kids == [] && y.addr in h1 && h1[y.addr].Node?
    requires h' == h1[y.addr := h1[y.addr].(child := z.addr)]
    ensures Growing(h0, h', WithKids(y, y.kids + [z]))
  {
    GrownSep(h0, h, h1, y, z);
    ItemFrame(h1, h', z, NULL, NULL);
    assert KidAt(h', [z], 0, NULL);
    assert y.kids + [z] == [z];
  }

  lemma LaterChild(h0: Heap, h: Heap, h1: Heap, h': Heap, y: Item, z: Item)
    requires Growing(h0, h, y) && BuiltOn(h, h1, z) && y.kids != [] && z.addr in h1 && h1[z.addr].Node?
    requires var t := Tail(y.kids);
             t in h1 && h1[t].Node? && t != z.addr
             && h' == h1[t := h1[t].(next := z.addr)][z.addr := h1[z.addr].(prev := t)]
    ensures Growing(h0, h', WithKids(y, y.kids + [z]))
  {
    var xs := y.kids;
    GrownSep(h0, h, h1, y, z);
    ListFrame(h, h1, xs, NULL);
    ListGrown(h1, h', xs, z);
    MemberAddrs(xs, |xs| - 1);
    assert z.addr in ItemAddrs(z);
  }

  /** The new child brings in only blocks of its own. */
  lemma GrownSep(h0: Heap, h: Heap, h1: Heap, y: Item, z: Item)
    requires Growing(h0, h, y) && BuiltOn(h, h1, z)
    ensures var y' := WithKids(y, y.kids + [z]);
            ItemSep(y') && ItemAddrs(y') == ItemAddrs(y) + ItemAddrs(z) && ItemAddrs(y) !! ItemAddrs(z)
    ensures ListSep(y.kids + [z])
  {
    AddrsConcat(y.kids, [z]);
    SepConcat(y.kids, [z]);
    Addrs1(z);
  }

  /** An item linked behind the tail of an open list. */
  lemma ListGrown(h1: Heap, h': Heap, xs: seq<Item>, z: Item)
    requires xs != [] && ListAt(h1, xs, NULL) && ListSep(xs + [z]) && ItemAt(h1, z, NULL, NULL)
    requires var t := Tail(xs);
             t in h1 && h1[t].Node?
             && h' == h1[t := h1[t].(next := z.addr)][z.addr := h1[z.addr].(prev := t)]
    ensures ListAt(h', xs + [z], NULL)
  {
    var zs, n := xs + [z], |xs|;
    forall i | 0 <= i < |zs| ensures KidAt(h', zs, i, NULL) {
      KidUntouched(zs, i, n - 1);
      KidUntouched(zs, i, n);
      if i < n {
        KidParts(h1, xs, i, NULL);
      }
      InnerFrame(h1, h', zs[i]);
      assert NodeAt(h', zs[i], NextOf(zs, i), PrevOf(zs, i, NULL));
    }
  }

  lemma KidUntouched(zs: seq<Item>, i: nat, j: nat)
    requires ListSep(zs) && i < |zs| && j < |zs|
    ensures zs[j].addr !in InnerAddrs(zs[i]) && (i != j ==> zs[j].addr != zs[i].addr)
  {
    MemberAddrs(zs, i);
    if i < j {
      MembersApart(zs, i, j);
    } else if j < i {
      MembersApart(zs, j, i);
    }
  }

  /** The head's prev is set to the tail: the copy is complete. */
  method Close(mem: Memory, p: Ptr, last: Ptr, ghost h0: Heap, ghost y: Item)
    requires mem.Valid() && p == y.addr && last == Tail(y.kids) && Growing(h0, mem.blocks, y)
    modifies mem
    ensures mem.Valid() && mem.oom == old(mem.oom)
    ensures BuiltOn(h0, mem.blocks, y)
  {
    ghost var h := mem.blocks;
    if y.kids != [] {
      KidParts(h, y.kids, 0, NULL);
      MemberAddrs(y.kids, 0);
    }
    var child := mem.blocks[p].child;
    if child != NULL {
      mem.SetNode(child, mem.blocks[child].(prev := last));
      ListClosed(h, mem.blocks, y.kids);
    }
    assert InnerAt(mem.blocks, y);
  }

  lemma ListClosed(h: Heap, h': Heap, xs: seq<Item>)
    requires xs != [] && ListAt(h, xs, NULL) && ListSep(xs) && Head(xs) in h && h[Head(xs)].Node?
    requires h' == h[Head(xs) := h[Head(xs)].(prev := Tail(xs))]
    ensures ListAt(h', xs, Tail(xs))
  {
    forall i | 0 <= i < |xs| ensures KidAt(h', xs, i, Tail(xs)) {
      KidParts(h, xs, i, NULL);
      KidUntouched(xs, i, 0);
      InnerFrame(h, h', xs[i]);
    }
  }

  lemma SourceKept(h0: Heap, h: Heap, x: Item, y: Item)
    requires Present(h0, x) && Growing(h0, h, y)
    ensures Present(h, x) && h[x.addr].child == Head(x.kids)
  {
    ItemFrame(h0, h, x, h0[x.addr].next, h0[x.addr].prev);
  }

  lemma SourceKid(h0: Heap, h: Heap, x: Item, y: Item, i: nat)
    requires Present(h0, x) && Growing(h0, h, y) && i < |x.kids|
    ensures LinkAt(h, x.kids, i) && Present(h, x.kids[i])
  {
    SourceKept(h0, h, x, y);
    ChildAt(h, x, i);
  }

  /** cJSON_Duplicate_rec */
  method DuplicateRec(mem: Memory, item: Ptr, depth: nat, recurse: bool, ghost x: Item) returns (p: Ptr, ghost y: Item)
    requires mem.Valid() && !mem.oom && depth <= CIRCULAR_LIMIT
    requires item != NULL ==> item == x.addr && Present(mem.blocks, x)
    modifies mem
    ensures mem.Valid()
    ensures p == NULL <==> item == NULL || mem.oom || (recurse && depth + Levels(x) > CIRCULAR_LIMIT)
    ensures p == NULL ==> mem.blocks == old(mem.blocks)
    ensures p != NULL ==> p == y.addr && BuiltOn(old(mem.blocks), mem.blocks, y)
                          && Erased(y) == Erased(if recurse then x else Childless(x))
    decreases x, 1
  {
    y := Childless(x);
    if item == NULL {
      return NULL, y;
    }
    KidsOf(mem.blocks, x);
    p, y := CopyNode(mem, item, x);
    if p == NULL {
      return;
    }
    if !recurse {
      assert InnerAt(mem.blocks, y);
      return;
    }
    var ok;
    ok, y := CopyKids(mem, item, p, depth, old(mem.blocks), x, y);
    if !ok {
      p := NULL;
    }
  }

  method CopyKids(mem: Memory, item: Ptr, p: Ptr, depth: nat, ghost h0: Heap, ghost x: Item, ghost y0: Item)
    returns (ok: bool, ghost y: Item)
    requires mem.Valid() && !mem.oom && depth <= CIRCULAR_LIMIT
    requires item == x.addr && Present(h0, x)
    requires p == y0.addr && Growing(h0, mem.blocks, y0) && y0.kids == [] && Erased(y0) == Erased(Childless(x))
    modifies mem
    ensures mem.Valid()
    ensures ok <==> !mem.oom && depth + Levels(x) <= CIRCULAR_LIMIT
    ensures ok ==> p == y.addr && BuiltOn(h0, mem.blocks, y) && Erased(y) == Erased(x)
    ensures !ok ==> mem.blocks == h0
    decreases x, 0
  {
    hide Growing, BuiltOn, Present, InnerAt;
    y := y0;
    SourceKept(h0, mem.blocks, x, y);
    var child, next := mem.blocks[item].child, NULL;
    ghost var i := 0;
    assert x.kids[..0] == [];
    if x.kids != [] {
      SourceKid(h0, mem.blocks, x, y, 0);
    }
    while child != NULL
      invariant 0 <= i <= |x.kids| && child == Head(x.kids[i..]) && (child == NULL <==> i == |x.kids|)
      invariant mem.Valid() && !mem.oom && Growing(h0, mem.blocks, y)
      invariant y == WithKids(y0, y.kids) && next == Tail(y.kids) && AllErased(y.kids) == AllErased(x.kids[..i])
      invariant forall j :: 0 <= j < i ==> depth + 1 + Levels(x.kids[j]) <= CIRCULAR_LIMIT
      decreases |x.kids| - i
    {
      KidLevels(x.kids, i);
      if depth >= CIRCULAR_LIMIT {
        Fail(mem, p, h0, y);
        return false, y;
      }
      var newchild;
      newchild, y := CopyKid(mem, child, p, next, depth, h0, x, y, i);
      if newchild == NULL {
        return false, y;
      }
      next := newchild;
      SourceKid(h0, mem.blocks, x, y, i);
      if i + 1 < |x.kids| {
        SourceKid(h0, mem.blocks, x, y, i + 1);
      }
      child := mem.blocks[child].next;
      i := i + 1;
    }
    assert x.kids[..i] == x.kids;
    LevelsBound(x.kids, CIRCULAR_LIMIT - depth);
    Close(mem, p, next, h0, y);
    ok := true;
  }

  /** One turn: child i is copied and linked, or the whole copy is given up. */
  method CopyKid(mem: Memory, child: Ptr, p: Ptr, last: Ptr, depth: nat,
                 ghost h0: Heap, ghost x: Item, ghost y: Item, ghost i: nat)
    returns (newchild: Ptr, ghost y': Item)
    requires mem.Valid() && !mem.oom && depth < CIRCULAR_LIMIT
    requires Present(h0, x) && Growing(h0, mem.blocks, y) && i < |x.kids|
    requires child == x.kids[i].addr && child != NULL && p == y.addr && last == Tail(y.kids)
    requires AllErased(y.kids) == AllErased(x.kids[..i])
    modifies mem
    ensures mem.Valid()
    ensures newchild == NULL <==> mem.oom || depth + 1 + Levels(x.kids[i]) > CIRCULAR_LIMIT
    ensures newchild == NULL ==> mem.blocks == h0
    ensures newchild != NULL ==> Growing(h0, mem.blocks, y') && y' == WithKids(y, y'.kids) && newchild == Tail(y'.kids)
                                 && AllErased(y'.kids) == AllErased(x.kids[..i + 1])
    decreases x.kids[i], 2
  {
    hide Growing, BuiltOn, Present, InnerAt, Levels;
    SourceKid(h0, mem.blocks, x, y, i);
    ghost var h := mem.blocks;
    ghost var z;
    newchild, z := DuplicateRec(mem, child, depth + 1, true, x.kids[i]);
    y' := y;
    if newchild == NULL {
      Fail(mem, p, h0, y);
      return;
    }
    LinkCopy(mem, p, last, newchild, h0, h, y, z);
    ErasedAppend(y.kids, z);
    ErasedAppend(x.kids[..i], x.kids[i]);
    assert x.kids[..i + 1] == x.kids[..i] + [x.kids[i]];
    y' := WithKids(y, y.kids + [z]);
  }

  method Duplicate(mem: Memory, item: Ptr, recurse: bool, ghost x: Item) returns (p: Ptr, ghost y: Item)
    requires mem.Valid() && !mem.oom
    requires item != NULL ==> item == x.addr && Present(mem.blocks, x)
    modifies mem
    ensures mem.Valid()
    ensures p == NULL <==> item == NULL || mem.oom || (recurse && Levels(x) > CIRCULAR_LIMIT)
    ensures p == NULL ==> mem.blocks == old(mem.blocks)
    ensures p != NULL ==> p == y.addr && BuiltOn(old(mem.blocks), mem.blocks, y)
                          && Erased(y) == Erased(if recurse then x else Childless(x))
  {
    p, y := DuplicateRec(mem, item, 0, recurse, x);
  }
}
