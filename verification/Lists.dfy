/** cJSON_Delete and the child list: pointer surgery that amounts to sequence operations. */
module Lists {
  import opened Memory
  import opened Items

  /** cJSON_Delete: frees the items from `item` along the next links, each with all it owns,
      every block exactly once. */
  method Delete(mem: Memory, item: Ptr, ghost xs: seq<Item>, ghost first: Ptr)
    requires mem.Valid() && item == Head(xs)
    requires ListAt(mem.blocks, xs, first) && ListSep(xs)
    modifies mem
    ensures mem.Valid() && mem.oom == old(mem.oom)
    ensures mem.blocks == old(mem.blocks) - ListAddrs(xs)
    decreases xs
  {
    var current := item;
    ghost var i := 0;
    while current != NULL
      invariant 0 <= i <= |xs| && current == Head(xs[i..])
      invariant mem.Valid() && mem.oom == old(mem.oom)
      invariant mem.blocks == old(mem.blocks) - ListAddrs(xs[..i])
      invariant forall j :: i <= j < |xs| ==> KidAt(mem.blocks, xs, j, first)
      decreases |xs| - i
    {
      ghost var x, before := xs[i], mem.blocks;
      MemberAddrs(xs, i);
      KidParts(mem.blocks, xs, i, first);
      var next := mem.blocks[current].next;
      assert InnerAt(mem.blocks, x);
      Release(mem, current, x, Tail(x.kids));
      Remaining(before, mem.blocks, xs, i, first);
      Released(xs, i);
      i := i + 1;
      current := next;
    }
    if i < |xs| {
      KidParts(mem.blocks, xs, i, first);
    }
    assert xs[..i] == xs;
  }

  lemma Released(xs: seq<Item>, i: nat)
    requires i < |xs|
    ensures ListAddrs(xs[..i + 1]) == ListAddrs(xs[..i]) + ItemAddrs(xs[i])
  {
    AddrsConcat(xs[..i], [xs[i]]);
    Addrs1(xs[i]);
    assert xs[..i + 1] == xs[..i] + [xs[i]];
  }

  lemma Remaining(h: Heap, h': Heap, xs: seq<Item>, i: nat, first: Ptr)
    requires i < |xs| && ListSep(xs) && h' == h - ItemAddrs(xs[i])
    requires forall j :: i <= j < |xs| ==> KidAt(h, xs, j, first)
    ensures forall j :: i < j < |xs| ==> KidAt(h', xs, j, first)
  {
    forall j | i < j < |xs|
      ensures KidAt(h', xs, j, first)
    {
      assert KidAt(h, xs, j, first);
      MembersApart(xs, i, j);
      ItemFrame(h, h', xs[j], NextOf(xs, j), PrevOf(xs, j, first));
    }
  }

  /** The body of the loop: the children, the strings, then the node. `inner` is the prev link of
      the first child, which an unfinished child list has not set yet. */
  method Release(mem: Memory, item: Ptr, ghost x: Item, ghost inner: Ptr)
    requires mem.Valid() && item == x.addr
    requires Unfinished(mem.blocks, x, inner) && ItemSep(x)
    modifies mem
    ensures mem.Valid() && mem.oom == old(mem.oom)
    ensures mem.blocks == old(mem.blocks) - ItemAddrs(x)
    decreases x
  {
    var node := mem.blocks[item];
    HeadNull(mem.blocks, x.kids, inner);
    if node.child != NULL {
      Delete(mem, node.child, x.kids, inner);
    }
    assert mem.blocks == old(mem.blocks) - ListAddrs(x.kids);
    if node.text != NULL {
      mem.Free(node.text);
    }
    if node.key != NULL {
      mem.Free(node.key);
    }
    mem.Free(item);
  }

  /** x is in the heap, perhaps with its child list still open at the front. */
  ghost predicate Unfinished(h: Heap, x: Item, inner: Ptr) {
    && x.addr in h && h[x.addr].Node? && NodeAt(h, x, h[x.addr].next, h[x.addr].prev)
    && OwnedAt(h, x.text) && OwnedAt(h, x.key) && ListAt(h, x.kids, inner)
  }

  lemma PresentIsFinished(h: Heap, x: Item)
    ensures Present(h, x) <==> Unfinished(h, x, Tail(x.kids))
  {
    assert Present(h, x) ==> InnerAt(h, x);
    assert Unfinished(h, x, Tail(x.kids)) ==> InnerAt(h, x);
  }

  /** cJSON_Delete on an item that no other item follows. */
  method DeleteItem(mem: Memory, item: Ptr, ghost x: Item, ghost inner: Ptr)
    requires mem.Valid() && item == x.addr && ItemSep(x)
    requires Unfinished(mem.blocks, x, inner) && mem.blocks[item].next == NULL
    modifies mem
    ensures mem.Valid() && mem.oom == old(mem.oom)
    ensures mem.blocks == old(mem.blocks) - ItemAddrs(x)
  {
    Release(mem, item, x, inner);
  }
}
