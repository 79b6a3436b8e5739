/** The child list: adding, inserting, detaching and replacing by pointer surgery amounts to
    append, insert, remove and update on the sequence of children. For each edit, one predicate
    lists the links it rewrites and one lemma proves that they spell the new sequence. */
module ListEdits {
  import opened Bytes
  import opened Memory
  import opened Items
  import Lists

  function NodeAddrs(xs: seq<Item>): set<Ptr> {
    set x | x in xs :: x.addr
  }

  function WithKids(a: Item, ys: seq<Item>): Item {
    a.(kids := ys)
  }

  /** The parent's own links, which no edit of its children touches. */
  ghost predicate SameLinks(h: Heap, h': Heap, p: Ptr) {
    p in h && h[p].Node? && p in h' && h'[p].Node? && h'[p].next == h[p].next && h'[p].prev == h[p].prev
  }

  /** a can take x as a child: both are complete, share nothing, and x is in no list. */
  ghost predicate Attachable(h: Heap, a: Item, x: Item) {
    && Present(h, a) && Present(h, x) && h[x.addr].next == NULL
    && ItemSep(a) && ItemSep(x) && ItemAddrs(a) !! ItemAddrs(x)
  }

  // ---- facts the surgeries share ----

  /** The nodes an edit of a's children may rewrite. */
  function Nodes(a: Item, zs: seq<Item>): set<Ptr> {
    {a.addr} + NodeAddrs(zs)
  }

  /** Those nodes are distinct and lie outside everything else a and its children own. */
  lemma NodesApart(a: Item, zs: seq<Item>)
    requires ItemSep(WithKids(a, zs))
    ensures Nodes(a, zs) !! OwnedAddrs(a.text) + OwnedAddrs(a.key)
    ensures forall z :: z in zs ==> Nodes(a, zs) !! InnerAddrs(z) && z.addr != a.addr
    ensures forall i, j :: 0 <= i < j < |zs| ==> zs[i].addr != zs[j].addr
  {
    forall i | 0 <= i < |zs|
      ensures zs[i].addr in ListAddrs(zs) && a.addr !in ItemAddrs(zs[i]) && ItemSep(zs[i])
    {
      MemberAddrs(zs, i);
    }
    forall i, j | 0 <= i < j < |zs| ensures zs[i].addr != zs[j].addr {
      MembersApart(zs, i, j);
    }
    forall i, j | 0 <= i < |zs| && 0 <= j < |zs| ensures zs[j].addr !in InnerAddrs(zs[i]) {
      if i < j {
        MembersApart(zs, i, j);
      } else if j < i {
        MembersApart(zs, j, i);
      }
    }
  }

  /** The links of child i in a finished child list. */
  ghost predicate LinkAt(h: Heap, xs: seq<Item>, i: nat)
    requires i < |xs|
  {
    NodeAt(h, xs[i], NextOf(xs, i), PrevOf(xs, i, Tail(xs)))
  }

  ghost predicate Linked(h: Heap, xs: seq<Item>) {
    forall i :: 0 <= i < |xs| ==> LinkAt(h, xs, i)
  }

  /** a's children, their links and their insides, one by one. */
  lemma KidsOf(h: Heap, a: Item)
    requires Present(h, a)
    ensures OwnedAt(h, a.text) && OwnedAt(h, a.key)
    ensures Linked(h, a.kids)
    ensures forall z :: z in a.kids ==> InnerAt(h, z)
  {
    assert InnerAt(h, a);
    assert ListAt(h, a.kids, Tail(a.kids));
    forall i | 0 <= i < |a.kids|
      ensures LinkAt(h, a.kids, i) && InnerAt(h, a.kids[i])
    {
      KidParts(h, a.kids, i, Tail(a.kids));
    }
  }

  /** What the pointer code has to get right: the parent's node and the links of the new children. */
  ghost predicate LinksSpell(h: Heap, a: Item, ys: seq<Item>) {
    && a.addr in h && h[a.addr].Node? && NodeAt(h, WithKids(a, ys), h[a.addr].next, h[a.addr].prev)
    && Linked(h, ys)
  }

  /** If only nodes among zs were rewritten and the links now spell ys, a's children are ys. */
  lemma Relinked(h: Heap, h': Heap, a: Item, zs: seq<Item>, ys: seq<Item>)
    requires ItemSep(WithKids(a, zs)) && forall y :: y in ys ==> y in zs
    requires OwnedAt(h, a.text) && OwnedAt(h, a.key) && forall z :: z in zs ==> InnerAt(h, z)
    requires SameBeyond(h, h', Nodes(a, zs)) && LinksSpell(h', a, ys)
    ensures Present(h', WithKids(a, ys))
    ensures forall z :: z in zs ==> InnerAt(h', z)
  {
    hide ItemSep, InnerAddrs, InnerAt;
    NodesApart(a, zs);
    forall z | z in zs ensures InnerAt(h', z) {
      InnerFrame(h, h', z);
    }
    KidsLinked(h', a, ys);
  }

  lemma KidsLinked(h: Heap, a: Item, ys: seq<Item>)
    requires LinksSpell(h, a, ys) && OwnedAt(h, a.text) && OwnedAt(h, a.key) && forall y :: y in ys ==> InnerAt(h, y)
    ensures Present(h, WithKids(a, ys))
  {
    forall i | 0 <= i < |ys|
      ensures KidAt(h, ys, i, Tail(ys))
    {
      assert LinkAt(h, ys, i) && InnerAt(h, ys[i]);
    }
    assert ListAt(h, ys, Tail(ys));
    assert InnerAt(h, WithKids(a, ys));
  }

  lemma Appended(a: Item, x: Item)
    requires ItemSep(a) && ItemSep(x) && ItemAddrs(a) !! ItemAddrs(x)
    ensures ItemSep(WithKids(a, a.kids + [x]))
  {
    SepConcat(a.kids, [x]);
    AddrsConcat(a.kids, [x]);
    Addrs1(x);
  }

  lemma Inserted(a: Item, x: Item, at: nat)
    requires ItemSep(a) && ItemSep(x) && ItemAddrs(a) !! ItemAddrs(x) && at <= |a.kids|
    ensures ItemSep(WithKids(a, a.kids[..at] + [x] + a.kids[at..]))
  {
    var l, r := a.kids[..at], a.kids[at..];
    assert a.kids == l + r;
    SepConcat(l, r);
    AddrsConcat(l, r);
    SepConcat(l, [x]);
    AddrsConcat(l, [x]);
    SepConcat(l + [x], r);
    AddrsConcat(l + [x], r);
    Addrs1(x);
  }

  lemma Removed(a: Item, index: nat)
    requires ItemSep(a) && index < |a.kids|
    ensures var b := WithKids(a, a.kids[..index] + a.kids[index + 1..]);
            ItemSep(b) && ItemSep(a.kids[index]) && ItemAddrs(a.kids[index]) !! ItemAddrs(b)
            && ItemAddrs(b) + ItemAddrs(a.kids[index]) == ItemAddrs(a)
  {
    var l, x, r := a.kids[..index], [a.kids[index]], a.kids[index + 1..];
    assert a.kids == l + (x + r);
    SepConcat(l, x + r);
    AddrsConcat(l, x + r);
    SepConcat(x, r);
    AddrsConcat(x, r);
    SepConcat(l, r);
    AddrsConcat(l, r);
    Addrs1(a.kids[index]);
  }

  // ---- what a surgery does to links ----

  /** The node at p keeps everything but its links. */
  ghost predicate Moved(h: Heap, h': Heap, p: Ptr, next: Ptr, prev: Ptr) {
    p in h && h[p].Node? && p in h' && h'[p] == h[p].(next := next, prev := prev)
  }

  /** The parent keeps everything but its child pointer. */
  ghost predicate Adopted(h: Heap, h': Heap, p: Ptr, child: Ptr) {
    p in h && h[p].Node? && p in h' && h'[p] == h[p].(child := child)
  }

  ghost predicate NodeOf(h: Heap, x: Item) {
    x.addr in h && h[x.addr].Node? && NodeAt(h, x, h[x.addr].next, h[x.addr].prev)
  }

  /** Distinct nodes: the parent, its children, and perhaps one more item. */
  ghost predicate Distinct(a: Item, xs: seq<Item>) {
    && (forall i, j :: 0 <= i < j < |xs| ==> xs[i].addr != xs[j].addr)
    && forall z :: z in xs ==> z.addr != a.addr
  }

  ghost predicate Outside(a: Item, xs: seq<Item>, x: Item) {
    a.addr != x.addr && forall z :: z in xs ==> z.addr != x.addr
  }

  ghost predicate AppendedLinks(h: Heap, h': Heap, a: Item, x: Item) {
    var xs := a.kids; var n := |xs|;
    && SameBeyond(h, h', {a.addr, x.addr} + (if n == 0 then {} else {xs[0].addr, xs[n - 1].addr}))
    && Adopted(h, h', a.addr, if n == 0 then x.addr else Head(xs))
    && Moved(h, h', x.addr, NULL, if n == 0 then x.addr else Tail(xs))
    && (n == 1 ==> Moved(h, h', xs[0].addr, x.addr, x.addr))
    && (n > 1 ==> Moved(h, h', xs[0].addr, xs[1].addr, x.addr)
                  && Moved(h, h', xs[n - 1].addr, x.addr, xs[n - 2].addr))
  }

  lemma AppendSpells(h: Heap, h': Heap, a: Item, x: Item)
    requires NodeOf(h, a) && NodeOf(h, x) && Linked(h, a.kids)
    requires Distinct(a, a.kids) && Outside(a, a.kids, x)
    requires AppendedLinks(h, h', a, x)
    ensures LinksSpell(h', a, a.kids + [x])
  {
    var xs, ys := a.kids, a.kids + [x];
    forall i | 0 <= i < |ys| ensures LinkAt(h', ys, i) {
      if i < |xs| {
        assert LinkAt(h, xs, i) && xs[i] in xs;
      }
    }
  }

  /** The nodes whose links removing element i rewrites: its neighbours (the head counts as the
      tail's neighbour), the item itself and the parent. */
  function RemovalNodes(a: Item, i: nat): set<Ptr>
    requires i < |a.kids|
  {
    var xs := a.kids;
    {a.addr, xs[i].addr, xs[0].addr} + (if i > 0 then {xs[i - 1].addr} else {})
    + (if i + 1 < |xs| then {xs[i + 1].addr} else {})
  }

  ghost predicate RemovedLinks(h: Heap, h': Heap, a: Item, i: nat)
    requires i < |a.kids|
  {
    var xs := a.kids; var n := |xs|;
    && SameBeyond(h, h', RemovalNodes(a, i))
    && Adopted(h, h', a.addr, if i == 0 then NextOf(xs, 0) else xs[0].addr)
    && Moved(h, h', xs[i].addr, NULL, NULL)
    && (i > 0 ==> Moved(h, h', xs[i - 1].addr, NextOf(xs, i),
                        if 1 == i == n - 1 then xs[0].addr else PrevOf(xs, i - 1, Tail(xs))))
    && (i + 1 < n ==> Moved(h, h', xs[i + 1].addr, NextOf(xs, i + 1), PrevOf(xs, i, Tail(xs))))
    && (i > 1 ==> Moved(h, h', xs[0].addr, xs[1].addr, if i == n - 1 then xs[n - 2].addr else Tail(xs)))
  }

  lemma RemoveSpells(h: Heap, h': Heap, a: Item, index: nat)
    requires NodeOf(h, a) && Linked(h, a.kids) && index < |a.kids|
    requires Distinct(a, a.kids) && RemovedLinks(h, h', a, index)
    ensures LinksSpell(h', a, a.kids[..index] + a.kids[index + 1..])
  {
    var ys := a.kids[..index] + a.kids[index + 1..];
    forall i | 0 <= i < |ys| ensures LinkAt(h', ys, i) {
      RemoveSpell(h, h', a, index, i);
    }
  }

  lemma RemoveSpell(h: Heap, h': Heap, a: Item, index: nat, i: nat)
    requires Linked(h, a.kids) && index < |a.kids| && i + 1 < |a.kids|
    requires Distinct(a, a.kids) && RemovedLinks(h, h', a, index)
    ensures LinkAt(h', a.kids[..index] + a.kids[index + 1..], i)
  {
    var xs := a.kids;
    var j := if i < index then i else i + 1;
    RemovedNeighbours(xs, index, i);
    assert LinkAt(h, xs, j) && xs[j] in xs;
    if j == index + 1 {
    } else if j + 1 == index {
    } else if j == 0 {
      assert index > 1;
    } else {
      assert xs[j].addr !in RemovalNodes(a, index);
    }
  }

  /** Where a remaining element stands after a removal, and who its neighbours are. */
  lemma RemovedNeighbours(xs: seq<Item>, index: nat, i: nat)
    requires index < |xs| && i + 1 < |xs|
    ensures var ys, j := xs[..index] + xs[index + 1..], if i < index then i else i + 1;
            ys[i] == xs[j]
            && NextOf(ys, i) == (if i + 1 == index then NextOf(xs, index) else NextOf(xs, j))
            && Tail(ys) == (if index == |xs| - 1 then xs[|xs| - 2].addr else Tail(xs))
            && PrevOf(ys, i, Tail(ys)) == (if i == 0 then Tail(ys)
                                            else if i == index then xs[index - 1].addr else xs[j - 1].addr)
  {
  }

  ghost predicate InsertedLinks(h: Heap, h': Heap, a: Item, x: Item, at: nat)
    requires at < |a.kids|
  {
    var xs := a.kids;
    && SameBeyond(h, h', {a.addr, x.addr, xs[at].addr} + (if at > 0 then {xs[at - 1].addr} else {}))
    && Adopted(h, h', a.addr, if at == 0 then x.addr else Head(xs))
    && Moved(h, h', x.addr, xs[at].addr, PrevOf(xs, at, Tail(xs)))
    && Moved(h, h', xs[at].addr, NextOf(xs, at), x.addr)
    && (at > 0 ==> Moved(h, h', xs[at - 1].addr, x.addr, PrevOf(xs, at - 1, Tail(xs))))
  }

  lemma InsertSpells(h: Heap, h': Heap, a: Item, x: Item, at: nat)
    requires NodeOf(h, a) && NodeOf(h, x) && Linked(h, a.kids) && at < |a.kids|
    requires Distinct(a, a.kids) && Outside(a, a.kids, x)
    requires InsertedLinks(h, h', a, x, at)
    ensures LinksSpell(h', a, a.kids[..at] + [x] + a.kids[at..])
  {
    var ys := a.kids[..at] + [x] + a.kids[at..];
    forall i | 0 <= i < |ys| ensures LinkAt(h', ys, i) {
      if i == at {
        assert ys[i] == x;
      } else {
        InsertSpell(h, h', a, x, at, i);
      }
    }
  }

  lemma InsertSpell(h: Heap, h': Heap, a: Item, x: Item, at: nat, i: nat)
    requires Linked(h, a.kids) && at < |a.kids| && i <= |a.kids| && i != at
    requires Distinct(a, a.kids) && Outside(a, a.kids, x)
    requires InsertedLinks(h, h', a, x, at)
    ensures LinkAt(h', a.kids[..at] + [x] + a.kids[at..], i)
  {
    InsertedNeighbours(a.kids, x, at, i);
    assert LinkAt(h, a.kids, if i < at then i else i - 1);
  }

  /** Where an old element stands after an insertion, and who its neighbours are. */
  lemma InsertedNeighbours(xs: seq<Item>, x: Item, at: nat, i: nat)
    requires at < |xs| && i <= |xs| && i != at
    ensures var ys, j := xs[..at] + [x] + xs[at..], if i < at then i else i - 1;
            ys[i] == xs[j] && xs[j] in xs
            && NextOf(ys, i) == (if i + 1 == at then x.addr else NextOf(xs, j))
            && PrevOf(ys, i, Tail(ys)) == (if i == at + 1 then x.addr else PrevOf(xs, j, Tail(xs)))
  {
  }

  // ---- reading ----

  method GetArrayItem(mem: Memory, parent: Ptr, index: nat, ghost a: Item) returns (p: Ptr)
    requires mem.Valid() && (parent != NULL ==> parent == a.addr && Present(mem.blocks, a))
    ensures p == if parent != NULL && index < |a.kids| then a.kids[index].addr else NULL
    ensures p != NULL <==> parent != NULL && index < |a.kids|
  {
    if parent == NULL {
      return NULL;
    }
    KidsOf(mem.blocks, a);
    p := mem.blocks[parent].child;
    var left := index;
    assert a.kids != [] ==> LinkAt(mem.blocks, a.kids, 0);
    while p != NULL && left > 0
      invariant 0 <= left <= index
      invariant p == if index - left < |a.kids| then a.kids[index - left].addr else NULL
      invariant p == NULL <==> index - left >= |a.kids|
      decreases left
    {
      assert LinkAt(mem.blocks, a.kids, index - left);
      assert index - left + 1 < |a.kids| ==> LinkAt(mem.blocks, a.kids, index - left + 1);
      left := left - 1;
      p := mem.blocks[p].next;
    }
  }

  // ---- editing ----

  method AddItemToArray(mem: Memory, parent: Ptr, item: Ptr, ghost a: Item, ghost x: Item) returns (ok: bool)
    requires mem.Valid()
    requires parent != NULL && item != NULL && parent != item ==>
               a.addr == parent && x.addr == item && Attachable(mem.blocks, a, x)
    modifies mem
    ensures mem.Valid() && mem.oom == old(mem.oom)
    ensures ok == (parent != NULL && item != NULL && parent != item)
    ensures !ok ==> mem.blocks == old(mem.blocks)
    ensures ok ==> EditedTo(old(mem.blocks), mem.blocks, a, a.kids + [x])
                   && SameBeyond(old(mem.blocks), mem.blocks, Nodes(a, a.kids) + {item})
  {
    if item == NULL || parent == NULL || parent == item {
      return false;
    }
    Prepared(mem.blocks, a);
    PreparedItem(mem.blocks, a, x);
    AppendLinks(mem, parent, item, a, x);
    AppendDone(old(mem.blocks), mem.blocks, a, x);
    ok := true;
  }

  lemma AppendDone(h: Heap, h': Heap, a: Item, x: Item)
    requires Attachable(h, a, x) && AppendedLinks(h, h', a, x)
    ensures EditedTo(h, h', a, a.kids + [x])
    ensures SameBeyond(h, h', Nodes(a, a.kids) + {x.addr})
  {
    hide InnerAt, ItemSep, ItemAddrs, InnerAddrs, ListAddrs, Linked, Distinct, Outside;
    var ys := a.kids + [x];
    Prepared(h, a);
    PreparedItem(h, a, x);
    Appended(a, x);
    AppendedMembers(a.kids, x);
    AppendSpells(h, h', a, x);
    KidsOf(h, a);
    NodesIn(a, a.kids);
    var n := |a.kids|;
    Edited(h, h', a, ys, ys, {a.addr, x.addr} + (if n == 0 then {} else {a.kids[0].addr, a.kids[n - 1].addr}),
           if n == 0 then x.addr else Head(a.kids));
  }

  /** suffix_object on the tail, or a new one-element list. */
  method AppendLinks(mem: Memory, parent: Ptr, item: Ptr, ghost a: Item, ghost x: Item)
    requires mem.Valid() && parent == a.addr && item == x.addr
    requires NodeOf(mem.blocks, a) && NodeOf(mem.blocks, x) && mem.blocks[item].next == NULL
    requires Linked(mem.blocks, a.kids) && Distinct(a, a.kids) && Outside(a, a.kids, x)
    modifies mem
    ensures mem.Valid() && mem.oom == old(mem.oom)
    ensures AppendedLinks(old(mem.blocks), mem.blocks, a, x)
  {
    ghost var h, xs := mem.blocks, a.kids;
    if xs != [] {
      NeighboursAt(h, xs, |xs| - 1);
    }
    var child := mem.blocks[parent].child;
    if child == NULL {
      mem.SetNode(parent, mem.blocks[parent].(child := item));
      mem.SetNode(item, mem.blocks[item].(prev := item, next := NULL));
    } else {
      var tail := mem.blocks[child].prev;
      mem.SetNode(tail, mem.blocks[tail].(next := item));
      mem.SetNode(item, mem.blocks[item].(prev := tail));
      mem.SetNode(child, mem.blocks[child].(prev := item));
    }
  }

  /** `index` is the item's position among the parent's children, or negative if it is a
      node in no list. */
  method DetachItemViaPointer(mem: Memory, parent: Ptr, item: Ptr, ghost a: Item, ghost index: int)
    returns (p: Ptr)
    requires mem.Valid()
    requires parent != NULL && item != NULL ==>
               a.addr == parent && Present(mem.blocks, a) && ItemSep(a) && index < |a.kids|
               && if index >= 0 then a.kids[index].addr == item
                  else item != Head(a.kids) && item in mem.blocks && mem.blocks[item].Node?
                       && mem.blocks[item].prev == NULL
    modifies mem
    ensures mem.Valid() && mem.oom == old(mem.oom)
    ensures p == if parent != NULL && item != NULL && index >= 0 then item else NULL
    ensures p == NULL ==> mem.blocks == old(mem.blocks)
    ensures p != NULL ==> var ys := a.kids[..index] + a.kids[index + 1..];
                          EditedTo(old(mem.blocks), mem.blocks, a, ys)
                          && ItemAt(mem.blocks, a.kids[index], NULL, NULL) && ItemSep(a.kids[index])
                          && ItemAddrs(a.kids[index]) !! ItemAddrs(WithKids(a, ys))
                          && SameBeyond(old(mem.blocks), mem.blocks, Nodes(a, a.kids))
  {
    if parent == NULL || item == NULL {
      return NULL;
    }
    Prepared(mem.blocks, a);
    if index >= 0 {
      NeighboursAt(mem.blocks, a.kids, index);
    }
    if item != mem.blocks[parent].child && mem.blocks[item].prev == NULL {
      return NULL;
    }
    RemoveLinks(mem, parent, item, a, index);
    RemoveDone(old(mem.blocks), mem.blocks, a, index);
    p := item;
  }

  lemma RemoveDone(h: Heap, h': Heap, a: Item, i: nat)
    requires Present(h, a) && ItemSep(a) && i < |a.kids| && RemovedLinks(h, h', a, i)
    ensures var ys := a.kids[..i] + a.kids[i + 1..];
            EditedTo(h, h', a, ys) && ItemAt(h', a.kids[i], NULL, NULL) && ItemSep(a.kids[i])
            && ItemAddrs(a.kids[i]) !! ItemAddrs(WithKids(a, ys)) && SameBeyond(h, h', Nodes(a, a.kids))
  {
    var xs, ys := a.kids, a.kids[..i] + a.kids[i + 1..];
    Prepared(h, a);
    Removed(a, i);
    RemoveSpells(h, h', a, i);
    KidsOf(h, a);
    RemovalNodesIn(a, i);
    assert WithKids(a, xs) == a;
    Edited(h, h', a, xs, ys, RemovalNodes(a, i), if i == 0 then NextOf(xs, 0) else xs[0].addr);
    RemovedNode(h, h', a, i);
  }

  lemma RemovalNodesIn(a: Item, i: nat)
    requires i < |a.kids|
    ensures RemovalNodes(a, i) <= Nodes(a, a.kids)
    ensures forall y :: y in a.kids[..i] + a.kids[i + 1..] ==> y in a.kids
  {
  }

  lemma RemovedNode(h: Heap, h': Heap, a: Item, i: nat)
    requires i < |a.kids| && Linked(h, a.kids) && RemovedLinks(h, h', a, i)
    requires forall z :: z in a.kids ==> InnerAt(h', z)
    ensures ItemAt(h', a.kids[i], NULL, NULL)
  {
    assert LinkAt(h, a.kids, i) && a.kids[i] in a.kids;
  }

  method RemoveLinks(mem: Memory, parent: Ptr, item: Ptr, ghost a: Item, ghost index: nat)
    requires mem.Valid() && parent == a.addr && index < |a.kids| && item == a.kids[index].addr
    requires NodeOf(mem.blocks, a) && Linked(mem.blocks, a.kids) && Distinct(a, a.kids)
    modifies mem
    ensures mem.Valid() && mem.oom == old(mem.oom)
    ensures RemovedLinks(old(mem.blocks), mem.blocks, a, index)
  {
    NeighboursAt(mem.blocks, a.kids, index);
    if item != mem.blocks[parent].child {
      var before := mem.blocks[item].prev;
      mem.SetNode(before, mem.blocks[before].(next := mem.blocks[item].next));
    }
    if mem.blocks[item].next != NULL {
      var after := mem.blocks[item].next;
      mem.SetNode(after, mem.blocks[after].(prev := mem.blocks[item].prev));
    }
    if item == mem.blocks[parent].child {
      mem.SetNode(parent, mem.blocks[parent].(child := mem.blocks[item].next));
    } else if mem.blocks[item].next == NULL {
      var head := mem.blocks[parent].child;
      mem.SetNode(head, mem.blocks[head].(prev := mem.blocks[item].prev));
    }
    mem.SetNode(item, mem.blocks[item].(prev := NULL, next := NULL));
  }

  /** The new item stands at position `which`, or last if there is no such position. */
  method InsertItemInArray(mem: Memory, parent: Ptr, which: int, item: Ptr, ghost a: Item, ghost x: Item)
    returns (ok: bool)
    requires mem.Valid()
    requires parent != NULL ==> a.addr == parent && Present(mem.blocks, a)
    requires parent != NULL && item != NULL && parent != item ==> x.addr == item && Attachable(mem.blocks, a, x)
    requires parent != NULL && parent == item ==> !(0 <= which < |a.kids|)
    modifies mem
    ensures mem.Valid() && mem.oom == old(mem.oom)
    ensures ok == (which >= 0 && parent != NULL && item != NULL && parent != item)
    ensures !ok ==> mem.blocks == old(mem.blocks)
    ensures ok ==> var at := Min(which, |a.kids|);
                   EditedTo(old(mem.blocks), mem.blocks, a, a.kids[..at] + [x] + a.kids[at..])
                   && SameBeyond(old(mem.blocks), mem.blocks, Nodes(a, a.kids) + {item})
  {
    if which < 0 || item == NULL {
      return false;
    }
    var after := GetArrayItem(mem, parent, which, a);
    if after == NULL {
      ok := AddItemToArray(mem, parent, item, a, x);
      assert a.kids[..|a.kids|] + [x] + a.kids[|a.kids|..] == a.kids + [x];
      return;
    }
    Prepared(mem.blocks, a);
    PreparedItem(mem.blocks, a, x);
    NeighboursAt(mem.blocks, a.kids, which);
    if after != mem.blocks[parent].child && mem.blocks[after].prev == NULL {
      assert false;
    }
    InsertLinks(mem, parent, after, item, a, x, which);
    InsertDone(old(mem.blocks), mem.blocks, a, x, which);
    ok := true;
  }

  lemma InsertDone(h: Heap, h': Heap, a: Item, x: Item, at: nat)
    requires Attachable(h, a, x) && at < |a.kids| && InsertedLinks(h, h', a, x, at)
    ensures EditedTo(h, h', a, a.kids[..at] + [x] + a.kids[at..])
    ensures SameBeyond(h, h', Nodes(a, a.kids) + {x.addr})
  {
    hide InnerAt, ItemSep, ItemAddrs, InnerAddrs, ListAddrs, Linked, Distinct, Outside;
    var xs, ys := a.kids, a.kids[..at] + [x] + a.kids[at..];
    Prepared(h, a);
    PreparedItem(h, a, x);
    Inserted(a, x, at);
    InsertedMembers(xs, x, at);
    InsertSpells(h, h', a, x, at);
    KidsOf(h, a);
    NodesIn(a, xs);
    Edited(h, h', a, ys, ys, {a.addr, x.addr, xs[at].addr} + (if at > 0 then {xs[at - 1].addr} else {}),
           if at == 0 then x.addr else Head(xs));
  }

  method InsertLinks(mem: Memory, parent: Ptr, after: Ptr, item: Ptr, ghost a: Item, ghost x: Item, ghost at: nat)
    requires mem.Valid() && parent == a.addr && item == x.addr && at < |a.kids| && after == a.kids[at].addr
    requires NodeOf(mem.blocks, a) && NodeOf(mem.blocks, x)
    requires Linked(mem.blocks, a.kids) && Distinct(a, a.kids) && Outside(a, a.kids, x)
    modifies mem
    ensures mem.Valid() && mem.oom == old(mem.oom)
    ensures InsertedLinks(old(mem.blocks), mem.blocks, a, x, at)
  {
    NeighboursAt(mem.blocks, a.kids, at);
    var before := mem.blocks[after].prev;
    mem.SetNode(item, mem.blocks[item].(next := after, prev := before));
    mem.SetNode(after, mem.blocks[after].(prev := item));
    if after == mem.blocks[parent].child {
      mem.SetNode(parent, mem.blocks[parent].(child := item));
    } else {
      mem.SetNode(before, mem.blocks[before].(next := item));
    }
  }

  /** The item at `index` makes room for the replacement and is deleted. */
  method ReplaceItemViaPointer(mem: Memory, parent: Ptr, item: Ptr, replacement: Ptr,
                               ghost a: Item, ghost index: nat, ghost x: Item) returns (ok: bool)
    requires mem.Valid()
    requires parent != NULL ==> a.addr == parent && Present(mem.blocks, a) && ItemSep(a)
    requires parent != NULL && item != NULL ==> index < |a.kids| && a.kids[index].addr == item
    requires parent != NULL && item != NULL && replacement != NULL && replacement != item ==>
               x.addr == replacement && Attachable(mem.blocks, a, x)
    modifies mem
    ensures mem.Valid() && mem.oom == old(mem.oom)
    ensures ok == (parent != NULL && item != NULL && replacement != NULL)
    ensures !ok || replacement == item ==> mem.blocks == old(mem.blocks)
    ensures ok && replacement != item ==>
              EditedTo(old(mem.blocks), mem.blocks, a, a.kids[index := x])
              && SameBeyond(old(mem.blocks), mem.blocks, Nodes(a, a.kids) + {replacement} + ItemAddrs(a.kids[index]))
              && mem.blocks.Keys == old(mem.blocks.Keys) - ItemAddrs(a.kids[index])
  {
    if parent == NULL {
      return false;
    }
    Prepared(mem.blocks, a);
    if item != NULL {
      NeighboursAt(mem.blocks, a.kids, index);
    }
    if mem.blocks[parent].child == NULL || replacement == NULL || item == NULL {
      return false;
    }
    if replacement == item {
      return true;
    }
    ReplaceAndDelete(mem, parent, item, replacement, a, index, x);
    ok := true;
  }

  method ReplaceAndDelete(mem: Memory, parent: Ptr, item: Ptr, replacement: Ptr,
                          ghost a: Item, ghost index: nat, ghost x: Item)
    requires mem.Valid() && a.addr == parent && index < |a.kids| && a.kids[index].addr == item
    requires x.addr == replacement && Attachable(mem.blocks, a, x)
    modifies mem
    ensures mem.Valid() && mem.oom == old(mem.oom)
    ensures EditedTo(old(mem.blocks), mem.blocks, a, a.kids[index := x])
    ensures SameBeyond(old(mem.blocks), mem.blocks, Nodes(a, a.kids) + {replacement} + ItemAddrs(a.kids[index]))
    ensures mem.blocks.Keys == old(mem.blocks.Keys) - ItemAddrs(a.kids[index])
  {
    hide InnerAt, ItemSep, InnerAddrs, ItemAddrs, ListAddrs, ReplacedLinks;
    Prepared(mem.blocks, a);
    PreparedItem(mem.blocks, a, x);
    ReplaceLinks(mem, parent, item, replacement, a, index, x);
    ReplaceDone(old(mem.blocks), mem.blocks, a, index, x);
    ghost var linked := mem.blocks;
    Lists.PresentIsFinished(mem.blocks, a.kids[index]);
    Lists.DeleteItem(mem, item, a.kids[index], Tail(a.kids[index].kids));
    SurvivesDelete(old(mem.blocks), linked, mem.blocks, a, a.kids[index := x], a.kids[index]);
  }

  method ReplaceLinks(mem: Memory, parent: Ptr, item: Ptr, replacement: Ptr,
                      ghost a: Item, ghost index: nat, ghost x: Item)
    requires mem.Valid() && parent == a.addr && index < |a.kids| && item == a.kids[index].addr
    requires replacement == x.addr && NodeOf(mem.blocks, a) && NodeOf(mem.blocks, x)
    requires Linked(mem.blocks, a.kids) && Distinct(a, a.kids) && Outside(a, a.kids, x)
    modifies mem
    ensures mem.Valid() && mem.oom == old(mem.oom)
    ensures ReplacedLinks(old(mem.blocks), mem.blocks, a, index, x)
  {
    NeighboursAt(mem.blocks, a.kids, index);
    if mem.blocks[parent].child == item {
      ReplaceHead(mem, parent, item, replacement, a, x);
    } else {
      ReplaceLater(mem, parent, item, replacement, a, index, x);
    }
  }

  /** The replacement takes over the item's links, and the next item points back at it. */
  method TakeOver(mem: Memory, item: Ptr, replacement: Ptr) returns (after: Ptr)
    requires mem.Valid() && item in mem.blocks && mem.blocks[item].Node?
    requires replacement in mem.blocks && mem.blocks[replacement].Node? && replacement != item
    requires var next := mem.blocks[item].next;
             next != NULL ==> next in mem.blocks && mem.blocks[next].Node? && next != replacement && next != item
    modifies mem
    ensures mem.Valid() && mem.oom == old(mem.oom) && after == old(mem.blocks)[item].next
    ensures var h := old(mem.blocks);
            var taken := h[replacement := h[replacement].(next := h[item].next, prev := h[item].prev)];
            mem.blocks == if after == NULL then taken else taken[after := h[after].(prev := replacement)]
  {
    mem.SetNode(replacement, mem.blocks[replacement].(next := mem.blocks[item].next, prev := mem.blocks[item].prev));
    after := mem.blocks[replacement].next;
    if after != NULL {
      mem.SetNode(after, mem.blocks[after].(prev := replacement));
    }
  }

  method ReplaceHead(mem: Memory, parent: Ptr, item: Ptr, replacement: Ptr, ghost a: Item, ghost x: Item)
    requires mem.Valid() && parent == a.addr && a.kids != [] && item == a.kids[0].addr
    requires replacement == x.addr && NodeOf(mem.blocks, a) && NodeOf(mem.blocks, x)
    requires Linked(mem.blocks, a.kids) && Distinct(a, a.kids) && Outside(a, a.kids, x)
    modifies mem
    ensures mem.Valid() && mem.oom == old(mem.oom)
    ensures ReplacedLinks(old(mem.blocks), mem.blocks, a, 0, x)
  {
    NeighboursAt(mem.blocks, a.kids, 0);
    var after := TakeOver(mem, item, replacement);
    if mem.blocks[item].prev == item {
      mem.SetNode(replacement, mem.blocks[replacement].(prev := replacement));
    }
    mem.SetNode(parent, mem.blocks[parent].(child := replacement));
    Unlink(mem, item);
  }

  method ReplaceLater(mem: Memory, parent: Ptr, item: Ptr, replacement: Ptr,
                      ghost a: Item, ghost index: nat, ghost x: Item)
    requires mem.Valid() && parent == a.addr && 0 < index < |a.kids| && item == a.kids[index].addr
    requires replacement == x.addr && NodeOf(mem.blocks, a) && NodeOf(mem.blocks, x)
    requires Linked(mem.blocks, a.kids) && Distinct(a, a.kids) && Outside(a, a.kids, x)
    modifies mem
    ensures mem.Valid() && mem.oom == old(mem.oom)
    ensures ReplacedLinks(old(mem.blocks), mem.blocks, a, index, x)
  {
    NeighboursAt(mem.blocks, a.kids, index);
    var after := TakeOver(mem, item, replacement);
    var before := mem.blocks[replacement].prev;
    if before != NULL {
      mem.SetNode(before, mem.blocks[before].(next := replacement));
    }
    if after == NULL {
      var child := mem.blocks[parent].child;
      mem.SetNode(child, mem.blocks[child].(prev := replacement));
    }
    Unlink(mem, item);
  }

  method Unlink(mem: Memory, item: Ptr)
    requires mem.Valid() && item in mem.blocks && mem.blocks[item].Node?
    modifies mem
    ensures mem.Valid() && mem.oom == old(mem.oom)
    ensures mem.blocks == old(mem.blocks)[item := old(mem.blocks)[item].(next := NULL, prev := NULL)]
  {
    mem.SetNode(item, mem.blocks[item].(next := NULL));
    mem.SetNode(item, mem.blocks[item].(prev := NULL));
  }

  ghost predicate ReplacedLinks(h: Heap, h': Heap, a: Item, i: nat, x: Item)
    requires i < |a.kids|
  {
    var xs := a.kids; var n := |xs|;
    && SameBeyond(h, h', RemovalNodes(a, i) + {x.addr}) && h'.Keys == h.Keys
    && Adopted(h, h', a.addr, if i == 0 then x.addr else xs[0].addr)
    && Moved(h, h', x.addr, NextOf(xs, i), if n == 1 then x.addr else PrevOf(xs, i, Tail(xs)))
    && Moved(h, h', xs[i].addr, NULL, NULL)
    && (i > 0 ==> Moved(h, h', xs[i - 1].addr, x.addr,
                        if 1 == i == n - 1 then x.addr else PrevOf(xs, i - 1, Tail(xs))))
    && (i + 1 < n ==> Moved(h, h', xs[i + 1].addr, NextOf(xs, i + 1), x.addr))
    && (i > 1 ==> Moved(h, h', xs[0].addr, xs[1].addr, if i == n - 1 then x.addr else Tail(xs)))
  }

  lemma ReplaceSpells(h: Heap, h': Heap, a: Item, index: nat, x: Item)
    requires NodeOf(h, a) && NodeOf(h, x) && Linked(h, a.kids) && index < |a.kids|
    requires Distinct(a, a.kids) && Outside(a, a.kids, x) && ReplacedLinks(h, h', a, index, x)
    ensures LinksSpell(h', a, a.kids[index := x])
  {
    var ys := a.kids[index := x];
    forall i | 0 <= i < |ys| ensures LinkAt(h', ys, i) {
      ReplaceSpell(h, h', a, index, x, i);
    }
  }

  lemma ReplaceSpell(h: Heap, h': Heap, a: Item, index: nat, x: Item, i: nat)
    requires NodeOf(h, x) && Linked(h, a.kids) && index < |a.kids| && i < |a.kids|
    requires Distinct(a, a.kids) && Outside(a, a.kids, x) && ReplacedLinks(h, h', a, index, x)
    ensures LinkAt(h', a.kids[index := x], i)
  {
    var xs := a.kids;
    assert LinkAt(h, xs, i) && xs[i] in xs;
    if i == index || i == index + 1 || i + 1 == index {
    } else if i == 0 {
      assert index > 1;
    } else {
      assert xs[i].addr !in RemovalNodes(a, index) + {x.addr};
    }
  }

  lemma Replaced(a: Item, index: nat, x: Item)
    requires ItemSep(a) && ItemSep(x) && ItemAddrs(a) !! ItemAddrs(x) && index < |a.kids|
    ensures var b := WithKids(a, a.kids[index := x]);
            ItemSep(b) && ItemSep(a.kids[index]) && ItemAddrs(a.kids[index]) !! ItemAddrs(b)
            && ItemAddrs(b) + ItemAddrs(a.kids[index]) == ItemAddrs(a) + ItemAddrs(x)
    ensures ItemSep(WithKids(a, a.kids + [x]))
  {
    var c := WithKids(a, a.kids[..index] + a.kids[index + 1..]);
    Removed(a, index);
    Inserted(c, x, index);
    assert c.kids[..index] + [x] + c.kids[index..] == a.kids[index := x];
    AddrsConcat(c.kids[..index], c.kids[index..]);
    assert c.kids[..index] + c.kids[index..] == c.kids;
    AddrsConcat(c.kids[..index] + [x], c.kids[index..]);
    AddrsConcat(c.kids[..index], [x]);
    Addrs1(x);
    Appended(a, x);
  }

  lemma ReplaceDone(h: Heap, h': Heap, a: Item, i: nat, x: Item)
    requires Attachable(h, a, x) && i < |a.kids| && ReplacedLinks(h, h', a, i, x)
    ensures EditedTo(h, h', a, a.kids[i := x])
    ensures Present(h', a.kids[i]) && h'[a.kids[i].addr].next == NULL && ItemSep(a.kids[i])
    ensures ItemAddrs(a.kids[i]) !! ItemAddrs(WithKids(a, a.kids[i := x]))
    ensures SameBeyond(h, h', Nodes(a, a.kids) + {x.addr}) && h'.Keys == h.Keys
  {
    hide InnerAt, ItemSep, ItemAddrs, InnerAddrs, ListAddrs, Linked, Distinct, Outside;
    var xs, zs, ys := a.kids, a.kids + [x], a.kids[i := x];
    Prepared(h, a);
    PreparedItem(h, a, x);
    Replaced(a, i, x);
    ReplaceSpells(h, h', a, i, x);
    KidsOf(h, a);
    RemovalNodesIn(a, i);
    AppendedMembers(xs, x);
    assert forall y :: y in ys ==> y in zs;
    Edited(h, h', a, zs, ys, RemovalNodes(a, i) + {x.addr}, if i == 0 then x.addr else xs[0].addr);
    ReplacedNode(h, h', a, i, x);
  }

  lemma ReplacedNode(h: Heap, h': Heap, a: Item, i: nat, x: Item)
    requires i < |a.kids| && Linked(h, a.kids) && ReplacedLinks(h, h', a, i, x)
    requires forall z :: z in a.kids + [x] ==> InnerAt(h', z)
    ensures ItemAt(h', a.kids[i], NULL, NULL)
  {
    assert LinkAt(h, a.kids, i) && a.kids[i] in a.kids + [x];
  }

  lemma SurvivesDelete(h: Heap, h': Heap, h'': Heap, a: Item, ys: seq<Item>, x: Item)
    requires EditedTo(h, h', a, ys) && ItemAddrs(x) !! ItemAddrs(WithKids(a, ys)) && h'' == h' - ItemAddrs(x)
    ensures EditedTo(h, h'', a, ys)
  {
    var b := WithKids(a, ys);
    assert b.addr in ItemAddrs(b);
    ItemFrame(h', h'', b, h'[b.addr].next, h'[b.addr].prev);
  }

  // ---- looking up members ----

  /** The first child that has the name or no name at all. */
  function KeyIndex(xs: seq<Item>, name: CStr): (i: nat)
    ensures i <= |xs|
    ensures forall j :: 0 <= j < i ==> xs[j].key.Text? && xs[j].key.s != name
    ensures i < |xs| ==> xs[i].key.Nothing? || xs[i].key.s == name
  {
    if xs == [] || xs[0].key.Nothing? || xs[0].key.s == name then 0 else 1 + KeyIndex(xs[1..], name)
  }

  predicate HasKey(xs: seq<Item>, name: CStr) {
    var i := KeyIndex(xs, name); i < |xs| && xs[i].key.Text?
  }

  lemma ChildAt(h: Heap, a: Item, i: nat)
    requires Present(h, a) && i < |a.kids|
    ensures LinkAt(h, a.kids, i) && InnerAt(h, a.kids[i])
    ensures OwnedAt(h, a.kids[i].text) && OwnedAt(h, a.kids[i].key)
  {
    KidsOf(h, a);
    assert a.kids[i] in a.kids;
  }

  /** What the search reads at child i. */
  ghost predicate ReadAt(h: Heap, xs: seq<Item>, i: nat)
    requires i < |xs|
  {
    var p, key := xs[i].addr, xs[i].key;
    && p != NULL && p in h && h[p].Node? && h[p].next == Head(xs[i + 1..])
    && (if key.Text? then h[p].key == key.at != NULL && key.at in h && h[key.at] == Str(key.s) else h[p].key == NULL)
  }

  lemma ChildRead(h: Heap, a: Item, i: nat)
    requires Present(h, a) && i < |a.kids|
    ensures ReadAt(h, a.kids, i) && Head(a.kids[i..]) == a.kids[i].addr
  {
    hide ItemAt, InnerAt;
    ChildAt(h, a, i);
  }

  lemma KeyIndexAt(xs: seq<Item>, i: nat, name: CStr)
    requires i < |xs|
    ensures var key := xs[i].key;
            KeyIndex(xs[i..], name) == if key.Nothing? || key.s == name then 0 else 1 + KeyIndex(xs[i + 1..], name)
  {
    assert xs[i..][1..] == xs[i + 1..];
  }

  /** get_object_item, case sensitive; `name` is the address of a C string. */
  method GetObjectItem(mem: Memory, parent: Ptr, name: Ptr, ghost a: Item) returns (p: Ptr)
    requires mem.Valid() && (parent != NULL ==> parent == a.addr && Present(mem.blocks, a))
    requires name != NULL ==> name in mem.blocks && mem.blocks[name].Str?
    ensures p != NULL <==> parent != NULL && name != NULL && HasKey(a.kids, mem.blocks[name].s)
    ensures p != NULL ==> p == a.kids[KeyIndex(a.kids, mem.blocks[name].s)].addr
  {
    if parent == NULL || name == NULL {
      return NULL;
    }
    KidsOf(mem.blocks, a);
    hide KeyIndex, Present;
    var wanted := mem.blocks[name].s;
    p := mem.blocks[parent].child;
    ghost var i := 0;
    if a.kids != [] {
      ChildRead(mem.blocks, a, 0);
    }
    assert a.kids[0..] == a.kids;
    while p != NULL && mem.blocks[p].key != NULL && wanted != mem.blocks[mem.blocks[p].key].s
      invariant 0 <= i <= |a.kids|
      invariant p == Head(a.kids[i..]) && (p == NULL <==> i == |a.kids|)
      invariant i < |a.kids| ==> p == a.kids[i].addr && ReadAt(mem.blocks, a.kids, i)
      invariant KeyIndex(a.kids, wanted) == i + KeyIndex(a.kids[i..], wanted)
      decreases |a.kids| - i
    {
      KeyIndexAt(a.kids, i, wanted);
      if i + 1 < |a.kids| {
        ChildRead(mem.blocks, a, i + 1);
      }
      p := mem.blocks[p].next;
      i := i + 1;
    }
    if i < |a.kids| {
      KeyIndexAt(a.kids, i, wanted);
    }
    if p == NULL || mem.blocks[p].key == NULL {
      return NULL;
    }
  }

  // ---- bookkeeping ----

  /** After an edit: a is there with children ys, its own links as they were, nothing shared. */
  ghost predicate EditedTo(h: Heap, h': Heap, a: Item, ys: seq<Item>) {
    Present(h', WithKids(a, ys)) && ItemSep(WithKids(a, ys)) && SameLinks(h, h', a.addr)
  }

  /** What the surgeries need to know before they start. */
  lemma Prepared(h: Heap, a: Item)
    requires Present(h, a) && ItemSep(a)
    ensures NodeOf(h, a) && Linked(h, a.kids) && Distinct(a, a.kids)
  {
    KidsOf(h, a);
    assert WithKids(a, a.kids) == a;
    NodesApart(a, a.kids);
  }

  lemma PreparedItem(h: Heap, a: Item, x: Item)
    requires Attachable(h, a, x)
    ensures NodeOf(h, x) && InnerAt(h, x) && Outside(a, a.kids, x)
  {
    forall i | 0 <= i < |a.kids| ensures a.kids[i].addr != x.addr {
      MemberAddrs(a.kids, i);
    }
  }

  /** The links are right and nothing else moved: the edit is done. */
  lemma Edited(h: Heap, h': Heap, a: Item, zs: seq<Item>, ys: seq<Item>, touched: set<Ptr>, child: Ptr)
    requires Present(h, a) && ItemSep(WithKids(a, zs)) && ItemSep(WithKids(a, ys))
    requires (forall y :: y in ys ==> y in zs) && forall z :: z in zs ==> InnerAt(h, z)
    requires SameBeyond(h, h', touched) && touched <= Nodes(a, zs)
    requires LinksSpell(h', a, ys) && Adopted(h, h', a.addr, child)
    ensures EditedTo(h, h', a, ys)
    ensures SameBeyond(h, h', Nodes(a, zs))
    ensures forall z :: z in zs ==> InnerAt(h', z)
  {
    hide ItemSep, InnerAt;
    KidsOf(h, a);
    Relinked(h, h', a, zs, ys);
  }

  lemma NodesIn(a: Item, zs: seq<Item>)
    ensures a.addr in Nodes(a, zs) && forall z :: z in zs ==> z.addr in Nodes(a, zs)
  {
  }

  lemma AppendedMembers(xs: seq<Item>, x: Item)
    ensures forall z :: z in xs + [x] <==> z in xs || z == x
    ensures NodeAddrs(xs + [x]) == NodeAddrs(xs) + {x.addr}
  {
  }

  lemma InsertedMembers(xs: seq<Item>, x: Item, at: nat)
    requires at <= |xs|
    ensures var ys := xs[..at] + [x] + xs[at..];
            (forall z :: z in ys <==> z in xs || z == x) && NodeAddrs(ys) == NodeAddrs(xs) + {x.addr}
  {
    var ys := xs[..at] + [x] + xs[at..];
    assert xs == xs[..at] + xs[at..];
    assert ys[at] == x;
    assert forall z :: z in ys <==> z in xs || z == x;
  }

  /** The nodes an edit at position i may touch, with their links. */
  lemma NeighboursAt(h: Heap, xs: seq<Item>, i: nat)
    requires Linked(h, xs) && i < |xs|
    ensures LinkAt(h, xs, i) && LinkAt(h, xs, 0) && LinkAt(h, xs, |xs| - 1)
    ensures i > 0 ==> LinkAt(h, xs, i - 1)
    ensures i + 1 < |xs| ==> LinkAt(h, xs, i + 1)
    ensures xs[i] in xs && xs[0] in xs && xs[|xs| - 1] in xs
    ensures i > 0 ==> xs[i - 1] in xs
    ensures i + 1 < |xs| ==> xs[i + 1] in xs
  {
  }
}
