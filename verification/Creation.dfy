/** Building an array of numbers item by item. */
module Creation {
  import opened JsonTree
  import opened Memory
  import opened Items
  import opened ListEdits
  import opened Parser
  import opened Duplication
  import Numbers

  function NumbersOf(ns: seq<int>): seq<Json> {
    seq(|ns|, i requires 0 <= i < |ns| => Number(ns[i] as real))
  }

  method CreateNumber(mem: Memory, num: real) returns (p: Ptr, ghost x: Item)
    requires mem.Valid() && !mem.oom
    modifies mem
    ensures mem.Valid() && (p == NULL <==> mem.oom)
    ensures p == NULL ==> mem.blocks == old(mem.blocks)
    ensures p != NULL ==> p == x.addr && BuiltOn(old(mem.blocks), mem.blocks, x) && Holds(x, Number(num))
  {
    var valueint := Numbers.ToInt(num);
    p := mem.NewItem();
    x := Item(p, NumberKind, valueint, num, Nothing, Nothing, []);
    if p != NULL {
      mem.SetNode(p, mem.blocks[p].(kind := NumberKind, valuedouble := num, valueint := valueint));
      LeafBuilt(old(mem.blocks), mem.blocks, x);
    }
  }

  lemma LeafBuilt(h: Heap, h': Heap, x: Item)
    requires NULL !in h && x.addr != NULL && x.addr !in h && x.kids == [] && x.text == Nothing && x.key == Nothing
    requires h' == h[x.addr := Node(NULL, NULL, NULL, x.kind, NULL, x.valueint, x.valuedouble, NULL)]
    ensures BuiltOn(h, h', x) && Growing(h, h', x)
  {
    assert ListAddrs(x.kids) == {};
    assert ListAt(h', x.kids, Tail(x.kids));
    assert InnerAt(h', x);
  }

  /** The array so far: its node, and a child list open at the front with the numbers in it. */
  ghost predicate Collecting(h0: Heap, h: Heap, x: Item, ns: seq<int>) {
    && Growing(h0, h, x) && x == Item(x.addr, ArrayKind, 0, 0.0, Nothing, Nothing, x.kids)
    && AllTyped(x.kids) && Values(x.kids) == NumbersOf(ns)
  }

  /** One turn: the next number behind the last, or nothing left. */
  method AddNumber(mem: Memory, a: Ptr, last: Ptr, number: int, ghost h0: Heap, ghost x: Item, ghost ns: seq<int>)
    returns (n: Ptr, ghost x': Item)
    requires mem.Valid() && !mem.oom && a == x.addr && last == Tail(x.kids) && Collecting(h0, mem.blocks, x, ns)
    modifies mem
    ensures mem.Valid() && (n == NULL <==> mem.oom)
    ensures n == NULL ==> mem.blocks == h0
    ensures n != NULL ==> a == x'.addr && n == Tail(x'.kids) && Collecting(h0, mem.blocks, x', ns + [number])
  {
    hide Growing, BuiltOn;
    ghost var h := mem.blocks;
    ghost var z;
    n, z := CreateNumber(mem, number as real);
    x' := x;
    if n == NULL {
      Fail(mem, a, h0, x);
      return;
    }
    LinkCopy(mem, a, last, n, h0, h, x, z);
    ValuesAppend(x.kids, z);
    x' := WithKids(x, x.kids + [z]);
  }

  /** cJSON_CreateIntArray, from the first `count` of the numbers. */
  method CreateIntArray(mem: Memory, numbers: seq<int>, count: int) returns (a: Ptr, ghost x: Item)
    requires mem.Valid() && !mem.oom && count <= |numbers|
    modifies mem
    ensures mem.Valid() && (a == NULL <==> count < 0 || mem.oom)
    ensures a == NULL ==> mem.blocks == old(mem.blocks)
    ensures a != NULL ==> a == x.addr && BuiltOn(old(mem.blocks), mem.blocks, x)
                          && Holds(x, Array(NumbersOf(numbers[..count])))
  {
    ghost var h0 := mem.blocks;
    x := Bare(NULL);
    if count < 0 {
      return NULL, x;
    }
    a := mem.NewItem();
    if a == NULL {
      return;
    }
    mem.SetNode(a, mem.blocks[a].(kind := ArrayKind));
    x := Item(a, ArrayKind, 0, 0.0, Nothing, Nothing, []);
    LeafBuilt(h0, mem.blocks, x);
    var p, i := NULL, 0;
    assert numbers[..0] == [] && NumbersOf([]) == [];
    hide Collecting, BuiltOn, Growing, Holds;
    while i < count
      invariant 0 <= i <= count && mem.Valid() && !mem.oom
      invariant a != NULL && a == x.addr && p == Tail(x.kids) && Collecting(h0, mem.blocks, x, numbers[..i])
    {
      var n;
      n, x := AddNumber(mem, a, p, numbers[i], h0, x, numbers[..i]);
      if n == NULL {
        return NULL, x;
      }
      assert numbers[..i + 1] == numbers[..i] + [numbers[i]];
      p := n;
      i := i + 1;
    }
    Collected(h0, mem.blocks, x, numbers[..count]);
    Close(mem, a, p, h0, x);
  }

  lemma Collected(h0: Heap, h: Heap, x: Item, ns: seq<int>)
    requires Collecting(h0, h, x, ns)
    ensures Growing(h0, h, x) && Holds(x, Array(NumbersOf(ns)))
  {
  }
}
