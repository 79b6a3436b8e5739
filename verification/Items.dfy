/** The shape of a cJSON structure in the heap. */
module Items {
  import opened Bytes
  import opened JsonTree
  import opened Memory

  // An `Item` is a node together with everything it owns, each part tagged with its address, so its
  // footprint does not depend on the heap.

  datatype Owned = Nothing | Text(at: Ptr, s: CStr)

  datatype Item = Item(addr: Ptr, kind: Kind, valueint: int, valuedouble: real, text: Owned, key: Owned,
                       kids: seq<Item>)

  function PtrOf(t: Owned): Ptr {
    if t.Text? then t.at else NULL
  }

  function OwnedAddrs(t: Owned): set<Ptr> {
    if t.Text? then {t.at} else {}
  }

  // ---- footprints ----

  function InnerAddrs(x: Item): set<Ptr>
    decreases x, 1
  {
    OwnedAddrs(x.text) + OwnedAddrs(x.key) + ListAddrs(x.kids)
  }

  function ItemAddrs(x: Item): set<Ptr>
    decreases x, 2
  {
    {x.addr} + InnerAddrs(x)
  }

  function ListAddrs(xs: seq<Item>): set<Ptr>
    decreases xs, 0
  {
    if xs == [] then {} else ItemAddrs(xs[0]) + ListAddrs(xs[1..])
  }

  /** No two parts of the structure share a block. */
  predicate ItemSep(x: Item)
    decreases x, 1
  {
    && x.addr !in InnerAddrs(x)
    && OwnedAddrs(x.text) !! OwnedAddrs(x.key)
    && OwnedAddrs(x.text) + OwnedAddrs(x.key) !! ListAddrs(x.kids)
    && ListSep(x.kids)
  }

  predicate ListSep(xs: seq<Item>)
    decreases xs, 0
  {
    xs == [] || (ItemSep(xs[0]) && ItemAddrs(xs[0]) !! ListAddrs(xs[1..]) && ListSep(xs[1..]))
  }

  lemma {:induction false} AddrsConcat(xs: seq<Item>, ys: seq<Item>)
    ensures ListAddrs(xs + ys) == ListAddrs(xs) + ListAddrs(ys)
  {
    if xs == [] {
      assert xs + ys == ys;
    } else {
      assert (xs + ys)[1..] == xs[1..] + ys;
      AddrsConcat(xs[1..], ys);
    }
  }

  lemma {:induction false} SepConcat(xs: seq<Item>, ys: seq<Item>)
    ensures ListSep(xs + ys) <==> ListSep(xs) && ListSep(ys) && ListAddrs(xs) !! ListAddrs(ys)
  {
    if xs == [] {
      assert xs + ys == ys;
    } else {
      assert (xs + ys)[1..] == xs[1..] + ys;
      SepConcat(xs[1..], ys);
      AddrsConcat(xs[1..], ys);
    }
  }

  lemma {:induction false} MemberAddrs(xs: seq<Item>, i: nat)
    requires i < |xs|
    ensures ItemAddrs(xs[i]) <= ListAddrs(xs)
    ensures xs[i].addr in ListAddrs(xs)
    ensures ListSep(xs) ==> ItemSep(xs[i])
  {
    if i > 0 {
      MemberAddrs(xs[1..], i - 1);
    }
  }

  lemma {:induction false} MembersApart(xs: seq<Item>, i: nat, j: nat)
    requires ListSep(xs) && i < j < |xs|
    ensures ItemAddrs(xs[i]) !! ItemAddrs(xs[j])
    ensures xs[i].addr != xs[j].addr
  {
    if i == 0 {
      MemberAddrs(xs[1..], j - 1);
    } else {
      MembersApart(xs[1..], i - 1, j - 1);
    }
  }

  lemma Addrs1(x: Item)
    ensures ListAddrs([x]) == ItemAddrs(x)
    ensures ListSep([x]) <==> ItemSep(x)
  {
    assert [x][1..] == [];
  }

  // ---- presence in the heap ----

  ghost predicate OwnedAt(h: Heap, t: Owned) {
    t.Text? ==> t.at != NULL && t.at in h && h[t.at] == Str(t.s)
  }

  function Head(xs: seq<Item>): Ptr {
    if xs == [] then NULL else xs[0].addr
  }

  function Tail(xs: seq<Item>): Ptr {
    if xs == [] then NULL else xs[|xs| - 1].addr
  }

  function NextOf(xs: seq<Item>, i: nat): Ptr
    requires i < |xs|
  {
    if i + 1 < |xs| then xs[i + 1].addr else NULL
  }

  /** The prev link of element i; `first` is the head's. */
  function PrevOf(xs: seq<Item>, i: nat, first: Ptr): Ptr
    requires i < |xs|
  {
    if i > 0 then xs[i - 1].addr else first
  }

  /** The block of x's own node. */
  ghost predicate NodeAt(h: Heap, x: Item, next: Ptr, prev: Ptr) {
    && x.addr != NULL && x.addr in h
    && h[x.addr] == Node(next, prev, Head(x.kids), x.kind, PtrOf(x.text), x.valueint, x.valuedouble, PtrOf(x.key))
  }

  /** Everything x owns besides its node: its strings and its children. A finished child list
      is circular backwards: the head's prev is the tail. */
  ghost predicate InnerAt(h: Heap, x: Item)
    decreases x, 1
  {
    OwnedAt(h, x.text) && OwnedAt(h, x.key) && ListAt(h, x.kids, Tail(x.kids))
  }

  ghost predicate ItemAt(h: Heap, x: Item, next: Ptr, prev: Ptr)
    decreases x, 2
  {
    NodeAt(h, x, next, prev) && InnerAt(h, x)
  }

  /** Element i of a list, linked to its neighbours. */
  ghost predicate KidAt(h: Heap, xs: seq<Item>, i: nat, first: Ptr)
    requires i < |xs|
    decreases xs, 0
  {
    ItemAt(h, xs[i], NextOf(xs, i), PrevOf(xs, i, first))
  }

  /** The items of xs are linked in order: next and prev are inverse, the last next is NULL,
      and the head's prev is `first`. */
  ghost predicate ListAt(h: Heap, xs: seq<Item>, first: Ptr)
    decreases xs, 1
  {
    forall i :: 0 <= i < |xs| ==> KidAt(h, xs, i, first)
  }

  /** x is in the heap, whatever its own links are. */
  ghost predicate Present(h: Heap, x: Item) {
    && x.addr in h && h[x.addr].Node?
    && ItemAt(h, x, h[x.addr].next, h[x.addr].prev)
  }

  /** Outside s nothing was touched. */
  ghost predicate SameBeyond(h: Heap, h': Heap, s: set<Ptr>) {
    && (forall p :: p in h && p !in s ==> p in h' && h'[p] == h[p])
    && (forall p :: p in h' && p !in s ==> p in h)
  }

  lemma KidParts(h: Heap, xs: seq<Item>, i: nat, first: Ptr)
    requires i < |xs| && KidAt(h, xs, i, first)
    ensures ItemAt(h, xs[i], NextOf(xs, i), PrevOf(xs, i, first))
    ensures NodeAt(h, xs[i], NextOf(xs, i), PrevOf(xs, i, first)) && InnerAt(h, xs[i])
  {
    assert ItemAt(h, xs[i], NextOf(xs, i), PrevOf(xs, i, first));
  }

  ghost predicate Agree(h: Heap, h': Heap, s: set<Ptr>) {
    forall p :: p in s && p in h ==> p in h' && h'[p] == h[p]
  }

  lemma {:induction false} InnerFrame(h: Heap, h': Heap, x: Item)
    requires InnerAt(h, x) && Agree(h, h', InnerAddrs(x))
    ensures InnerAt(h', x)
    decreases x, 1
  {
    ListFrame(h, h', x.kids, Tail(x.kids));
  }

  lemma ItemFrame(h: Heap, h': Heap, x: Item, next: Ptr, prev: Ptr)
    requires ItemAt(h, x, next, prev) && Agree(h, h', ItemAddrs(x))
    ensures ItemAt(h', x, next, prev)
    decreases x, 2
  {
    InnerFrame(h, h', x);
    assert x.addr in ItemAddrs(x);
  }

  lemma {:induction false} ListFrame(h: Heap, h': Heap, xs: seq<Item>, first: Ptr)
    requires ListAt(h, xs, first) && Agree(h, h', ListAddrs(xs))
    ensures ListAt(h', xs, first)
    decreases xs, 0
  {
    forall i | 0 <= i < |xs|
      ensures KidAt(h', xs, i, first)
    {
      assert KidAt(h, xs, i, first);
      MemberAddrs(xs, i);
      ItemFrame(h, h', xs[i], NextOf(xs, i), PrevOf(xs, i, first));
    }
  }

  lemma {:induction false} InnerIn(h: Heap, x: Item)
    requires InnerAt(h, x)
    ensures InnerAddrs(x) <= h.Keys
    decreases x, 1
  {
    ListIn(h, x.kids, Tail(x.kids));
  }

  lemma {:induction false} ListIn(h: Heap, xs: seq<Item>, first: Ptr)
    requires ListAt(h, xs, first)
    ensures ListAddrs(xs) <= h.Keys
    decreases xs, 0
  {
    if xs != [] {
      KidParts(h, xs, 0, first);
      InnerIn(h, xs[0]);
      ListAtTail(h, xs, first);
      ListIn(h, xs[1..], xs[0].addr);
    }
  }

  lemma ListAtTail(h: Heap, xs: seq<Item>, first: Ptr)
    requires xs != [] && ListAt(h, xs, first)
    ensures ListAt(h, xs[1..], xs[0].addr)
  {
    var ys := xs[1..];
    forall i | 0 <= i < |ys|
      ensures KidAt(h, ys, i, xs[0].addr)
    {
      assert KidAt(h, xs, i + 1, first);
    }
  }

  lemma HeadNull(h: Heap, xs: seq<Item>, first: Ptr)
    requires ListAt(h, xs, first)
    ensures Head(xs) == NULL <==> xs == []
  {
    if xs != [] {
      KidParts(h, xs, 0, first);
    }
  }

  // ---- the value an item holds ----

  function Value(x: Item): Json
    decreases x, 1
  {
    match x.kind
    case FalseKind => False
    case TrueKind => True
    case NumberKind => Number(x.valuedouble)
    case StringKind => String(if x.text.Text? then x.text.s else [])
    case ArrayKind => Array(Values(x.kids))
    case ObjectKind => Object(Members(x.kids))
    case _ => Null
  }

  function Values(xs: seq<Item>): (r: seq<Json>)
    ensures |r| == |xs|
    decreases xs, 0
  {
    if xs == [] then [] else [Value(xs[0])] + Values(xs[1..])
  }

  function KeyOf(x: Item): CStr {
    if x.key.Text? then x.key.s else []
  }

  function Members(xs: seq<Item>): (r: seq<Member>)
    ensures |r| == |xs|
    decreases xs, 0
  {
    if xs == [] then [] else [Member(KeyOf(xs[0]), Value(xs[0]))] + Members(xs[1..])
  }

  /** The fields in use are the ones the kind calls for: strings have text, members have keys,
      valueint is the truncated valuedouble. What the parser and the Create functions build. */
  predicate Typed(x: Item)
    decreases x, 1
  {
    && x.kind != InvalidKind
    && (x.kind == StringKind <==> x.text.Text?)
    && (x.kind == NumberKind ==> IsInt(x.valuedouble) ==> x.valueint == x.valuedouble.Floor)
    && (x.kind != ArrayKind && x.kind != ObjectKind ==> x.kids == [])
    && (x.kind == ObjectKind ==> AllKeyed(x.kids))
    && AllTyped(x.kids)
  }

  predicate AllTyped(xs: seq<Item>)
    decreases xs, 0
  {
    xs == [] || (Typed(xs[0]) && AllTyped(xs[1..]))
  }

  predicate AllKeyed(xs: seq<Item>) {
    forall i :: 0 <= i < |xs| ==> xs[i].key.Text?
  }

  lemma {:induction false} ValuesAppend(xs: seq<Item>, x: Item)
    ensures Values(xs + [x]) == Values(xs) + [Value(x)]
    ensures Members(xs + [x]) == Members(xs) + [Member(KeyOf(x), Value(x))]
    ensures AllTyped(xs + [x]) <==> AllTyped(xs) && Typed(x)
  {
    if xs == [] {
      assert xs + [x] == [x] && [x][1..] == [];
    } else {
      assert (xs + [x])[1..] == xs[1..] + [x];
      ValuesAppend(xs[1..], x);
    }
  }

  lemma {:induction false} ValuesAt(xs: seq<Item>, i: nat)
    requires i < |xs|
    ensures Values(xs)[i] == Value(xs[i])
    ensures Members(xs)[i] == Member(KeyOf(xs[i]), Value(xs[i]))
    ensures AllTyped(xs) ==> Typed(xs[i])
  {
    if i > 0 {
      ValuesAt(xs[1..], i - 1);
    }
  }
}
