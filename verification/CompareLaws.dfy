/** What cJSON_Compare means: equality with objects as maps. */
module CompareLaws {
  import opened Bytes
  import opened JsonTree
  import opened Memory
  import opened Items
  import opened ListEdits
  import opened Duplication
  import opened Comparison
  import opened Parser

  /** A value with its objects read as maps, the first member of a name counting. */
  datatype Meaning =
    | NullMeaning | FalseMeaning | TrueMeaning
    | NumberMeaning(d: real)
    | StringMeaning(s: CStr)
    | ArrayMeaning(items: seq<Meaning>)
    | ObjectMeaning(members: map<CStr, Meaning>)

  function MeaningOf(t: Json): Meaning
    decreases t, 1
  {
    match t
    case Null => NullMeaning
    case False => FalseMeaning
    case True => TrueMeaning
    case Number(d) => NumberMeaning(d)
    case String(s) => StringMeaning(s)
    case Array(items) => ArrayMeaning(ItemsMeaning(items))
    case Object(members) => ObjectMeaning(MembersMeaning(members))
  }

  function ItemsMeaning(ts: seq<Json>): (r: seq<Meaning>)
    ensures |r| == |ts|
    decreases ts, 0
  {
    if ts == [] then [] else [MeaningOf(ts[0])] + ItemsMeaning(ts[1..])
  }

  function MembersMeaning(ms: seq<Member>): map<CStr, Meaning>
    decreases ms, 0
  {
    if ms == [] then map[] else MembersMeaning(ms[1..])[ms[0].key := MeaningOf(ms[0].value)]
  }

  /** Wherever an object repeats a name, the values mean the same. */
  predicate Uniform(t: Json) {
    match t
    case Array(items) => forall i :: 0 <= i < |items| ==> Uniform(items[i])
    case Object(members) =>
      && (forall i :: 0 <= i < |members| ==> Uniform(members[i].value))
      && (forall i, j :: 0 <= i < |members| && 0 <= j < |members| && members[i].key == members[j].key ==>
            MeaningOf(members[i].value) == MeaningOf(members[j].value))
    case _ => true
  }

  /** No object repeats a name. */
  predicate DistinctKeys(t: Json) {
    match t
    case Array(items) => forall i :: 0 <= i < |items| ==> DistinctKeys(items[i])
    case Object(members) =>
      && (forall i :: 0 <= i < |members| ==> DistinctKeys(members[i].value))
      && (forall i, j :: 0 <= i < j < |members| ==> members[i].key != members[j].key)
    case _ => true
  }

  lemma {:induction false} DistinctKeysAreUniform(t: Json)
    requires DistinctKeys(t)
    ensures Uniform(t)
  {
    match t
    case Array(items) =>
      forall i | 0 <= i < |items| ensures Uniform(items[i]) {
        DistinctKeysAreUniform(items[i]);
      }
    case Object(members) =>
      forall i | 0 <= i < |members| ensures Uniform(members[i].value) {
        DistinctKeysAreUniform(members[i].value);
      }
    case _ =>
  }

  // ---- reading the definitions at a position ----

  lemma {:induction false} ItemsAt(ts: seq<Json>, i: nat)
    requires i < |ts|
    ensures ItemsMeaning(ts)[i] == MeaningOf(ts[i])
    ensures ItemsIntNumbers(ts) ==> IntNumbers(ts[i])
  {
    if i > 0 {
      ItemsAt(ts[1..], i - 1);
    }
  }

  lemma {:induction false} MembersAt(ms: seq<Member>, i: nat)
    requires i < |ms|
    ensures MembersIntNumbers(ms) ==> IntNumbers(ms[i].value)
  {
    if i > 0 {
      MembersAt(ms[1..], i - 1);
    }
  }

  /** A lookup by name finds what the map holds. */
  lemma {:induction false} Lookup(xs: seq<Item>, k: CStr)
    requires AllKeyed(xs)
    ensures var m := MembersMeaning(Members(xs));
            (HasKey(xs, k) <==> k in m) && (k in m ==> m[k] == MeaningOf(Value(xs[KeyIndex(xs, k)])))
  {
    if xs != [] {
      assert Members(xs)[1..] == Members(xs[1..]);
      assert Members(xs)[0] == Member(KeyOf(xs[0]), Value(xs[0]));
      assert xs[0].key.Text?;
      Lookup(xs[1..], k);
    }
  }

  // ---- the heap determines the item ----

  lemma {:induction false} SameNode(h: Heap, x: Item, y: Item)
    requires Present(h, x) && Present(h, y) && x.addr == y.addr
    ensures x == y
    decreases x, 1
  {
    assert InnerAt(h, x) && InnerAt(h, y);
    SameList(h, x.kids, Tail(x.kids), y.kids, Tail(y.kids));
  }

  lemma {:induction false} SameList(h: Heap, xs: seq<Item>, f: Ptr, ys: seq<Item>, g: Ptr)
    requires ListAt(h, xs, f) && ListAt(h, ys, g) && Head(xs) == Head(ys)
    ensures xs == ys
    decreases xs, 0
  {
    HeadNull(h, xs, f);
    HeadNull(h, ys, g);
    if xs != [] {
      KidParts(h, xs, 0, f);
      KidParts(h, ys, 0, g);
      SameNode(h, xs[0], ys[0]);
      ListAtTail(h, xs, f);
      ListAtTail(h, ys, g);
      SameList(h, xs[1..], xs[0].addr, ys[1..], ys[0].addr);
      assert xs == [xs[0]] + xs[1..] && ys == [ys[0]] + ys[1..];
    }
  }

  // ---- items fit for comparing ----

  /** In the heap, well typed, its numbers C ints. */
  ghost predicate Fit(h: Heap, x: Item) {
    Present(h, x) && Typed(x) && IntNumbers(Value(x))
  }

  lemma FitKid(h: Heap, x: Item, i: nat)
    requires Fit(h, x) && i < |x.kids| && (x.kind == ArrayKind || x.kind == ObjectKind)
    ensures Fit(h, x.kids[i]) && Levels(x.kids[i]) < Levels(x)
    ensures x.kind == ArrayKind ==> Value(x).items[i] == Value(x.kids[i])
                                    && ItemsMeaning(Value(x).items)[i] == MeaningOf(Value(x.kids[i]))
    ensures x.kind == ObjectKind ==>
              Value(x).members[i] == Member(x.kids[i].key.s, Value(x.kids[i])) && x.kids[i].key.Text?
  {
    hide Present;
    ChildAt(h, x, i);
    FitChild(h, x, i);
    ValuesAt(x.kids, i);
    KidLevels(x.kids, i);
    if x.kind == ArrayKind {
      ItemsAt(Values(x.kids), i);
    } else {
      MembersAt(Members(x.kids), i);
    }
  }

  lemma FitChild(h: Heap, x: Item, i: nat)
    requires Present(h, x) && i < |x.kids|
    ensures Present(h, x.kids[i])
  {
    ChildAt(h, x, i);
  }

  // ---- comparing equal means the same ----

  lemma {:induction false} ComparedMeansSame(h: Heap, x: Item, y: Item)
    requires Fit(h, x) && Fit(h, y) && Compared(x, y)
    ensures MeaningOf(Value(x)) == MeaningOf(Value(y))
    decreases Levels(x) + Levels(y), 2
  {
    hide Present, Typed, IntNumbers;
    if x.addr == y.addr {
      SameNode(h, x, y);
      return;
    }
    match x.kind
    case NumberKind => Ints(x); Ints(y); IntsCloseTo(x.valuedouble, y.valuedouble);
    case ArrayKind => ArraysMeanSame(h, x, y);
    case ObjectKind => ObjectsMeanSame(h, x, y);
    case _ =>
  }

  lemma {:induction false} ArraysMeanSame(h: Heap, x: Item, y: Item)
    requires Fit(h, x) && Fit(h, y) && x.kind == y.kind == ArrayKind && |x.kids| == |y.kids|
    requires forall i :: 0 <= i < |x.kids| ==> Compared(x.kids[i], y.kids[i])
    ensures MeaningOf(Value(x)) == MeaningOf(Value(y))
    decreases Levels(x) + Levels(y), 1
  {
    hide Present, Typed, IntNumbers, Compared, ItemsMeaning, Values;
    var m, n := ItemsMeaning(Values(x.kids)), ItemsMeaning(Values(y.kids));
    forall i | 0 <= i < |x.kids|
      ensures m[i] == n[i]
    {
      FitKid(h, x, i);
      FitKid(h, y, i);
      ComparedMeansSame(h, x.kids[i], y.kids[i]);
    }
    assert m == n;
  }

  lemma {:induction false} ObjectsMeanSame(h: Heap, x: Item, y: Item)
    requires Fit(h, x) && Fit(h, y) && x.kind == y.kind == ObjectKind
    requires forall i :: 0 <= i < |x.kids| ==> ComparedIn(x.kids[i], y.kids)
    requires forall i :: 0 <= i < |y.kids| ==> ComparedIn(y.kids[i], x.kids)
    ensures MeaningOf(Value(x)) == MeaningOf(Value(y))
    decreases Levels(x) + Levels(y), 1
  {
    hide Fit, ComparedIn, MembersMeaning, Members;
    var m, n := MembersMeaning(Members(x.kids)), MembersMeaning(Members(y.kids));
    forall k: CStr ensures (k in m <==> k in n) && (k in m && k in n ==> m[k] == n[k]) {
      LookupBoth(h, x, y, k);
      if HasKey(x.kids, k) {
        ComparedKid(h, x, y, k);
      }
      if HasKey(y.kids, k) {
        ComparedKid(h, y, x, k);
      }
    }
    assert m == n;
  }

  lemma Ints(x: Item)
    requires x.kind == NumberKind && IntNumbers(Value(x))
    ensures IsInt(x.valuedouble)
  {
  }

  lemma LookupBoth(h: Heap, x: Item, y: Item, k: CStr)
    requires Fit(h, x) && Fit(h, y) && x.kind == y.kind == ObjectKind
    ensures var m := MembersMeaning(Members(x.kids));
            (HasKey(x.kids, k) <==> k in m) && (k in m ==> m[k] == MeaningOf(Value(x.kids[KeyIndex(x.kids, k)])))
    ensures var n := MembersMeaning(Members(y.kids));
            (HasKey(y.kids, k) <==> k in n) && (k in n ==> n[k] == MeaningOf(Value(y.kids[KeyIndex(y.kids, k)])))
  {
    Lookup(x.kids, k);
    Lookup(y.kids, k);
  }

  /** The first member of a name on one side means what the first one on the other side means. */
  lemma {:induction false} ComparedKid(h: Heap, x: Item, y: Item, k: CStr)
    requires Fit(h, x) && Fit(h, y) && x.kind == y.kind == ObjectKind && HasKey(x.kids, k)
    requires forall i :: 0 <= i < |x.kids| ==> ComparedIn(x.kids[i], y.kids)
    ensures HasKey(y.kids, k)
    ensures MeaningOf(Value(x.kids[KeyIndex(x.kids, k)])) == MeaningOf(Value(y.kids[KeyIndex(y.kids, k)]))
    decreases Levels(x) + Levels(y), 0
  {
    hide Present, Typed, IntNumbers, Compared;
    var i := KeyIndex(x.kids, k);
    assert ComparedIn(x.kids[i], y.kids) && x.kids[i].key.s == k;
    FitKid(h, x, i);
    FitKid(h, y, KeyIndex(y.kids, k));
    ComparedMeansSame(h, x.kids[i], y.kids[KeyIndex(y.kids, k)]);
  }

  // ---- and uniform values that mean the same compare equal ----

  lemma {:induction false} OwnKey(xs: seq<Item>, i: nat)
    requires i < |xs| && AllKeyed(xs)
    ensures HasKey(xs, xs[i].key.s) && KeyIndex(xs, xs[i].key.s) <= i
  {
    if i > 0 && xs[0].key.s != xs[i].key.s {
      OwnKey(xs[1..], i - 1);
    }
  }

  lemma {:induction false} SameMeansCompared(h: Heap, x: Item, y: Item)
    requires Fit(h, x) && Fit(h, y) && Uniform(Value(x)) && Uniform(Value(y))
    requires MeaningOf(Value(x)) == MeaningOf(Value(y))
    ensures Compared(x, y)
    decreases Levels(x) + Levels(y), 1
  {
    hide Present, IntNumbers;
    match x.kind
    case NumberKind => Ints(x); Ints(y); IntsCloseTo(x.valuedouble, y.valuedouble);
    case ArrayKind =>
      forall i | 0 <= i < |x.kids| ensures Compared(x.kids[i], y.kids[i]) {
        FitKid(h, x, i);
        FitKid(h, y, i);
        SameMeansCompared(h, x.kids[i], y.kids[i]);
      }
    case ObjectKind =>
      forall i | 0 <= i < |x.kids| ensures ComparedIn(x.kids[i], y.kids) {
        SameMemberCompared(h, x, y, i);
      }
      forall i | 0 <= i < |y.kids| ensures ComparedIn(y.kids[i], x.kids) {
        SameMemberCompared(h, y, x, i);
      }
    case _ =>
  }

  lemma {:induction false} SameMemberCompared(h: Heap, x: Item, y: Item, i: nat)
    requires Fit(h, x) && Fit(h, y) && Uniform(Value(x)) && Uniform(Value(y))
    requires x.kind == y.kind == ObjectKind && MeaningOf(Value(x)) == MeaningOf(Value(y)) && i < |x.kids|
    ensures ComparedIn(x.kids[i], y.kids)
    decreases Levels(x) + Levels(y), 0
  {
    hide Present, Typed, IntNumbers, Compared, MembersMeaning;
    FitKid(h, x, i);
    assert AllKeyed(x.kids) by { KeyedIfFit(h, x); }
    var k := x.kids[i].key.s;
    OwnKey(x.kids, i);
    LookupBoth(h, x, y, k);
    assert MembersMeaning(Members(x.kids)) == MembersMeaning(Members(y.kids));
    var j, j' := KeyIndex(x.kids, k), KeyIndex(y.kids, k);
    FitKid(h, x, j);
    FitKid(h, y, j');
    var ms := Value(x).members;
    assert ms[i].key == ms[j].key && Uniform(ms[i].value) && Uniform(Value(y).members[j'].value);
    SameMeansCompared(h, x.kids[i], y.kids[j']);
  }

  lemma KeyedIfFit(h: Heap, x: Item)
    requires Fit(h, x) && x.kind == ObjectKind
    ensures AllKeyed(x.kids)
  {
  }

  /** Two values that share no node compare equal only if both are uniform. */
  lemma {:induction false} ComparedMeansUniform(h: Heap, x: Item, y: Item)
    requires Fit(h, x) && Fit(h, y) && Compared(x, y) && ItemAddrs(x) !! ItemAddrs(y)
    ensures Uniform(Value(x)) && Uniform(Value(y))
    decreases Levels(x) + Levels(y), 2
  {
    hide Present, Typed, IntNumbers, ListAddrs;
    assert x.addr in ItemAddrs(x) && y.addr in ItemAddrs(y);
    match x.kind
    case ArrayKind =>
      forall i | 0 <= i < |x.kids| ensures Uniform(Values(x.kids)[i]) && Uniform(Values(y.kids)[i]) {
        FitKid(h, x, i);
        FitKid(h, y, i);
        KidsApart(x, y, i, i);
        ComparedMeansUniform(h, x.kids[i], y.kids[i]);
      }
    case ObjectKind =>
      UniformSide(h, x, y);
      UniformSide(h, y, x);
    case _ =>
  }

  lemma KidsApart(x: Item, y: Item, i: nat, j: nat)
    requires ItemAddrs(x) !! ItemAddrs(y) && i < |x.kids| && j < |y.kids|
    ensures ItemAddrs(x.kids[i]) !! ItemAddrs(y.kids[j])
  {
    MemberAddrs(x.kids, i);
    MemberAddrs(y.kids, j);
  }

  lemma {:induction false} UniformSide(h: Heap, x: Item, y: Item)
    requires Fit(h, x) && Fit(h, y) && x.kind == y.kind == ObjectKind && ItemAddrs(x) !! ItemAddrs(y)
    requires forall i :: 0 <= i < |x.kids| ==> ComparedIn(x.kids[i], y.kids)
    ensures Uniform(Value(x))
    decreases Levels(x) + Levels(y), 1
  {
    hide Present, Typed, IntNumbers, Compared, ItemAddrs, Members;
    var ms := Value(x).members;
    assert ms == Members(x.kids);
    forall i | 0 <= i < |ms|
      ensures Uniform(ms[i].value) && HasKey(y.kids, ms[i].key)
      ensures MeaningOf(ms[i].value) == MeaningOf(Value(y.kids[KeyIndex(y.kids, ms[i].key)]))
    {
      assert ComparedIn(x.kids[i], y.kids);
      FitKid(h, x, i);
      var k := KeyIndex(y.kids, ms[i].key);
      FitKid(h, y, k);
      KidsApart(x, y, i, k);
      ComparedMeansSame(h, x.kids[i], y.kids[k]);
      ComparedMeansUniform(h, x.kids[i], y.kids[k]);
    }
  }

  // ---- the theorems ----

  /** Without repeated names, comparing is equality of meanings, whatever the two share. */
  lemma CompareIsEquality(h: Heap, x: Item, y: Item)
    requires Fit(h, x) && Fit(h, y) && DistinctKeys(Value(x)) && DistinctKeys(Value(y))
    ensures Compared(x, y) <==> MeaningOf(Value(x)) == MeaningOf(Value(y))
  {
    DistinctKeysAreUniform(Value(x));
    DistinctKeysAreUniform(Value(y));
    if Compared(x, y) {
      ComparedMeansSame(h, x, y);
    }
    if MeaningOf(Value(x)) == MeaningOf(Value(y)) {
      SameMeansCompared(h, x, y);
    }
  }

  lemma CompareIsEquivalence(h: Heap, x: Item, y: Item, z: Item)
    requires Fit(h, x) && Fit(h, y) && Fit(h, z)
    requires DistinctKeys(Value(x)) && DistinctKeys(Value(y)) && DistinctKeys(Value(z))
    ensures Compared(x, x) && (Compared(x, y) <==> Compared(y, x))
    ensures Compared(x, y) && Compared(y, z) ==> Compared(x, z)
  {
    hide Compared, MeaningOf, Fit, DistinctKeys;
    CompareIsEquality(h, x, x);
    CompareIsEquality(h, x, y);
    CompareIsEquality(h, y, x);
    CompareIsEquality(h, y, z);
    CompareIsEquality(h, x, z);
  }

  /** With repeated names, two separate values compare equal iff they mean the same and neither
      gives one name two meanings. */
  lemma CompareExactly(h: Heap, x: Item, y: Item)
    requires Fit(h, x) && Fit(h, y) && ItemAddrs(x) !! ItemAddrs(y)
    ensures Compared(x, y) <==>
              MeaningOf(Value(x)) == MeaningOf(Value(y)) && Uniform(Value(x)) && Uniform(Value(y))
  {
    if Compared(x, y) {
      ComparedMeansSame(h, x, y);
      ComparedMeansUniform(h, x, y);
    }
    if MeaningOf(Value(x)) == MeaningOf(Value(y)) && Uniform(Value(x)) && Uniform(Value(y)) {
      SameMeansCompared(h, x, y);
    }
  }

  /** A value that gives one name two meanings. */
  lemma RepeatedNamesCanDisagree()
    ensures !Uniform(Object([Member([97], Number(1.0)), Member([97], Number(2.0))]))
  {
    var ms := [Member([97], Number(1.0)), Member([97], Number(2.0))];
    assert ms[0].key == ms[1].key && MeaningOf(ms[0].value) != MeaningOf(ms[1].value);
  }

  /** A copy compares equal to its source iff the source gives no name two meanings. */
  lemma CopyCompares(h: Heap, h': Heap, x: Item, y: Item)
    requires Fit(h, x) && BuiltOn(h, h', y) && Erased(y) == Erased(x)
    ensures Fit(h', x) && Fit(h', y)
    ensures Compared(x, y) <==> Uniform(Value(x))
  {
    ItemFrame(h, h', x, h[x.addr].next, h[x.addr].prev);
    CopyHoldsTheSame(x, y);
    InnerIn(h, x);
    CompareExactly(h', x, y);
  }

  /** Duplicate, then compare with the original. */
  method DuplicateAndCompare(mem: Memory, item: Ptr, ghost x: Item) returns (copy: Ptr, equal: bool, ghost y: Item)
    requires mem.Valid() && !mem.oom && item != NULL && item == x.addr && Fit(mem.blocks, x)
    modifies mem
    ensures mem.Valid()
    ensures copy == NULL ==> mem.blocks == old(mem.blocks) && !equal
    ensures copy != NULL ==> copy == y.addr && BuiltOn(old(mem.blocks), mem.blocks, y) && Value(y) == Value(x)
                             && (equal <==> Uniform(Value(x)))
    ensures Levels(x) <= CIRCULAR_LIMIT && !mem.oom ==> copy != NULL
  {
    hide Compared, BuiltOn;
    copy, y := Duplicate(mem, item, true, x);
    equal := false;
    if copy != NULL {
      CopyCompares(old(mem.blocks), mem.blocks, x, y);
      CopyHoldsTheSame(x, y);
      equal := Compare(mem, item, copy, x, y);
    }
  }
}
