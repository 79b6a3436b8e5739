/** cJSON_Compare, case sensitive: what the pairwise walk decides, and when that is equality. */
module Comparison {
  import opened JsonTree
  import opened Memory
  import opened Items
  import opened ListEdits
  import opened Duplication

  /** DBL_EPSILON */
  const EPSILON: real := 1.0 / 4503599627370496.0

  function Abs(a: real): real {
    if a < 0.0 then -a else a
  }

  /** compare_double */
  predicate CloseTo(a: real, b: real) {
    var largest := if Abs(a) > Abs(b) then Abs(a) else Abs(b);
    Abs(a - b) <= largest * EPSILON
  }

  lemma Scaled(m: real)
    requires 0.0 <= m <= 2147483648.0
    ensures 0.0 <= m * EPSILON < 1.0
  {
  }

  lemma IntsApart(m: int, n: int)
    ensures m == n || Abs(m as real - n as real) >= 1.0
  {
    assert m as real - n as real == (m - n) as real;
  }

  lemma IntsCloseTo(a: real, b: real)
    requires IsInt(a) && IsInt(b)
    ensures CloseTo(a, b) <==> a == b
  {
    hide EPSILON;
    var largest := if Abs(a) > Abs(b) then Abs(a) else Abs(b);
    Scaled(largest);
    IntsApart(a.Floor, b.Floor);
    assert CloseTo(a, b) <==> Abs(a - b) <= largest * EPSILON;
  }

  // ---- what the walk decides ----

  lemma KidsLower(x: Item)
    ensures forall i :: 0 <= i < |x.kids| ==> Levels(x.kids[i]) < Levels(x)
  {
    forall i | 0 <= i < |x.kids| ensures Levels(x.kids[i]) < Levels(x) {
      KidLevels(x.kids, i);
    }
  }

  predicate Compared(x: Item, y: Item)
    decreases Levels(x) + Levels(y), 1
  {
    KidsLower(x);
    KidsLower(y);
    && x.kind == y.kind && x.kind != InvalidKind
    && (x.addr == y.addr ||
        match x.kind
        case NumberKind => CloseTo(x.valuedouble, y.valuedouble)
        case StringKind => x.text.Text? && y.text.Text? && x.text.s == y.text.s
        case ArrayKind => |x.kids| == |y.kids| && forall i :: 0 <= i < |x.kids| ==> Compared(x.kids[i], y.kids[i])
        case ObjectKind =>
          && (forall i :: 0 <= i < |x.kids| ==> ComparedIn(x.kids[i], y.kids))
          && (forall i :: 0 <= i < |y.kids| ==> ComparedIn(y.kids[i], x.kids))
        case _ => true)
  }

  /** The member's name is found among ys, and what is found there compares equal. */
  predicate ComparedIn(z: Item, ys: seq<Item>)
    decreases Levels(z) + ListLevels(ys), 0
  {
    && z.key.Text? && HasKey(ys, z.key.s)
    && var k := KeyIndex(ys, z.key.s);
       KidLevels(ys, k); Compared(z, ys[k])
  }

  /** p points at child i of a, or is NULL behind the last one. */
  ghost predicate CursorAt(h: Heap, a: Item, i: nat, p: Ptr) {
    && i <= |a.kids| && (p == NULL <==> i == |a.kids|)
    && (i < |a.kids| ==> p == a.kids[i].addr && p in h && h[p].Node? && h[p].key == PtrOf(a.kids[i].key)
                         && h[p].next == NextOf(a.kids, i) && OwnedAt(h, a.kids[i].key) && Present(h, a.kids[i]))
  }

  lemma CursorStarts(h: Heap, a: Item)
    requires Present(h, a)
    ensures CursorAt(h, a, 0, h[a.addr].child)
  {
    if a.kids != [] {
      ChildAt(h, a, 0);
    }
  }

  lemma CursorMoves(h: Heap, a: Item, i: nat, p: Ptr)
    requires Present(h, a) && CursorAt(h, a, i, p) && p != NULL
    ensures CursorAt(h, a, i + 1, h[p].next)
  {
    if i + 1 < |a.kids| {
      ChildAt(h, a, i + 1);
    }
  }

  method Compare(mem: Memory, a: Ptr, b: Ptr, ghost x: Item, ghost y: Item) returns (equal: bool)
    requires mem.Valid()
    requires a != NULL ==> a == x.addr && Present(mem.blocks, x)
    requires b != NULL ==> b == y.addr && Present(mem.blocks, y)
    ensures equal <==> a != NULL && b != NULL && Compared(x, y)
    decreases Levels(x) + Levels(y), 1
  {
    if a == NULL || b == NULL || mem.blocks[a].kind != mem.blocks[b].kind {
      return false;
    }
    var kind := mem.blocks[a].kind;
    if kind == InvalidKind {
      return false;
    }
    if a == b {
      return true;
    }
    KidsOf(mem.blocks, x);
    KidsOf(mem.blocks, y);
    match kind {
      case FalseKind | TrueKind | NullKind => return true;
      case NumberKind => return CloseTo(mem.blocks[a].valuedouble, mem.blocks[b].valuedouble);
      case StringKind =>
        var s, t := mem.blocks[a].text, mem.blocks[b].text;
        if s == NULL || t == NULL {
          return false;
        }
        return mem.blocks[s].s == mem.blocks[t].s;
      case ArrayKind =>
        equal := CompareElements(mem, a, b, x, y);
      case ObjectKind =>
        equal := CompareMembers(mem, a, b, x, y);
        if !equal {
          return;
        }
        equal := CompareMembers(mem, b, a, y, x);
    }
  }

  method CompareElements(mem: Memory, a: Ptr, b: Ptr, ghost x: Item, ghost y: Item) returns (equal: bool)
    requires mem.Valid() && a == x.addr && Present(mem.blocks, x) && b == y.addr && Present(mem.blocks, y)
    ensures equal <==> |x.kids| == |y.kids| && forall i :: 0 <= i < |x.kids| ==> Compared(x.kids[i], y.kids[i])
    decreases Levels(x) + Levels(y), 0
  {
    hide Compared;
    var p, q := mem.blocks[a].child, mem.blocks[b].child;
    CursorStarts(mem.blocks, x);
    CursorStarts(mem.blocks, y);
    KidsLower(x);
    KidsLower(y);
    ghost var i := 0;
    while p != NULL && q != NULL
      invariant CursorAt(mem.blocks, x, i, p) && CursorAt(mem.blocks, y, i, q)
      invariant forall j :: 0 <= j < i ==> Compared(x.kids[j], y.kids[j])
      decreases |x.kids| - i
    {
      var same := Compare(mem, p, q, x.kids[i], y.kids[i]);
      if !same {
        return false;
      }
      CursorMoves(mem.blocks, x, i, p);
      CursorMoves(mem.blocks, y, i, q);
      p, q := mem.blocks[p].next, mem.blocks[q].next;
      i := i + 1;
    }
    equal := p == q;
  }

  /** Every member of the first object has its like in the second. */
  method CompareMembers(mem: Memory, a: Ptr, b: Ptr, ghost x: Item, ghost y: Item) returns (equal: bool)
    requires mem.Valid() && a == x.addr && Present(mem.blocks, x) && b == y.addr && Present(mem.blocks, y)
    ensures equal <==> forall i :: 0 <= i < |x.kids| ==> ComparedIn(x.kids[i], y.kids)
    decreases Levels(x) + Levels(y), 0
  {
    hide Compared;
    var p := mem.blocks[a].child;
    CursorStarts(mem.blocks, x);
    KidsLower(x);
    ghost var i := 0;
    while p != NULL
      invariant CursorAt(mem.blocks, x, i, p)
      invariant forall j :: 0 <= j < i ==> ComparedIn(x.kids[j], y.kids)
      decreases |x.kids| - i
    {
      var q := GetObjectItem(mem, b, mem.blocks[p].key, y);
      if q == NULL {
        assert !ComparedIn(x.kids[i], y.kids);
        return false;
      }
      ghost var k := KeyIndex(y.kids, x.kids[i].key.s);
      ChildAt(mem.blocks, y, k);
      KidLevels(y.kids, k);
      var same := Compare(mem, p, q, x.kids[i], y.kids[k]);
      assert same <==> ComparedIn(x.kids[i], y.kids);
      if !same {
        return false;
      }
      CursorMoves(mem.blocks, x, i, p);
      p := mem.blocks[p].next;
      i := i + 1;
    }
    equal := true;
  }
}
