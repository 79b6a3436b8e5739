/** The parser as the C code runs it: a cursor over the text, nodes and strings allocated one by
    one, everything freed again when it gives up. The grammar says what a text means and where it
    fails; each parse function agrees with it and says what has become of the heap. */
module Parser {
  import opened Bytes
  import opened JsonTree
  import opened Rendering
  import opened Grammar
  import opened Memory
  import opened Items
  import JsonStrings
  import Numbers
  import Lists

  // ---- what a parse leaves in the heap ----

  /** A node that holds no value yet: no text and no children. It may have a key. */
  ghost predicate Vacant(h: Heap, p: Ptr, key: Owned) {
    && p in h && h[p].Node? && h[p].child == NULL && h[p].text == NULL
    && h[p].key == PtrOf(key) && OwnedAt(h, key)
  }

  /** The node at p has become x: its links and key are as before, what else it owns is new,
      and no other block has changed, appeared or gone. */
  ghost predicate Filled(h: Heap, h': Heap, p: Ptr, key: Owned, x: Item) {
    && p in h && h[p].Node? && x.addr == p && x.key == key
    && NodeAt(h', x, h[p].next, h[p].prev) && InnerAt(h', x) && ItemSep(x)
    && InnerAddrs(x) * h.Keys <= OwnedAddrs(key)
    && h'.Keys == h.Keys + InnerAddrs(x)
    && forall q :: q in h && q != p ==> h'[q] == h[q]
  }

  ghost predicate Holds(x: Item, t: Json) {
    Typed(x) && Value(x) == t
  }

  /** A child list under construction on top of heap h0: nothing of h0 has changed and the
      list's blocks are the only new ones. */
  ghost predicate OpenList(h0: Heap, h: Heap, xs: seq<Item>) {
    && ListAt(h, xs, NULL) && ListSep(xs)
    && ListAddrs(xs) !! h0.Keys
    && h.Keys == h0.Keys + ListAddrs(xs)
    && forall q :: q in h0 ==> h[q] == h0[q]
  }

  function Bare(p: Ptr): Item {
    Item(p, InvalidKind, 0, 0.0, Nothing, Nothing, [])
  }

  /** The node at y's address has become x: links as before, what it gained is new, and no
      other block has changed, appeared or gone. */
  ghost predicate Becomes(h: Heap, h': Heap, y: Item, x: Item) {
    && y.addr in h && h[y.addr].Node? && x.addr == y.addr
    && NodeAt(h', x, h[y.addr].next, h[y.addr].prev) && InnerAt(h', x) && ItemSep(x)
    && InnerAddrs(x) * h.Keys <= InnerAddrs(y)
    && h'.Keys == h.Keys + InnerAddrs(x)
    && forall q :: q in h && q != y.addr ==> h'[q] == h[q]
  }

  /** The last element of the list under construction has gained a key or a value. */
  lemma LastBecomes(h0: Heap, h: Heap, h': Heap, xs: seq<Item>, y: Item, x: Item)
    requires OpenList(h0, h, xs + [y]) && InnerAddrs(y) <= InnerAddrs(x) && Becomes(h, h', y, x)
    ensures OpenList(h0, h', xs + [x])
  {
    var ys, zs := xs + [y], xs + [x];
    AddrsConcat(xs, [y]);
    AddrsConcat(xs, [x]);
    SepConcat(xs, [y]);
    SepConcat(xs, [x]);
    Addrs1(x);
    Addrs1(y);
    var n := |xs|;
    KidParts(h, ys, n, NULL);
    InnerIn(h, y);
    ListIn(h, ys, NULL);
    assert InnerAddrs(x) !! ListAddrs(xs);
    forall i | 0 <= i < |zs| ensures KidAt(h', zs, i, NULL) {
      if i < n {
        OthersStay(h, h', xs, y, x, i);
      }
    }
  }

  lemma OthersStay(h: Heap, h': Heap, xs: seq<Item>, y: Item, x: Item, i: nat)
    requires i < |xs| && KidAt(h, xs + [y], i, NULL) && x.addr == y.addr
    requires y.addr !in ListAddrs(xs) && forall q :: q in h && q != y.addr ==> q in h' && h'[q] == h[q]
    ensures KidAt(h', xs + [x], i, NULL)
  {
    var ys := xs + [y];
    MemberAddrs(xs, i);
    ItemFrame(h, h', xs[i], NextOf(ys, i), PrevOf(ys, i, NULL));
  }

  lemma LastFilled(h0: Heap, h: Heap, h': Heap, xs: seq<Item>, y: Item, x: Item)
    requires OpenList(h0, h, xs + [y]) && InnerAddrs(y) == OwnedAddrs(y.key)
    requires Filled(h, h', y.addr, y.key, x)
    ensures OpenList(h0, h', xs + [x])
    ensures Head(xs + [x]) == Head(xs + [y]) && Tail(xs + [x]) == y.addr
  {
    LastBecomes(h0, h, h', xs, y, x);
  }

  /** A member whose key is known and whose value is not. */
  function Named(p: Ptr, at: Ptr, key: CStr): Item {
    Item(p, StringKind, 0, 0.0, Nothing, Text(at, key), [])
  }

  lemma LastNamed(h0: Heap, h: Heap, h': Heap, xs: seq<Item>, p: Ptr, at: Ptr, key: CStr)
    requires NULL !in h && OpenList(h0, h, xs + [Bare(p)]) && at != NULL && at !in h && p in h && h[p].Node?
    requires h' == h[at := Str(key)][p := h[p].(kind := StringKind, key := at)]
    ensures OpenList(h0, h', xs + [Named(p, at, key)]) && Vacant(h', p, Text(at, key))
  {
    var y, x := Bare(p), Named(p, at, key);
    KidParts(h, xs + [y], |xs|, NULL);
    assert ListAt(h', x.kids, Tail(x.kids));
    assert InnerAt(h', x);
    assert ListAddrs(x.kids) == {} && ListSep(x.kids);
    assert InnerAddrs(x) == {at};
    LastBecomes(h0, h, h', xs, y, x);
  }

  /** A new vacant node has been linked behind the tail. */
  lemma Attached(h0: Heap, h: Heap, h': Heap, xs: seq<Item>, p: Ptr)
    requires OpenList(h0, h, xs) && p != NULL && p !in h
    requires xs == [] ==> h' == h[p := ZEROED]
    requires xs != [] ==> Tail(xs) in h && h[Tail(xs)].Node?
                          && h' == h[p := ZEROED.(prev := Tail(xs))][Tail(xs) := h[Tail(xs)].(next := p)]
    ensures OpenList(h0, h', xs + [Bare(p)])
  {
    var b := Bare(p);
    var zs := xs + [b];
    var n := |xs|;
    AddrsConcat(xs, [b]);
    SepConcat(xs, [b]);
    Addrs1(b);
    ListIn(h, xs, NULL);
    forall i | 0 <= i < |zs| ensures KidAt(h', zs, i, NULL) {
      if i < n {
        TailLinked(h, h', xs, p, i);
      } else {
        assert ListAt(h', b.kids, Tail(b.kids));
      }
    }
    if n > 0 {
      MemberAddrs(xs, n - 1);
    }
  }

  lemma TailLinked(h: Heap, h': Heap, xs: seq<Item>, p: Ptr, i: nat)
    requires i < |xs| && KidAt(h, xs, i, NULL) && ListSep(xs) && ListAddrs(xs) <= h.Keys && p !in h
    requires Tail(xs) in h && h[Tail(xs)].Node?
    requires h' == h[p := ZEROED.(prev := Tail(xs))][Tail(xs) := h[Tail(xs)].(next := p)]
    ensures KidAt(h', xs + [Bare(p)], i, NULL)
  {
    var zs, n := xs + [Bare(p)], |xs|;
    KidParts(h, xs, i, NULL);
    MemberAddrs(xs, i);
    if i < n - 1 {
      MembersApart(xs, i, n - 1);
    } else {
      assert xs[i].addr !in InnerAddrs(xs[i]);
    }
    InnerFrame(h, h', xs[i]);
    assert NodeAt(h', xs[i], NextOf(zs, i), PrevOf(zs, i, NULL));
  }

  /** The finished list: its head's prev now points at the tail, and it hangs below the node at p. */
  lemma Closed(h0: Heap, h: Heap, h': Heap, xs: seq<Item>, p: Ptr, key: Owned, kind: Kind)
    requires OpenList(h0, h, xs) && NULL !in h0 && Vacant(h0, p, key) && (kind == ArrayKind || kind == ObjectKind)
    requires xs != [] ==> Head(xs) in h && h[Head(xs)].Node?
    requires var linked := if xs == [] then h else h[Head(xs) := h[Head(xs)].(prev := Tail(xs))];
             h' == linked[p := h0[p].(kind := kind, child := Head(xs))]
    ensures Filled(h0, h', p, key, Item(p, kind, h0[p].valueint, h0[p].valuedouble, Nothing, key, xs))
  {
    var x := Item(p, kind, h0[p].valueint, h0[p].valuedouble, Nothing, key, xs);
    ListIn(h, xs, NULL);
    forall i | 0 <= i < |xs| ensures KidAt(h', xs, i, Tail(xs)) {
      KidParts(h, xs, i, NULL);
      MemberAddrs(xs, i);
      if i > 0 {
        MembersApart(xs, 0, i);
      }
      assert xs[0].addr !in InnerAddrs(xs[i]) by { MemberAddrs(xs, 0); }
      InnerFrame(h, h', xs[i]);
    }
    assert ListAt(h', xs, Tail(xs));
    assert OwnedAt(h', key);
    assert InnerAt(h', x);
  }

  function PrependItems(ts: seq<Json>, r: Result<seq<Json>>): Result<seq<Json>> {
    match r
    case Ok(us, next) => Ok(ts + us, next)
    case Err(at) => Err(at)
  }

  function PrependMembers(ms: seq<Member>, r: Result<seq<Member>>): Result<seq<Member>> {
    match r
    case Ok(us, next) => Ok(ms + us, next)
    case Err(at) => Err(at)
  }

  lemma PrependNothing(r: Result<seq<Json>>)
    ensures PrependItems([], r) == r
  {
    if r.Ok? {
      assert [] + r.value == r.value;
    }
  }

  lemma PrependNoMembers(r: Result<seq<Member>>)
    ensures PrependMembers([], r) == r
  {
    if r.Ok? {
      assert [] + r.value == r.value;
    }
  }

  /** What `ok` and the cursor say about a parse function's verdict `r`. */
  ghost predicate Verdict<T>(ok: bool, oom: bool, next: nat, r: Result<T>) {
    && (ok ==> !oom && r.Ok? && r.next == next)
    && (!ok && !oom ==> r == Err(next))
  }

  lemma Empty(h: Heap)
    ensures OpenList(h, h, [])
  {
  }

  lemma ArrayHolds(x: Item)
    requires x.kind == ArrayKind && x.text == Nothing && AllTyped(x.kids)
    ensures Holds(x, Array(Values(x.kids)))
  {
  }

  lemma ObjectHolds(x: Item)
    requires x.kind == ObjectKind && x.text == Nothing && AllTyped(x.kids) && AllKeyed(x.kids)
    ensures Holds(x, Object(Members(x.kids)))
  {
  }

  lemma FilledKey(h: Heap, h': Heap, p: Ptr, key: Owned, x: Item)
    requires Filled(h, h', p, key, x)
    ensures x.key == key
  {
  }

  /** One turn of the element loop, seen from the grammar. */
  lemma NextItem(c: seq<byte>, from: nat, d: nat, next: nat, ts: seq<Json>, t: Json)
    requires from < |c| && Grammar.ParseValue(c, SkipWs(c, from + 1), d) == Ok(t, next)
    ensures var p, r := SkipWs(c, next), PrependItems(ts, Grammar.ParseItems(c, from, d));
            if IsByte(c, p, COMMA) then r == PrependItems(ts + [t], Grammar.ParseItems(c, p, d))
            else if IsByte(c, p, RBRACKET) then r == Ok(ts + [t], p) else r == Err(p)
  {
    hide Grammar.ParseValue;
    var p := SkipWs(c, next);
    if IsByte(c, p, COMMA) {
      var more := Grammar.ParseItems(c, p, d);
      if more.Ok? {
        assert ts + ([t] + more.value) == ts + [t] + more.value;
      }
    }
  }

  /** One turn of the member loop, seen from the grammar. */
  lemma NextMember(c: seq<byte>, from: nat, d: nat, ms: seq<Member>)
    requires from < |c|
    ensures var m, r := Grammar.ParseMember(c, from, d), PrependMembers(ms, Grammar.ParseMembers(c, from, d));
            if m.Err? then r == Err(m.at) else
              var p := SkipWs(c, m.next);
              if IsByte(c, p, COMMA) then r == PrependMembers(ms + [m.value], Grammar.ParseMembers(c, p, d))
              else if IsByte(c, p, RBRACE) then r == Ok(ms + [m.value], p) else r == Err(p)
  {
    hide Grammar.ParseMember, SkipWs;
    var one := Grammar.ParseMember(c, from, d);
    if one.Err? {
      return;
    }
    var m, p := one.value, SkipWs(c, one.next);
    if IsByte(c, p, COMMA) {
      var more := Grammar.ParseMembers(c, p, d);
      if more.Ok? {
        assert ms + ([m] + more.value) == ms + [m] + more.value;
      }
    }
  }

  class ParseBuffer {
    const mem: Memory
    const content: seq<byte>
    var offset: nat
    var depth: nat

    ghost predicate Valid()
      reads this, mem
    {
      mem.Valid() && !mem.oom && offset <= |content|
    }

    constructor (mem: Memory, content: seq<byte>)
      requires mem.Valid() && !mem.oom
      ensures Valid() && this.mem == mem && this.content == content && offset == 0 && depth == 0
    {
      this.mem, this.content, offset, depth := mem, content, 0, 0;
    }

    method SkipWhitespace()
      requires offset <= |content|
      modifies this`offset
      ensures offset == SkipWs(content, old(offset))
    {
      if offset >= |content| {
        return;
      }
      while offset < |content| && content[offset] <= 32
        invariant old(offset) <= offset <= |content|
        invariant SkipBlanks(content, offset) == SkipBlanks(content, old(offset))
      {
        offset := offset + 1;
      }
      if offset == |content| {
        offset := offset - 1;
      }
    }

    method SkipUtf8Bom()
      requires offset == 0
      modifies this`offset
      ensures offset == SkipBom(content)
    {
      if 4 < |content| && content[0..3] == BOM {
        offset := 3;
      }
    }

    /** Copies the number's characters into a fixed buffer and converts that. */
    method ParseNumber(item: Ptr, ghost key: Owned) returns (ok: bool, ghost x: Item)
      requires Valid() && Vacant(mem.blocks, item, key)
      modifies this`offset, mem
      ensures Valid() && Verdict(ok, false, offset, Grammar.ParseNumber(content, old(offset)))
      ensures ok ==> Filled(old(mem.blocks), mem.blocks, item, key, x)
                     && Holds(x, Number(Grammar.ParseNumber(content, old(offset)).value))
      ensures !ok ==> mem.blocks == old(mem.blocks)
    {
      hide Numbers.Strtod, Filled, Vacant, Holds, Numbers.WindowLen, Numbers.ToInt;
      x := Bare(item);
      var window := CopyNumber();
      var (consumed, number) := Numbers.Strtod(window);
      if consumed == 0 {
        ok := false;
        return;
      }
      x := SetNumber(item, number, key);
      offset := offset + consumed;
      ok := true;
    }

    /** The characters a number can have, through a buffer of fixed size. */
    method CopyNumber() returns (window: seq<byte>)
      requires offset <= |content|
      ensures window == content[offset..offset + Numbers.WindowLen(content, offset, 0)]
    {
      hide Numbers.WindowLen;
      var buffer := new byte[NUMBER_BUFFER];
      var i := 0;
      while i < NUMBER_BUFFER - 1 && offset + i < |content| && Numbers.NumberChar(content[offset + i])
        invariant 0 <= i <= Numbers.NUMBER_WINDOW && offset + i <= |content|
        invariant Numbers.WindowLen(content, offset, i) == Numbers.WindowLen(content, offset, 0)
        invariant forall k :: 0 <= k < i ==> buffer[k] == content[offset + k]
      {
        WindowStep(i);
        buffer[i] := content[offset + i];
        i := i + 1;
      }
      WindowStep(i);
      buffer[i] := NUL;
      window := buffer[..i];
    }

    lemma WindowStep(k: nat)
      requires offset + k <= |content| && k <= Numbers.NUMBER_WINDOW
      ensures Numbers.WindowLen(content, offset, k)
           == if k < Numbers.NUMBER_WINDOW && offset + k < |content| && Numbers.NumberChar(content[offset + k])
              then Numbers.WindowLen(content, offset, k + 1) else k
    {
    }

    method SetNumber(item: Ptr, number: real, ghost key: Owned) returns (ghost x: Item)
      requires Valid() && Vacant(mem.blocks, item, key)
      modifies mem
      ensures Valid() && Filled(old(mem.blocks), mem.blocks, item, key, x) && Holds(x, Number(number))
    {
      var node := mem.blocks[item];
      var valueint := Numbers.ToInt(number);
      mem.SetNode(item, node.(valuedouble := number, valueint := valueint, kind := NumberKind));
      x := Item(item, NumberKind, valueint, number, Nothing, key, []);
      LeafFilled(old(mem.blocks), mem.blocks, item, key, x);
      assert AllTyped(x.kids);
    }

    /** Scans for the closing quote, allocates what the scan counted, decodes into it. */
    method ParseString(item: Ptr) returns (ok: bool, ghost at: Ptr)
      requires Valid() && offset < |content|
      requires item in mem.blocks && mem.blocks[item].Node?
      modifies this`offset, mem
      ensures mem.Valid() && offset <= |content|
      ensures Verdict(ok, mem.oom, offset, Grammar.ParseString(content, old(offset)))
      ensures ok ==> at != NULL && at !in old(mem.blocks)
                     && mem.blocks == old(mem.blocks)[at := Str(Grammar.ParseString(content, old(offset)).value)]
                                                     [item := old(mem.blocks[item]).(kind := StringKind, text := at)]
      ensures !ok ==> mem.blocks == old(mem.blocks)
    {
      at := NULL;
      var input := offset + 1;
      if content[offset] != QUOTE {
        offset := input;
        return false, at;
      }
      var end, skipped := JsonStrings.PreScan(content, input);
      if end == None {
        offset := input;
        return false, at;
      }
      var allocationLength := end.value - offset - skipped;
      var p := mem.Allocate(Space(allocationLength + 1));
      if p == NULL {
        offset := input;
        return false, at;
      }
      var output := new byte[allocationLength + 1];
      var decoded, n, stop := JsonStrings.DecodeInto(content, input, end.value, output);
      if !decoded {
        mem.Free(p);
        assert mem.blocks == old(mem.blocks);
        offset := stop;
        return false, at;
      }
      mem.Fill(p, output[..n]);
      mem.SetNode(item, mem.blocks[item].(kind := StringKind, text := p));
      offset := end.value + 1;
      at := p;
      ok := true;
    }

    /** null, false or true. */
    method SetLeaf(item: Ptr, kind: Kind, ghost key: Owned) returns (ghost x: Item)
      requires Valid() && Vacant(mem.blocks, item, key) && (kind == NullKind || kind == FalseKind || kind == TrueKind)
      modifies mem
      ensures Valid() && Filled(old(mem.blocks), mem.blocks, item, key, x)
      ensures Holds(x, if kind == NullKind then Null else if kind == FalseKind then False else True)
    {
      var node := mem.blocks[item];
      var valueint := if kind == TrueKind then 1 else node.valueint;
      mem.SetNode(item, node.(kind := kind, valueint := valueint));
      x := Item(item, kind, valueint, node.valuedouble, Nothing, key, []);
      LeafFilled(old(mem.blocks), mem.blocks, item, key, x);
    }

    /** A string as a value. */
    method ParseText(item: Ptr, ghost key: Owned) returns (ok: bool, ghost x: Item)
      requires Valid() && Vacant(mem.blocks, item, key) && offset < |content|
      modifies this`offset, mem
      ensures mem.Valid() && offset <= |content|
      ensures Verdict(ok, mem.oom, offset, Grammar.ParseString(content, old(offset)))
      ensures ok ==> Filled(old(mem.blocks), mem.blocks, item, key, x)
                     && Holds(x, String(Grammar.ParseString(content, old(offset)).value))
      ensures !ok ==> mem.blocks == old(mem.blocks)
    {
      hide Grammar.ParseString;
      x := Bare(item);
      ghost var node := mem.blocks[item];
      ghost var at;
      ok, at := ParseString(item);
      if ok {
        ghost var s := Grammar.ParseString(content, old(offset)).value;
        x := Item(item, StringKind, node.valueint, node.valuedouble, Text(at, s), key, []);
        LeafFilled(old(mem.blocks), mem.blocks, item, key, x);
        assert AllTyped(x.kids) && x.text.s == s;
      }
    }

    method ParseValue(item: Ptr, ghost key: Owned) returns (ok: bool, ghost x: Item)
      requires Valid() && Vacant(mem.blocks, item, key)
      modifies this`offset, this`depth, mem
      ensures mem.Valid() && offset <= |content|
      ensures Verdict(ok, mem.oom, offset, Grammar.ParseValue(content, old(offset), old(depth)))
      ensures ok ==> depth == old(depth) && Filled(old(mem.blocks), mem.blocks, item, key, x)
                     && Holds(x, Grammar.ParseValue(content, old(offset), old(depth)).value)
      ensures !ok ==> mem.blocks == old(mem.blocks)
      decreases |content| - offset, 4
    {
      hide Filled, Vacant, Holds, Grammar.ParseArray, Grammar.ParseObject, Grammar.ParseNumber, Grammar.ParseString;
      x := Bare(item);
      if offset + 4 <= |content| && content[offset..offset + 4] == TEXT_NULL {
        x := SetLeaf(item, NullKind, key);
        offset := offset + 4;
        return true, x;
      }
      if offset + 5 <= |content| && content[offset..offset + 5] == TEXT_FALSE {
        x := SetLeaf(item, FalseKind, key);
        offset := offset + 5;
        return true, x;
      }
      if offset + 4 <= |content| && content[offset..offset + 4] == TEXT_TRUE {
        x := SetLeaf(item, TrueKind, key);
        offset := offset + 4;
        return true, x;
      }
      if offset < |content| && content[offset] == QUOTE {
        ok, x := ParseText(item, key);
        return;
      }
      if StartsNumber(content, offset) {
        ok, x := ParseNumber(item, key);
        return;
      }
      if offset < |content| && content[offset] == LBRACKET {
        ok, x := ParseArray(item, key);
        return;
      }
      if offset < |content| && content[offset] == LBRACE {
        ok, x := ParseObject(item, key);
        return;
      }
      ok := false;
    }

    /** Allocates the next item and links it behind the current one. */
    method AppendItem(head: Ptr, current: Ptr, ghost h0: Heap, ghost xs: seq<Item>)
      returns (p: Ptr, head': Ptr, current': Ptr)
      requires mem.Valid() && !mem.oom && OpenList(h0, mem.blocks, xs)
      requires head == Head(xs) && current == Tail(xs)
      modifies mem
      ensures mem.Valid() && (mem.oom <==> p == NULL)
      ensures p == NULL ==> mem.blocks == old(mem.blocks) && head' == head && current' == current
      ensures p != NULL ==> head' == Head(xs + [Bare(p)]) && current' == p
                            && OpenList(h0, mem.blocks, xs + [Bare(p)]) && Vacant(mem.blocks, p, Nothing)
    {
      head', current' := head, current;
      p := mem.NewItem();
      if p == NULL {
        return;
      }
      if xs != [] {
        KidParts(old(mem.blocks), xs, 0, NULL);
        KidParts(old(mem.blocks), xs, |xs| - 1, NULL);
      }
      if head == NULL {
        head' := p;
      } else {
        mem.SetNode(current, mem.blocks[current].(next := p));
        mem.SetNode(p, mem.blocks[p].(prev := current));
      }
      current' := p;
      Attached(h0, old(mem.blocks), mem.blocks, xs, p);
    }

    /** The fail label: the items built so far are deleted, the heap is as before the call. */
    method Abandon(head: Ptr, ghost h0: Heap, ghost xs: seq<Item>)
      requires mem.Valid() && OpenList(h0, mem.blocks, xs) && head == Head(xs)
      modifies mem
      ensures mem.Valid() && mem.oom == old(mem.oom) && mem.blocks == h0
    {
      if xs != [] {
        KidParts(mem.blocks, xs, 0, NULL);
      }
      if head != NULL {
        Lists.Delete(mem, head, xs, NULL);
      }
      assert mem.blocks == h0;
    }

    /** The success label: the list is closed and hung below the item. */
    method Finish(item: Ptr, head: Ptr, current: Ptr, kind: Kind, ghost h0: Heap, ghost xs: seq<Item>, ghost key: Owned)
      returns (ghost x: Item)
      requires mem.Valid() && NULL !in h0 && OpenList(h0, mem.blocks, xs) && Vacant(h0, item, key)
      requires head == Head(xs) && current == Tail(xs) && (kind == ArrayKind || kind == ObjectKind)
      modifies mem
      ensures mem.Valid() && mem.oom == old(mem.oom)
      ensures x.kind == kind && x.kids == xs && x.text == Nothing && Filled(h0, mem.blocks, item, key, x)
    {
      if xs != [] {
        KidParts(mem.blocks, xs, 0, NULL);
        MemberAddrs(xs, 0);
      }
      if head != NULL {
        mem.SetNode(head, mem.blocks[head].(prev := current));
      }
      mem.SetNode(item, mem.blocks[item].(kind := kind, child := head));
      Closed(h0, old(mem.blocks), mem.blocks, xs, item, key, kind);
      x := Item(item, kind, h0[item].valueint, h0[item].valuedouble, Nothing, key, xs);
    }

    method ParseArray(item: Ptr, ghost key: Owned) returns (ok: bool, ghost x: Item)
      requires Valid() && Vacant(mem.blocks, item, key)
      requires offset < |content| && content[offset] == LBRACKET
      modifies this`offset, this`depth, mem
      ensures mem.Valid() && offset <= |content|
      ensures Verdict(ok, mem.oom, offset, Grammar.ParseArray(content, old(offset), old(depth)))
      ensures ok ==> depth == old(depth) && Filled(old(mem.blocks), mem.blocks, item, key, x)
                     && Holds(x, Grammar.ParseArray(content, old(offset), old(depth)).value)
      ensures !ok ==> mem.blocks == old(mem.blocks)
      decreases |content| - offset, 3
    {
      hide OpenList, Filled, Vacant, Holds, SkipWs, Grammar.ParseItems, Value, Typed;
      x := Bare(item);
      if depth >= NESTING_LIMIT {
        return false, x;
      }
      depth := depth + 1;
      offset := offset + 1;
      SkipWhitespace();
      var head, current := NULL, NULL;
      ghost var h0, xs := mem.blocks, [];
      Empty(h0);
      if !(offset < |content| && content[offset] == RBRACKET) {
        if offset >= |content| {
          offset := offset - 1;
          return false, x;
        }
        offset := offset - 1;
        var parsed;
        parsed, head, current, xs := ParseItems(h0);
        if !parsed {
          return false, x;
        }
      }
      x := Finish(item, head, current, ArrayKind, h0, xs, key);
      ArrayHolds(x);
      depth := depth - 1;
      offset := offset + 1;
      ok := true;
    }

    /** The loop of parse_array, up to the closing bracket. */
    method ParseItems(ghost h0: Heap) returns (ok: bool, head: Ptr, current: Ptr, ghost xs: seq<Item>)
      requires Valid() && offset < |content| && h0 == mem.blocks
      modifies this`offset, this`depth, mem
      ensures mem.Valid() && offset <= |content|
      ensures Verdict(ok, mem.oom, offset, Grammar.ParseItems(content, old(offset), old(depth)))
      ensures ok ==> depth == old(depth) && offset < |content|
                     && OpenList(h0, mem.blocks, xs) && head == Head(xs) && current == Tail(xs)
                     && AllTyped(xs) && Values(xs) == Grammar.ParseItems(content, old(offset), old(depth)).value
      ensures !ok ==> mem.blocks == h0
      decreases |content| - offset, 2
    {
      hide OpenList, Filled, Grammar.ParseValue, Value, Typed, SkipWs, Vacant;
      head, current, xs := NULL, NULL, [];
      ghost var o, d := offset, depth;
      Empty(h0);
      PrependNothing(Grammar.ParseItems(content, o, d));
      while true
        invariant mem.Valid() && !mem.oom && o <= offset < |content|
        invariant OpenList(h0, mem.blocks, xs) && head == Head(xs) && current == Tail(xs)
        invariant AllTyped(xs) && depth == d
        invariant Grammar.ParseItems(content, o, d)
               == PrependItems(Values(xs), Grammar.ParseItems(content, offset, d))
        decreases |content| - offset
      {
        ghost var from := offset;
        var p;
        p, head, current := AppendItem(head, current, h0, xs);
        if p == NULL {
          Abandon(head, h0, xs);
          return false, head, current, xs;
        }
        offset := offset + 1;
        SkipWhitespace();
        ghost var h := mem.blocks;
        var parsed;
        ghost var y;
        parsed, y := ParseValue(current, Nothing);
        if !parsed {
          Abandon(head, h0, xs + [Bare(p)]);
          return false, head, current, xs;
        }
        LastFilled(h0, h, mem.blocks, xs, Bare(p), y);
        ValuesAppend(xs, y);
        ghost var next := offset;
        SkipWhitespace();
        NextItem(content, from, d, next, Values(xs), Value(y));
        xs := xs + [y];
        if !(offset < |content| && content[offset] == COMMA) {
          break;
        }
      }
      if offset >= |content| || content[offset] != RBRACKET {
        Abandon(head, h0, xs);
        return false, head, current, xs;
      }
      ok := true;
    }

    /** The name of the member behind the '{' or ',' at the cursor, up to its value. */
    method ParseName(current: Ptr, ghost h0: Heap, ghost xs: seq<Item>) returns (ok: bool, ghost named: Item)
      requires Valid() && offset < |content|
      requires OpenList(h0, mem.blocks, xs + [Bare(current)]) && Vacant(mem.blocks, current, Nothing)
      modifies this`offset, mem
      ensures mem.Valid() && offset <= |content|
      ensures Verdict(ok, mem.oom, offset, Grammar.ParseKey(content, old(offset)))
      ensures OpenList(h0, mem.blocks, xs + [named]) && named.addr == current
      ensures ok ==> named.key.Text? && named.key.s == Grammar.ParseKey(content, old(offset)).value
                     && named == Named(current, named.key.at, named.key.s)
                     && Vacant(mem.blocks, current, named.key)
    {
      hide Grammar.ParseString, OpenList, SkipWs;
      named := Bare(current);
      if offset + 1 >= |content| {
        return false, named;
      }
      offset := offset + 1;
      SkipWhitespace();
      ghost var at;
      ok, at := ParseString(current);
      if !ok {
        return;
      }
      SkipWhitespace();
      ghost var h := mem.blocks;
      mem.SetNode(current, mem.blocks[current].(key := mem.blocks[current].text));
      mem.SetNode(current, mem.blocks[current].(text := NULL));
      ghost var key := mem.blocks[at].s;
      LastNamed(h0, old(mem.blocks), mem.blocks, xs, current, at, key);
      named := Named(current, at, key);
      if offset >= |content| || content[offset] != COLON {
        return false, named;
      }
      offset := offset + 1;
      SkipWhitespace();
    }

    method ParseObject(item: Ptr, ghost key: Owned) returns (ok: bool, ghost x: Item)
      requires Valid() && Vacant(mem.blocks, item, key)
      requires offset < |content| && content[offset] == LBRACE
      modifies this`offset, this`depth, mem
      ensures mem.Valid() && offset <= |content|
      ensures Verdict(ok, mem.oom, offset, Grammar.ParseObject(content, old(offset), old(depth)))
      ensures ok ==> depth == old(depth) && Filled(old(mem.blocks), mem.blocks, item, key, x)
                     && Holds(x, Grammar.ParseObject(content, old(offset), old(depth)).value)
      ensures !ok ==> mem.blocks == old(mem.blocks)
      decreases |content| - offset, 3
    {
      hide OpenList, Filled, Vacant, Holds, SkipWs, Grammar.ParseMembers, Value, Typed;
      x := Bare(item);
      if depth >= NESTING_LIMIT {
        return false, x;
      }
      depth := depth + 1;
      offset := offset + 1;
      SkipWhitespace();
      var head, current := NULL, NULL;
      ghost var h0, xs := mem.blocks, [];
      Empty(h0);
      if !(offset < |content| && content[offset] == RBRACE) {
        if offset >= |content| {
          offset := offset - 1;
          return false, x;
        }
        offset := offset - 1;
        var parsed;
        parsed, head, current, xs := ParseMembers(h0);
        if !parsed {
          return false, x;
        }
      }
      x := Finish(item, head, current, ObjectKind, h0, xs, key);
      ObjectHolds(x);
      depth := depth - 1;
      offset := offset + 1;
      ok := true;
    }

    /** One turn of the member loop, up to the end of the value. */
    method ParseMember(head: Ptr, current: Ptr, ghost h0: Heap, ghost xs: seq<Item>)
      returns (ok: bool, head': Ptr, current': Ptr, ghost y: Item)
      requires Valid() && offset < |content| && OpenList(h0, mem.blocks, xs)
      requires head == Head(xs) && current == Tail(xs)
      modifies this`offset, this`depth, mem
      ensures mem.Valid() && offset <= |content|
      ensures Verdict(ok, mem.oom, offset, Grammar.ParseMember(content, old(offset), old(depth)))
      ensures ok ==> depth == old(depth) && OpenList(h0, mem.blocks, xs + [y])
                     && head' == Head(xs + [y]) && current' == Tail(xs + [y]) && Typed(y) && y.key.Text?
                     && Member(KeyOf(y), Value(y)) == Grammar.ParseMember(content, old(offset), old(depth)).value
      ensures !ok ==> mem.blocks == h0
      decreases |content| - offset, 1
    {
      hide OpenList, Filled, Grammar.ParseValue, Grammar.ParseKey, Value, Typed, Vacant;
      var p;
      p, head', current' := AppendItem(head, current, h0, xs);
      if p == NULL {
        Abandon(head', h0, xs);
        return false, head', current', Bare(p);
      }
      ghost var named;
      ok, named := ParseName(current', h0, xs);
      if !ok {
        Abandon(head', h0, xs + [named]);
        return false, head', current', named;
      }
      ghost var h := mem.blocks;
      ok, y := ParseValue(current', named.key);
      if !ok {
        Abandon(head', h0, xs + [named]);
        return;
      }
      LastFilled(h0, h, mem.blocks, xs, named, y);
      FilledKey(h, mem.blocks, current', named.key, y);
    }

    /** The loop of parse_object, up to the closing brace. */
    method ParseMembers(ghost h0: Heap) returns (ok: bool, head: Ptr, current: Ptr, ghost xs: seq<Item>)
      requires Valid() && offset < |content| && h0 == mem.blocks
      modifies this`offset, this`depth, mem
      ensures mem.Valid() && offset <= |content|
      ensures Verdict(ok, mem.oom, offset, Grammar.ParseMembers(content, old(offset), old(depth)))
      ensures ok ==> depth == old(depth) && offset < |content|
                     && OpenList(h0, mem.blocks, xs) && head == Head(xs) && current == Tail(xs)
                     && AllTyped(xs) && AllKeyed(xs)
                     && Members(xs) == Grammar.ParseMembers(content, old(offset), old(depth)).value
      ensures !ok ==> mem.blocks == h0
      decreases |content| - offset, 2
    {
      hide OpenList, Grammar.ParseMember, Grammar.ParseMembers, PrependMembers, Value, Typed, SkipWs;
      head, current, xs := NULL, NULL, [];
      ghost var o, d := offset, depth;
      Empty(h0);
      PrependNoMembers(Grammar.ParseMembers(content, o, d));
      while true
        invariant mem.Valid() && !mem.oom && o <= offset < |content|
        invariant OpenList(h0, mem.blocks, xs) && head == Head(xs) && current == Tail(xs)
        invariant AllTyped(xs) && AllKeyed(xs) && depth == d
        invariant Grammar.ParseMembers(content, o, d)
               == PrependMembers(Members(xs), Grammar.ParseMembers(content, offset, d))
        decreases |content| - offset
      {
        NextMember(content, offset, d, Members(xs));
        ghost var y;
        ok, head, current, y := ParseMember(head, current, h0, xs);
        if !ok {
          return false, head, current, xs;
        }
        ValuesAppend(xs, y);
        SkipWhitespace();
        xs := xs + [y];
        if !(offset < |content| && content[offset] == COMMA) {
          break;
        }
      }
      if offset >= |content| || content[offset] != RBRACE {
        Abandon(head, h0, xs);
        return false, head, current, xs;
      }
      ok := true;
    }
  }

  const NUMBER_BUFFER: nat := 64

  /** A scalar: at most a fresh string is owned besides the key. */
  lemma LeafFilled(h: Heap, h': Heap, p: Ptr, key: Owned, x: Item)
    requires NULL !in h && Vacant(h, p, key)
    requires x.addr == p && x.key == key && x.kids == [] && (x.text.Text? ==> x.text.at != NULL && x.text.at !in h)
    requires var node := Node(h[p].next, h[p].prev, NULL, x.kind, PtrOf(x.text), x.valueint, x.valuedouble, h[p].key);
             h' == if x.text.Text? then h[x.text.at := Str(x.text.s)][p := node] else h[p := node]
    ensures Filled(h, h', p, key, x)
  {
    assert ListAt(h', x.kids, Tail(x.kids));
    assert InnerAt(h', x);
    assert ListAddrs(x.kids) == {} && ListSep(x.kids);
    assert InnerAddrs(x) == OwnedAddrs(x.text) + OwnedAddrs(key);
  }

  /** A whole tree: its root has no siblings, it shares no block with the heap h it was built
      on, and it accounts for every block that is new. */
  ghost predicate BuiltOn(h: Heap, h': Heap, x: Item) {
    && ItemAt(h', x, NULL, NULL) && ItemSep(x)
    && ItemAddrs(x) !! h.Keys
    && h'.Keys == h.Keys + ItemAddrs(x)
    && forall q :: q in h ==> h'[q] == h[q]
  }

  lemma RootBuilt(h0: Heap, h: Heap, h': Heap, root: Ptr, x: Item)
    requires root != NULL && root !in h0 && h == h0[root := ZEROED] && Filled(h, h', root, Nothing, x)
    ensures BuiltOn(h0, h', x) && x.addr == root
  {
  }

  /** The root before anything was parsed into it. */
  lemma BareBuilt(h0: Heap, h: Heap, root: Ptr)
    requires root != NULL && root !in h0 && h == h0[root := ZEROED]
    ensures BuiltOn(h0, h, Bare(root))
  {
    var x := Bare(root);
    assert ListAt(h, x.kids, Tail(x.kids));
    assert InnerAt(h, x);
    assert ListAddrs(x.kids) == {} && ListSep(x.kids);
  }

  /** cJSON_ParseWithLengthOpts. `end` is where the text stopped being read, or where the error
      cJSON_GetErrorPtr reports is. */
  method ParseWithLengthOpts(mem: Memory, value: seq<byte>, requireNul: bool)
    returns (root: Ptr, end: nat, ghost x: Item)
    requires mem.Valid() && !mem.oom
    modifies mem
    ensures mem.Valid()
    ensures root == NULL ==> mem.blocks == old(mem.blocks)
    ensures root != NULL ==> !mem.oom && value != [] && ParseText(value, requireNul).Ok?
                             && root == x.addr && BuiltOn(old(mem.blocks), mem.blocks, x)
                             && Holds(x, ParseText(value, requireNul).value)
                             && end == ParseText(value, requireNul).next
    ensures root == NULL && !mem.oom && value != [] ==>
              ParseText(value, requireNul).Err? && end == ErrorPosition(value, ParseText(value, requireNul).at)
    ensures root == NULL && value != [] ==> end < |value|
  {
    hide Grammar.ParseValue, Filled, BuiltOn, Holds, SkipWs, SkipBom;
    x := Bare(NULL);
    if value == [] {
      return NULL, 0, x;
    }
    root := mem.NewItem();
    if root == NULL {
      return NULL, 0, x;
    }
    ghost var h := mem.blocks;
    var buffer := new ParseBuffer(mem, value);
    buffer.SkipUtf8Bom();
    buffer.SkipWhitespace();
    var ok;
    ok, x := buffer.ParseValue(root, Nothing);
    if ok {
      RootBuilt(old(mem.blocks), h, mem.blocks, root, x);
      if requireNul {
        buffer.SkipWhitespace();
        ok := buffer.offset < |value| && value[buffer.offset] == NUL;
      }
    } else {
      BareBuilt(old(mem.blocks), h, root);
      x := Bare(root);
    }
    end := if ok || buffer.offset < |value| then buffer.offset else |value| - 1;
    if !ok {
      RootDeletable(old(mem.blocks), mem.blocks, x);
      Lists.DeleteItem(mem, root, x, Tail(x.kids));
      root := NULL;
    }
  }

  lemma RootDeletable(h: Heap, h': Heap, x: Item)
    requires BuiltOn(h, h', x)
    ensures ItemSep(x) && Lists.Unfinished(h', x, Tail(x.kids)) && h'[x.addr].next == NULL
    ensures h' - ItemAddrs(x) == h
  {
    Lists.PresentIsFinished(h', x);
  }

  /** cJSON_Parse: the text up to its NUL, with the NUL. */
  method ParseCString(mem: Memory, value: CStr) returns (root: Ptr, end: nat, ghost x: Item)
    requires mem.Valid() && !mem.oom
    modifies mem
    ensures mem.Valid()
    ensures root == NULL ==> mem.blocks == old(mem.blocks)
    ensures root != NULL ==> !mem.oom && ParseText(value + [NUL], false).Ok? && root == x.addr
                             && BuiltOn(old(mem.blocks), mem.blocks, x)
                             && Holds(x, ParseText(value + [NUL], false).value)
    ensures root == NULL && !mem.oom ==> ParseText(value + [NUL], false).Err?
  {
    root, end, x := ParseWithLengthOpts(mem, value + [NUL], false);
  }

  /** Parse, use, delete: whatever the text and whichever allocation fails, the heap ends up as
      it was, every block having been freed exactly once. */
  method ParseAndDelete(mem: Memory, value: seq<byte>, requireNul: bool) returns (accepted: bool)
    requires mem.Valid() && !mem.oom
    modifies mem
    ensures mem.Valid() && mem.blocks == old(mem.blocks)
    ensures accepted ==> value != [] && ParseText(value, requireNul).Ok?
    ensures !mem.oom && value != [] ==> accepted == ParseText(value, requireNul).Ok?
  {
    hide BuiltOn;
    ghost var x;
    var root, end;
    root, end, x := ParseWithLengthOpts(mem, value, requireNul);
    accepted := root != NULL;
    if root != NULL {
      RootDeletable(old(mem.blocks), mem.blocks, x);
      Lists.DeleteItem(mem, root, x, Tail(x.kids));
    }
  }
}
