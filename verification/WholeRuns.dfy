/** Runs that go through several parts: print, minify, parse, compare, duplicate, delete. */
module WholeRuns {
  import opened Bytes
  import opened JsonTree
  import opened Rendering
  import opened Memory
  import opened Items
  import opened Grammar
  import opened Parser
  import opened Printer
  import opened Duplication
  import opened Comparison
  import opened CompareLaws
  import Lists
  import RoundTrip
  import Minifier
  import MinifyPrint

  /** A tree survives being printed, minified if it was formatted, and parsed back. The text is
      freed; the new tree holds the same value in blocks of its own, and cJSON_Compare sees no difference unless some
      object gives one name two meanings. */
  method PrintParseCompare(mem: Memory, item: Ptr, format: bool, minify: bool, reallocates: bool, ghost x: Item)
    returns (root: Ptr, equal: bool, printed: bool, ghost y: Item)
    requires mem.Valid() && !mem.oom && item != NULL && item == x.addr && Fit(mem.blocks, x)
    requires Depth(Value(x)) <= NESTING_LIMIT
    requires minify ==> MinifyPrint.Harmless(Value(x))
    modifies mem
    ensures mem.Valid()
    ensures root == NULL ==> mem.blocks == old(mem.blocks) && (printed ==> mem.oom)
    ensures root != NULL ==> printed && root == y.addr && BuiltOn(old(mem.blocks), mem.blocks, y)
                             && Value(y) == Value(x) && (equal <==> Uniform(Value(x)))
  {
    hide Render, Value, Typed, Present, BuiltOn, IntNumbers, Depth;
    root, equal, y := NULL, false, x;
    ghost var t := Value(x);
    ghost var h0 := mem.blocks;
    var at, text := Print(mem, item, format, reallocates, x);
    printed := text != null;
    if text == null {
      return;
    }
    var s := text[..text.Length - 1];
    assert s == Render(t, format, 0);
    RenderHasNoNul(t, format, 0);
    if minify {
      s := MinifyText(text, s, t, format);
    }
    RenderHasNoNul(t, format && !minify, 0);
    ghost var h1 := mem.blocks;
    var end;
    root, end, y := ParseCString(mem, s);
    RoundTrip.ParsePrint(t, format && !minify, false);
    ghost var h2 := mem.blocks;
    if root != NULL {
      TextFreed(h0, at, h1, h2, y);
    }
    mem.Free(at);
    if root == NULL {
      assert mem.blocks == h0;
    } else {
      ReadBack(h0, mem.blocks, x, y);
      equal := Compare(mem, item, root, x, y);
    }
  }

  /** The tree parsed from a text does not need the text any more. */
  lemma TextFreed(h0: Heap, at: Ptr, h1: Heap, h2: Heap, y: Item)
    requires at !in h0 && at in h1 && h1 == h0[at := h1[at]] && BuiltOn(h1, h2, y)
    ensures at in h2 && BuiltOn(h0, h2 - {at}, y)
  {
    ItemFrame(h2, h2 - {at}, y, NULL, NULL);
  }

  /** cJSON_Minify on a printed text. */
  method MinifyText(a: array<byte>, s: CStr, ghost t: Json, ghost format: bool) returns (r: CStr)
    requires IntNumbers(t) && MinifyPrint.Harmless(t)
    requires a[..] == s + [NUL] && s == Render(t, format, 0)
    modifies a
    ensures r == Render(t, false, 0)
  {
    hide Render;
    assert a[..|s|] == s;
    Minifier.MinifyInPlace(a, s);
    if format {
      MinifyPrint.MinifyUndoesFormatting(t);
    } else {
      MinifyPrint.MinifyKeepsUnformatted(t);
    }
    RenderHasNoNul(t, false, 0);
    ghost var m := Minifier.Minify(s);
    var n := ReadLength(a, m);
    r := a[..n];
  }

  /** strlen */
  method ReadLength(a: array<byte>, ghost m: CStr) returns (n: nat)
    requires |m| < a.Length && a[..|m|] == m && a[|m|] == NUL
    ensures n == |m|
  {
    n := 0;
    assert forall k :: 0 <= k < |m| ==> m[k] in m && a[..|m|][k] == m[k];
    while a[n] != NUL
      invariant 0 <= n <= |m|
      decreases |m| - n
    {
      n := n + 1;
    }
  }

  lemma ReadBack(h: Heap, h': Heap, x: Item, y: Item)
    requires Fit(h, x) && BuiltOn(h, h', y) && Holds(y, Value(x))
    ensures Fit(h', x) && Fit(h', y) && Present(h', x) && Present(h', y)
    ensures Compared(x, y) <==> Uniform(Value(x))
  {
    ItemFrame(h, h', x, h[x.addr].next, h[x.addr].prev);
    InnerIn(h, x);
    CompareExactly(h', x, y);
  }

  // ---- what was parsed can always be duplicated ----

  lemma {:induction false} LevelsWithinDepth(x: Item)
    requires Typed(x)
    ensures Levels(x) <= Depth(Value(x))
    decreases x, 1
  {
    if x.kids != [] {
      ListLevelsWithinDepth(x.kids);
    }
  }

  lemma {:induction false} ListLevelsWithinDepth(xs: seq<Item>)
    requires AllTyped(xs)
    ensures ListLevels(xs) <= 1 + ItemsDepth(Values(xs)) && ListLevels(xs) <= 1 + MembersDepth(Members(xs))
    decreases xs, 0
  {
    if xs != [] {
      LevelsWithinDepth(xs[0]);
      ListLevelsWithinDepth(xs[1..]);
      assert Values(xs)[1..] == Values(xs[1..]) && Members(xs)[1..] == Members(xs[1..]);
    }
  }

  lemma ParsedLevels(value: CStr, x: Item)
    requires ParseText(value + [NUL], false).Ok? && Holds(x, ParseText(value + [NUL], false).value)
    ensures Levels(x) <= CIRCULAR_LIMIT
  {
    hide ParseValue, Depth, Levels, Value;
    var c := value + [NUL];
    NestingBounded(c, SkipWs(c, SkipBom(c)), 0);
    LevelsWithinDepth(x);
  }

  /** Parse, duplicate, delete the original, delete the copy: the copy outlives the original, it
      fails only for want of memory, and in the end every block has been freed once. */
  method ParseCopyDelete(mem: Memory, value: CStr) returns (parsed: bool, copied: bool)
    requires mem.Valid() && !mem.oom
    modifies mem
    ensures mem.Valid() && mem.blocks == old(mem.blocks)
    ensures parsed && !mem.oom ==> copied
    ensures !mem.oom ==> parsed == ParseText(value + [NUL], false).Ok?
  {
    hide BuiltOn, Holds, Levels, ParseText;
    var root, end, copy;
    ghost var x, y;
    root, end, x := ParseCString(mem, value);
    parsed, copied := root != NULL, false;
    if root == NULL {
      return;
    }
    ParsedLevels(value, x);
    RootDeletable(old(mem.blocks), mem.blocks, x);
    ghost var h := mem.blocks;
    assert Present(h, x) by { Lists.PresentIsFinished(h, x); }
    copy, y := Duplicate(mem, root, true, x);
    copied := copy != NULL;
    if copy == NULL {
      Lists.DeleteItem(mem, root, x, Tail(x.kids));
      return;
    }
    ghost var both := mem.blocks;
    OriginalThenCopy(old(mem.blocks), h, both, x, y);
    Lists.DeleteItem(mem, root, x, Tail(x.kids));
    Lists.DeleteItem(mem, copy, y, Tail(y.kids));
  }

  lemma OriginalThenCopy(h0: Heap, h: Heap, both: Heap, x: Item, y: Item)
    requires BuiltOn(h0, h, x) && BuiltOn(h, both, y)
    ensures ItemSep(x) && Lists.Unfinished(both, x, Tail(x.kids)) && both[x.addr].next == NULL
    ensures var left := both - ItemAddrs(x);
            ItemSep(y) && Lists.Unfinished(left, y, Tail(y.kids))
            && left[y.addr].next == NULL && left - ItemAddrs(y) == h0
  {
    ItemFrame(h, both, x, NULL, NULL);
    Lists.PresentIsFinished(both, x);
    var left := both - ItemAddrs(x);
    ItemFrame(both, left, y, NULL, NULL);
    Lists.PresentIsFinished(left, y);
  }

  // ---- a name with two meanings ----

  /** {"a":1,"a":2} */
  function TwoMeanings(): Json {
    Object([Member([97], Number(1.0)), Member([97], Number(2.0))])
  }

  lemma TwoMeaningsParses(s: CStr)
    requires IntNumbers(TwoMeanings()) && s == Render(TwoMeanings(), false, 0)
    ensures ParseText(s + [NUL], false).Ok? && ParseText(s + [NUL], false).value == TwoMeanings()
  {
    var t := TwoMeanings();
    assert Depth(t) <= NESTING_LIMIT by { TwoMeaningsFits(); }
    RoundTrip.ParsePrint(t, false, false);
  }

  lemma TwoMeaningsFits()
    ensures IntNumbers(TwoMeanings()) && Depth(TwoMeanings()) == 1
  {
    var a, b := Member([97], Number(1.0)), Member([97], Number(2.0));
    var none: seq<Member> := [];
    FirstMember(b, none);
    FirstMember(a, [b]);
    assert [a] + [b] == [a, b] && [b] + none == [b];
  }

  lemma FirstMember(m: Member, ms: seq<Member>)
    requires m.value.Number? && MembersDepth(ms) == 0
    ensures MembersDepth([m] + ms) == 0
    ensures IsInt(m.value.d) && MembersIntNumbers(ms) ==> MembersIntNumbers([m] + ms)
  {
    assert ([m] + ms)[1..] == ms;
  }

  /** Unless memory runs out, a tree is built that does not compare equal to its own duplicate: two
      trees in one heap, alike in everything but their addresses. */
  method CopyComparesUnequal(mem: Memory) returns (root: Ptr, copy: Ptr, equal: bool, ghost x: Item, ghost y: Item)
    requires mem.Valid() && !mem.oom
    modifies mem
    ensures mem.Valid()
    ensures !mem.oom ==> root != NULL && root == x.addr && copy != NULL && copy == y.addr
                         && Fit(mem.blocks, x) && Fit(mem.blocks, y) && Erased(x) == Erased(y)
                         && !equal && !Compared(x, y)
  {
    hide Render, Compared, ParseText, BuiltOn, Fit;
    TwoMeaningsFits();
    RenderHasNoNul(TwoMeanings(), false, 0);
    var s: CStr := Render(TwoMeanings(), false, 0);
    TwoMeaningsParses(s);
    copy, equal := NULL, false;
    var end;
    ghost var h0 := mem.blocks;
    root, end, x := ParseCString(mem, s);
    y := x;
    if root == NULL {
      return;
    }
    ghost var h := mem.blocks;
    ParsedLevels(s, x);
    TreeIsFit(h0, h, x);
    RepeatedNamesCanDisagree();
    copy, y := Duplicate(mem, root, true, x);
    if copy != NULL {
      CopyCompares(h, mem.blocks, x, y);
      assert Present(mem.blocks, x) && Present(mem.blocks, y) by {
        FitIsPresent(mem.blocks, x);
        FitIsPresent(mem.blocks, y);
      }
      equal := Compare(mem, root, copy, x, y);
    }
  }

  lemma TreeIsFit(h0: Heap, h: Heap, x: Item)
    requires BuiltOn(h0, h, x) && Holds(x, TwoMeanings())
    ensures Fit(h, x) && Present(h, x) && Value(x) == TwoMeanings()
  {
    TwoMeaningsFits();
    Lists.PresentIsFinished(h, x);
  }

  lemma FitIsPresent(h: Heap, x: Item)
    requires Fit(h, x)
    ensures Present(h, x)
  {
  }
}
