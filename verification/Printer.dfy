/** The printer as the C code runs it: two passes per string, a buffer that is either the caller's
    and fixed or regrown by realloc or by hand, and offsets recovered by strlen. Every write is
    inside the buffer, what has been printed survives each growth, and exactly one buffer is
    allocated at any time. What each print function has to add is the rendering of its item; that
    is what `Added` and `Advanced` say. */
module Printer {
  import opened Bytes
  import opened JsonTree
  import opened Rendering
  import opened Memory
  import opened Items
  import JsonStrings
  import Numbers
  import ListEdits

  lemma TailHasNoNul(text: seq<byte>, one: seq<byte>)
    requires NUL !in one
    ensures forall k :: |text| <= k < |text + one| ==> (text + one)[k] != NUL
  {
    forall k | |text| <= k < |text + one| ensures (text + one)[k] != NUL {
      assert (text + one)[k] in one;
    }
  }

  lemma PresentNode(h: Heap, x: Item)
    requires Present(h, x)
    ensures x.addr in h && h[x.addr].Node? && h[x.addr].child == Head(x.kids)
  {
  }

  lemma OpenLength(fmt: bool)
    ensures |Open(fmt)| <= 2
  {
  }

  /** The text printed so far and the elements still to come make up the whole. */
  ghost predicate ItemsLeft(xs: seq<Item>, i: nat, fmt: bool, d: nat, text: seq<byte>, whole: seq<byte>) {
    && i <= |xs| && ItemsIntNumbers(Values(xs[i..]))
    && text + RenderItems(Values(xs[i..]), fmt, d) == whole
  }

  lemma ItemsStart(h: Heap, x: Item, fmt: bool, d: nat, text: seq<byte>)
    requires Present(h, x) && ItemsIntNumbers(Values(x.kids))
    ensures ItemsLeft(x.kids, 0, fmt, d, text, text + RenderItems(Values(x.kids), fmt, d))
    ensures x.kids[0..] == x.kids && (Head(x.kids) == NULL <==> x.kids == [])
  {
    assert x.kids[0..] == x.kids;
    if x.kids != [] {
      ListEdits.ChildAt(h, x, 0);
    }
  }

  lemma ItemsEnd(xs: seq<Item>, fmt: bool, d: nat, text: seq<byte>, whole: seq<byte>)
    requires ItemsLeft(xs, |xs|, fmt, d, text, whole)
    ensures text == whole
  {
    NoItems(xs[|xs|..], fmt, d);
    assert text + [] == text;
  }

  /** One turn of the element loop, seen from the rendering. */
  lemma ItemsStep(xs: seq<Item>, i: nat, fmt: bool, d: nat, text: seq<byte>, whole: seq<byte>)
    requires ItemsLeft(xs, i, fmt, d, text, whole) && i < |xs|
    ensures IntNumbers(Value(xs[i]))
    ensures var one, sep := Render(Value(xs[i]), fmt, d), ItemSeparator(fmt);
            |text| + |one| <= |whole|
            && (i + 1 < |xs| ==> |text| + |one| + |sep| + 1 <= |whole|)
            && ItemsLeft(xs, i + 1, fmt, d, if i + 1 == |xs| then text + one else text + one + sep, whole)
  {
    assert xs[i..][1..] == xs[i + 1..];
    var ts, us := Values(xs[i..]), Values(xs[i + 1..]);
    assert ts[0] == Value(xs[i]) && ts[1..] == us;
    var one, sep, rest := Render(Value(xs[i]), fmt, d), ItemSeparator(fmt), RenderItems(us, fmt, d);
    if i + 1 < |xs| {
      assert us[0] == Value(xs[i + 1]) by { ValuesAt(xs[i + 1..], 0); }
      RenderHasNoNul(us[0], fmt, d);
      Assoc(text + one, sep, rest);
      Assoc(text, one, sep + rest);
    }
  }

  class PrintBuffer {
    const mem: Memory
    /** The blocks there were before the first buffer, which printing only reads. */
    const heap: Heap
    /** The block of a growing buffer, and the bytes in it. */
    var block: Ptr
    var buffer: array?<byte>
    var length: nat
    var offset: nat
    var depth: nat
    const noalloc: bool
    const format: bool
    /** Whether hooks->reallocate is available. */
    const reallocates: bool
    /** Set once an allocation has failed. */
    var oom: bool

    /** Beside the blocks there were, exactly the growing buffer is allocated. */
    ghost predicate Accounted()
      reads this, mem
    {
      && mem.Valid()
      && if noalloc || buffer == null then mem.blocks == heap
         else block != NULL && block !in heap && mem.blocks == heap[block := Space(buffer.Length)]
    }

    ghost predicate Valid()
      reads this, mem
    {
      && Accounted()
      && buffer != null && length == buffer.Length && length <= INT_MAX
      && (offset < length || (offset == length == 0 && (noalloc || reallocates)))
      && !oom
    }

    /** How far the text may reach, two bytes of slack included. */
    ghost function Limit(): int
      reads this
    {
      if noalloc then length else INT_MAX
    }

    /** The text printed so far. */
    ghost function Text(): seq<byte>
      requires buffer != null && offset <= buffer.Length
      reads this`buffer, this`offset, buffer
    {
      buffer[..offset]
    }

    /** The buffer holds the C string s. */
    ghost predicate HoldsText(s: seq<byte>)
      requires buffer != null
      reads this`buffer, buffer
    {
      |s| < buffer.Length && buffer[..|s|] == s && buffer[|s|] == NUL
    }

    constructor (mem: Memory, heap: Heap, block: Ptr, buffer: array<byte>,
                 noalloc: bool, format: bool, reallocates: bool)
      requires buffer.Length <= INT_MAX && (noalloc || reallocates || buffer.Length > 0)
      requires mem.Valid()
      requires if noalloc then mem.blocks == heap
               else block != NULL && block !in heap && mem.blocks == heap[block := Space(buffer.Length)]
      ensures Valid() && this.mem == mem && this.heap == heap && this.buffer == buffer
      ensures this.noalloc == noalloc && this.format == format && this.reallocates == reallocates
      ensures offset == 0 && depth == 0
    {
      this.mem, this.heap, this.block, this.buffer, length, offset, depth :=
        mem, heap, block, buffer, buffer.Length, 0, 0;
      this.noalloc, this.format, this.reallocates := noalloc, format, reallocates;
      oom := false;
    }

    /** What is left when a buffer is freed. */
    lemma Freed(h: Heap)
      requires buffer != null && block !in heap && h == heap[block := Space(buffer.Length)]
      ensures h - {block} == heap
    {
    }

    /** hooks->deallocate on the buffer, if there is one. */
    method FreeBuffer()
      requires Accounted() && !noalloc
      modifies this`buffer, this`length, mem
      ensures mem.Valid() && mem.blocks == heap && mem.oom == old(mem.oom)
      ensures buffer == null && length == 0 && Accounted()
    {
      if buffer != null {
        Freed(mem.blocks);
        mem.Free(block);
      }
      buffer, length := null, 0;
    }

    /** realloc: the old contents, as far as they fit, then anything; the block is replaced. */
    method Reallocate(size: nat) returns (p: Ptr, bytes: array?<byte>)
      requires Valid() && !noalloc
      modifies mem
      ensures mem.Valid() && (p == NULL <==> bytes == null)
      ensures p == NULL ==> mem.oom && mem.blocks == old(mem.blocks)
      ensures p != NULL ==> p !in heap && mem.blocks == heap[p := Space(size)] && mem.oom == old(mem.oom)
      ensures bytes != null ==> fresh(bytes) && bytes.Length == size
                                && bytes[..Min(length, size)] == buffer[..Min(length, size)]
    {
      bytes := null;
      Freed(mem.blocks);
      p := mem.Reallocate(block, size);
      if p != NULL {
        bytes := CopyOf(size, Min(length, size));
      }
    }

    /** hooks->allocate, memcpy of the first n bytes, hooks->deallocate. */
    method AllocateAndCopy(size: nat, n: nat) returns (p: Ptr, bytes: array?<byte>)
      requires Valid() && !noalloc && n <= length && n <= size
      modifies mem
      ensures mem.Valid() && (p == NULL <==> bytes == null)
      ensures p == NULL ==> mem.oom && mem.blocks == old(mem.blocks)
      ensures p != NULL ==> p !in heap && mem.blocks == heap[p := Space(size)] && mem.oom == old(mem.oom)
      ensures bytes != null ==> fresh(bytes) && bytes.Length == size && bytes[..n] == buffer[..n]
    {
      bytes := null;
      p := mem.Allocate(Space(size));
      if p != NULL {
        bytes := CopyOf(size, n);
        mem.Free(block);
        assert mem.blocks == heap[p := Space(size)];
      }
    }

    method CopyOf(size: nat, n: nat) returns (bytes: array<byte>)
      requires buffer != null && n <= size && n <= buffer.Length
      ensures fresh(bytes) && bytes.Length == size && bytes[..n] == buffer[..n]
    {
      bytes := new byte[size];
      var i := 0;
      while i < n
        invariant 0 <= i <= n
        invariant bytes[..i] == buffer[..i]
        modifies bytes
      {
        bytes[i] := buffer[i];
        i := i + 1;
      }
    }

    /** Room for `needed` more bytes and one: there is, or the buffer grows, or this fails; the old
        buffer is freed when it is replaced and when it cannot be. */
    method Ensure(needed: nat) returns (ok: bool)
      requires Valid()
      modifies this`block, this`buffer, this`length, this`oom, mem
      ensures Accounted() && (oom ==> mem.oom) && (!oom ==> mem.oom == old(mem.oom))
      ensures noalloc ==> buffer == old(buffer) && length == old(length) && !oom
      ensures ok <==> !oom && offset + needed + 1 <= Limit()
      ensures ok ==> Valid() && offset + needed < length && (buffer == old(buffer) || fresh(buffer))
                     && Text() == old(Text())
      ensures buffer == null <==> oom
      ensures buffer == old(buffer) || buffer == null || fresh(buffer)
    {
      if length > 0 && offset >= length {
        return false;
      }
      if needed > INT_MAX {
        return false;
      }
      var total := needed + offset + 1;
      if total <= length {
        return true;
      }
      if noalloc {
        return false;
      }
      var newsize;
      if total > INT_MAX / 2 {
        if total <= INT_MAX {
          newsize := INT_MAX;
        } else {
          return false;
        }
      } else {
        newsize := total * 2;
      }
      ok := Grow(newsize);
    }

    /** By realloc if there is one, else by hand. */
    method Grow(newsize: nat) returns (ok: bool)
      requires Valid() && !noalloc && length < newsize <= INT_MAX && offset < newsize
      modifies this`block, this`buffer, this`length, this`oom, mem
      ensures Accounted() && (oom ==> mem.oom) && (!oom ==> mem.oom == old(mem.oom))
      ensures ok <==> !oom
      ensures ok ==> Valid() && length == newsize && fresh(buffer) && Text() == old(Text())
      ensures !ok ==> buffer == null
    {
      var newblock, newbuffer;
      if reallocates {
        newblock, newbuffer := Reallocate(newsize);
        if newbuffer != null {
          assert newbuffer[..offset] == newbuffer[..length][..offset];
          assert buffer[..offset] == buffer[..length][..offset];
        }
      } else {
        newblock, newbuffer := AllocateAndCopy(newsize, offset + 1);
        if newbuffer != null {
          assert newbuffer[..offset] == newbuffer[..offset + 1][..offset];
        }
      }
      if newbuffer == null {
        FreeBuffer();
        oom := true;
        return false;
      }
      length, block, buffer := newsize, newblock, newbuffer;
      ok := true;
    }

    /** strlen from the offset. */
    method UpdateOffset(ghost s: seq<byte>)
      requires Valid() && HoldsText(s) && offset <= |s|
      requires forall k :: offset <= k < |s| ==> s[k] != NUL
      modifies this`offset
      ensures Valid() && offset == |s| && Text() == s && HoldsText(s)
    {
      while buffer[offset] != NUL
        invariant offset <= |s|
        decreases |s| - offset
      {
        offset := offset + 1;
      }
    }

    /** memcpy into the buffer. */
    method Store(at: nat, s: seq<byte>)
      requires buffer != null && at + |s| <= buffer.Length
      modifies buffer
      ensures buffer[..at] == old(buffer[..at])
      ensures buffer[at..at + |s|] == s
      ensures buffer[at + |s|..] == old(buffer[at + |s|..])
    {
      var i := 0;
      while i < |s|
        invariant 0 <= i <= |s|
        invariant buffer[..at] == old(buffer[..at])
        invariant buffer[at..at + i] == s[..i]
        invariant buffer[at + |s|..] == old(buffer[at + |s|..])
      {
        buffer[at + i] := s[i];
        i := i + 1;
      }
    }

    /** strcpy of s behind the text; the offset stays. */
    method StoreString(s: seq<byte>)
      requires Valid() && offset + |s| < length
      modifies buffer
      ensures Valid() && Text() == old(Text()) && HoldsText(old(Text()) + s)
    {
      Store(offset, s + [NUL]);
      var t := s + [NUL];
      assert buffer[offset..offset + |s|] == buffer[offset..offset + |t|][..|s|];
      assert buffer[offset + |s|] == buffer[offset..offset + |t|][|s|];
      assert buffer[..offset + |s|] == buffer[..offset] + buffer[offset..offset + |s|];
    }

    /** What becomes of the buffer: a fixed one stays, a growing one may be another or, when an
        allocation has failed, gone and freed. */
    twostate predicate Kept()
      reads this, mem
    {
      && Accounted() && (oom ==> mem.oom) && (!oom ==> mem.oom == old(mem.oom))
      && (noalloc ==> buffer == old(buffer) && length == old(length) && !oom)
      && (buffer == null <==> oom)
      && (buffer == old(buffer) || buffer == null || fresh(buffer))
    }

    /** What a print function that has to put r behind the text promises. The offset may lag behind. */
    twostate predicate Added(ok: bool, prefix: seq<byte>, r: seq<byte>)
      reads this, mem, buffer
    {
      && Kept()
      && (ok <==> !oom && |prefix| + |r| + 2 <= Limit())
      && (ok ==> Valid() && HoldsText(prefix + r) && |prefix| <= offset <= |prefix| + |r|)
    }

    /** The same for a part that at least one more byte follows: the text has moved past it. */
    twostate predicate Advanced(ok: bool, prefix: seq<byte>, r: seq<byte>)
      reads this, mem, buffer
    {
      && Kept()
      && (!ok ==> oom || |prefix| + |r| + 1 + 2 > Limit())
      && (ok ==> Valid() && Text() == prefix + r)
    }

    method PrintKeyword(s: seq<byte>) returns (ok: bool)
      requires Valid()
      modifies this`block, this`buffer, this`length, this`offset, this`oom, mem, buffer
      ensures Added(ok, old(Text()), s)
    {
      ok := Ensure(|s| + 1);
      if ok {
        StoreString(s);
      }
    }

    method PrintNumber(item: Ptr, ghost x: Item) returns (ok: bool)
      requires Valid() && item == x.addr && Present(heap, x) && Typed(x)
      requires x.kind == NumberKind && IsInt(x.valuedouble)
      modifies this`block, this`buffer, this`length, this`offset, this`oom, mem, buffer
      ensures Added(ok, old(Text()), Numbers.PrintInt(x.valuedouble.Floor))
    {
      ghost var prefix := Text();
      var number := Numbers.PrintInt(heap[item].valueint);
      Numbers.IntLength(x.valueint);
      ok := Ensure(|number| + 1);
      if !ok {
        return;
      }
      StoreString(number);
      offset := offset + |number|;
    }

    /** Renders a C string, or a NULL as the empty one, as a literal behind the text. */
    method PrintStringPtr(input: Ptr) returns (ok: bool)
      requires Valid() && (input != NULL ==> input in heap && heap[input].Str?)
      modifies this`block, this`buffer, this`length, this`offset, this`oom, mem, buffer
      ensures Added(ok, old(Text()), JsonStrings.Quoted(if input == NULL then [] else heap[input].s))
    {
      assert |Text()| == offset;
      hide Text, HoldsText, JsonStrings.Escaped;
      if input == NULL {
        assert JsonStrings.Escaped([]) == [] by { NothingToEscape(); }
        ok := Ensure(3);
        if ok {
          StoreString([QUOTE, QUOTE]);
        }
        return;
      }
      var s := heap[input].s;
      var extra := JsonStrings.CountEscapes(s);
      var outputLength := |s| + extra;
      ok := Ensure(outputLength + 3);
      if !ok {
        return;
      }
      if extra == 0 {
        JsonStrings.NothingEscaped(s);
        StoreString([QUOTE] + s + [QUOTE]);
        return;
      }
      WriteEscaped(s);
    }

    /** One character of the string, escaped if need be. The \u form is written by sprintf,
        which leaves a NUL behind it. */
    method WriteEscapedByte(pos: nat, b: byte) returns (next: nat)
      requires buffer != null && pos + |JsonStrings.EscapeByte(b)| < buffer.Length
      modifies buffer
      ensures next == pos + |JsonStrings.EscapeByte(b)|
      ensures buffer[..next] == old(buffer[..pos]) + JsonStrings.EscapeByte(b)
    {
      if b > 31 && b != QUOTE && b != BACKSLASH {
        buffer[pos] := b;
        return pos + 1;
      }
      buffer[pos] := BACKSLASH;
      match JsonStrings.ShortEscape(b) {
        case Some(letter) =>
          buffer[pos + 1] := letter;
          next := pos + 2;
        case None =>
          var hex := JsonStrings.EscapeByte(b)[1..];
          assert buffer[..pos + 1] == old(buffer[..pos]) + [BACKSLASH];
          Store(pos + 1, hex + [NUL]);
          Spliced(buffer[..], old(buffer[..pos]), BACKSLASH, hex);
          next := pos + 6;
      }
    }

    lemma Spliced(b: seq<byte>, before: seq<byte>, first: byte, rest: seq<byte>)
      requires |before| + |rest| + 2 <= |b|
      requires b[..|before| + 1] == before + [first]
      requires b[|before| + 1..|before| + 2 + |rest|] == rest + [NUL]
      ensures b[..|before| + 1 + |rest|] == before + ([first] + rest)
    {
      var p := |before|;
      assert b[..p + 1 + |rest|] == b[..p + 1] + b[p + 1..p + 2 + |rest|][..|rest|];
      Assoc(before, [first], rest);
    }

    /** The escaping pass. */
    method WriteEscaped(s: seq<byte>)
      requires Valid() && offset + |JsonStrings.Quoted(s)| + 1 < length
      modifies buffer
      ensures Valid() && Text() == old(Text()) && HoldsText(old(Text()) + JsonStrings.Quoted(s))
    {
      hide JsonStrings.EscapeByte, JsonStrings.Escaped;
      ghost var whole, prefix := JsonStrings.Quoted(s), Text();
      buffer[offset] := QUOTE;
      var pos := offset + 1;
      var i := 0;
      assert s[0..] == s;
      QuotedFrom(s, prefix);
      assert buffer[..pos] == prefix + [QUOTE];
      while i < |s|
        invariant 0 <= i <= |s| && offset < pos < buffer.Length
        invariant buffer[..pos] + (JsonStrings.Escaped(s[i..]) + [QUOTE]) == prefix + whole
      {
        ghost var done := buffer[..pos];
        EscapedStep(s, i, done, prefix + whole);
        pos := WriteEscapedByte(pos, s[i]);
        i := i + 1;
      }
      assert s[i..] == [];
      assert JsonStrings.Escaped([]) + [QUOTE] == [QUOTE] by { NothingToEscape(); }
      ghost var done := buffer[..pos];
      buffer[pos] := QUOTE;
      buffer[pos + 1] := NUL;
      assert buffer[..pos + 1] == done + [QUOTE];
      Behind(buffer[..], prefix, whole);
    }

    lemma Behind(b: seq<byte>, prefix: seq<byte>, s: seq<byte>)
      requires |prefix| + |s| <= |b| && b[..|prefix| + |s|] == prefix + s
      ensures b[..|prefix|] == prefix
    {
      assert b[..|prefix|] == b[..|prefix| + |s|][..|prefix|];
    }

    lemma QuotedFrom(s: seq<byte>, prefix: seq<byte>)
      ensures (prefix + [QUOTE]) + (JsonStrings.Escaped(s) + [QUOTE]) == prefix + JsonStrings.Quoted(s)
    {
      Assoc(prefix, [QUOTE], JsonStrings.Escaped(s) + [QUOTE]);
      Assoc([QUOTE], JsonStrings.Escaped(s), [QUOTE]);
    }

    lemma NothingToEscape()
      ensures JsonStrings.Escaped([]) == [] && JsonStrings.Escaped([]) + [QUOTE] == [QUOTE]
    {
    }

    lemma EscapedStep(s: seq<byte>, i: nat, done: seq<byte>, whole: seq<byte>)
      requires i < |s| && done + (JsonStrings.Escaped(s[i..]) + [QUOTE]) == whole
      ensures done + JsonStrings.EscapeByte(s[i]) + (JsonStrings.Escaped(s[i + 1..]) + [QUOTE]) == whole
    {
      assert s[i..][1..] == s[i + 1..];
      Assoc(JsonStrings.EscapeByte(s[i]), JsonStrings.Escaped(s[i + 1..]), [QUOTE]);
      Assoc(done, JsonStrings.EscapeByte(s[i]), JsonStrings.Escaped(s[i + 1..]) + [QUOTE]);
    }

    /** The text in a buffer of its exact size: by realloc, or by allocating, copying and freeing. */
    method Trim() returns (p: Ptr, printed: array?<byte>)
      requires Valid() && !noalloc && offset < length && buffer[offset] == NUL
      modifies this`buffer, this`length, mem
      ensures mem.Valid() && (p == NULL <==> printed == null)
      ensures p == NULL ==> mem.oom && mem.blocks == heap
      ensures p != NULL ==> p !in heap && mem.blocks == heap[p := Space(printed.Length)] && mem.oom == old(mem.oom)
      ensures printed != null ==> fresh(printed) && printed[..] == old(Text()) + [NUL]
    {
      var size := offset + 1;
      assert Min(length, size) == size;
      if reallocates {
        p, printed := Reallocate(size);
      } else {
        p, printed := AllocateAndCopy(size, Min(length, size));
      }
      if p == NULL {
        FreeBuffer();
        return;
      }
      assert buffer[..size] == buffer[..offset] + [NUL];
      if !reallocates {
        printed[offset] := NUL;
      }
      assert printed[..] == printed[..offset] + [printed[offset]];
      assert printed[..offset] == printed[..size][..offset];
      buffer, length := null, 0;
    }

    /** print_value */
    method PrintValue(item: Ptr, ghost x: Item) returns (ok: bool)
      requires Valid() && item == x.addr && Present(heap, x) && Typed(x) && IntNumbers(Value(x))
      modifies this`block, this`buffer, this`length, this`offset, this`depth, this`oom, mem, buffer
      ensures Added(ok, old(Text()), Render(Value(x), format, old(depth)))
      ensures ok ==> depth == old(depth)
      decreases x, 3
    {
      match heap[item].kind
      case NullKind => ok := PrintKeyword(TEXT_NULL);
      case FalseKind => ok := PrintKeyword(TEXT_FALSE);
      case TrueKind => ok := PrintKeyword(TEXT_TRUE);
      case NumberKind => ok := PrintNumber(item, x);
      case StringKind =>
        assert InnerAt(heap, x);
        ok := PrintStringPtr(heap[item].text);
      case ArrayKind => ok := PrintArray(item, x);
      case ObjectKind => ok := PrintObject(item, x);
      case InvalidKind => ok := false;
    }

    /** print_value and update_offset: the text moves past the value. */
    method PrintElement(item: Ptr, ghost x: Item) returns (ok: bool)
      requires Valid() && item == x.addr && Present(heap, x) && Typed(x) && IntNumbers(Value(x))
      modifies this`block, this`buffer, this`length, this`offset, this`depth, this`oom, mem, buffer
      ensures Kept()
      ensures ok <==> !oom && |old(Text())| + |Render(Value(x), format, old(depth))| + 2 <= Limit()
      ensures ok ==> depth == old(depth) && Valid() && Text() == old(Text()) + Render(Value(x), format, old(depth))
                     && buffer[offset] == NUL
      decreases x, 4
    {
      ghost var prefix, one := Text(), Render(Value(x), format, depth);
      ok := PrintValue(item, x);
      if ok {
        RenderHasNoNul(Value(x), format, depth);
        TailHasNoNul(prefix, one);
        UpdateOffset(prefix + one);
      }
    }

    /** ensure, write s (and a NUL if there is to be one), move the offset past s. */
    method Append(s: seq<byte>, needed: nat, terminate: bool) returns (ok: bool)
      requires Valid() && |s| + (if terminate then 1 else 0) <= needed
      modifies this`block, this`buffer, this`length, this`offset, this`oom, mem, buffer
      ensures Kept()
      ensures ok <==> !oom && |old(Text())| + needed + 1 <= Limit()
      ensures ok ==> Valid() && Text() == old(Text()) + s
    {
      ok := Ensure(needed);
      if !ok {
        return;
      }
      ghost var prefix := Text();
      Store(offset, s);
      assert buffer[..offset + |s|] == buffer[..offset] + buffer[offset..offset + |s|];
      if terminate {
        buffer[offset + |s|] := NUL;
      }
      offset := offset + |s|;
      assert Text() == prefix + s;
    }

    method PrintArray(item: Ptr, ghost x: Item) returns (ok: bool)
      requires Valid() && item == x.addr && Present(heap, x) && Typed(x)
      requires x.kind == ArrayKind && ItemsIntNumbers(Values(x.kids))
      modifies this`block, this`buffer, this`length, this`offset, this`depth, this`oom, mem, buffer
      ensures Added(ok, old(Text()), Render(Array(Values(x.kids)), format, old(depth)))
      ensures ok ==> depth == old(depth)
      decreases x, 2
    {
      hide Text, HoldsText, Present, Typed, AllTyped, Render, RenderItems, Values, ItemsIntNumbers;
      PresentNode(heap, x);
      ghost var prefix, r := Text(), RenderItems(Values(x.kids), format, depth + 1);
      ghost var whole := Render(Array(Values(x.kids)), format, depth);
      ArrayText(x, format, depth, prefix);
      ok := Append([LBRACKET], 1, false);
      if !ok {
        return;
      }
      depth := depth + 1;
      ok := PrintItems(heap[item].child, x);
      if !ok {
        return;
      }
      ok := PrintKeyword([RBRACKET]);
      depth := depth - 1;
    }

    /** The element loop of print_array. */
    method PrintItems(first: Ptr, ghost x: Item) returns (ok: bool)
      requires Valid() && Present(heap, x) && first == Head(x.kids) && AllTyped(x.kids)
      requires ItemsIntNumbers(Values(x.kids))
      modifies this`block, this`buffer, this`length, this`offset, this`depth, this`oom, mem, buffer
      ensures Advanced(ok, old(Text()), RenderItems(Values(x.kids), format, old(depth)))
      ensures ok ==> depth == old(depth)
      decreases x, 1
    {
      hide Text, HoldsText, ItemsLeft, Present, Typed, AllTyped, Values, RenderItems, ItemsIntNumbers;
      var current := first;
      ghost var prefix, d, xs, i := Text(), depth, x.kids, 0;
      ghost var whole := prefix + RenderItems(Values(xs), format, d);
      ItemsStart(heap, x, format, d, prefix);
      while current != NULL
        invariant 0 <= i <= |xs| && current == Head(xs[i..]) && (current == NULL <==> i == |xs|)
        invariant Valid() && Kept() && depth == d && ItemsLeft(xs, i, format, d, Text(), whole)
        decreases |xs| - i
      {
        ItemsStep(xs, i, format, d, Text(), whole);
        ChildReady(heap, x, i);
        ok := PrintElement(current, xs[i]);
        if !ok {
          return;
        }
        var next := heap[current].next;
        if next != NULL {
          var separator := ItemSeparator(format);
          ok := Append(separator, |separator| + 1, true);
          if !ok {
            return;
          }
        }
        current := next;
        i := i + 1;
      }
      ItemsEnd(xs, format, d, Text(), whole);
      ok := true;
    }

    method PrintObject(item: Ptr, ghost x: Item) returns (ok: bool)
      requires Valid() && item == x.addr && Present(heap, x) && Typed(x)
      requires x.kind == ObjectKind && MembersIntNumbers(Members(x.kids))
      modifies this`block, this`buffer, this`length, this`offset, this`depth, this`oom, mem, buffer
      ensures Added(ok, old(Text()), Render(Object(Members(x.kids)), format, old(depth)))
      ensures ok ==> depth == old(depth)
      decreases x, 2
    {
      hide Text, HoldsText, Present, Typed, AllTyped, AllKeyed, Render,
           RenderMembers, Members, MembersIntNumbers, Open, Close;
      OpenLength(format);
      ghost var prefix, r := Text(), RenderMembers(Members(x.kids), format, depth + 1);
      ghost var whole := Render(Object(Members(x.kids)), format, depth);
      ObjectText(x, format, depth, prefix);
      var open, close := Open(format), Close(format, depth);
      ok := PrintBody(item, x, open);
      if !ok {
        return;
      }
      ok := PrintKeyword(close);
      depth := depth - 1;
    }

    /** Everything but the closing brace, one level deeper. */
    method PrintBody(item: Ptr, ghost x: Item, open: seq<byte>) returns (ok: bool)
      requires Valid() && item == x.addr && Present(heap, x) && AllTyped(x.kids) && AllKeyed(x.kids)
      requires MembersIntNumbers(Members(x.kids)) && |open| <= 2
      modifies this`block, this`buffer, this`length, this`offset, this`depth, this`oom, mem, buffer
      ensures Kept()
      ensures var body := open + RenderMembers(Members(x.kids), format, old(depth) + 1);
              (!ok ==> oom || |old(Text())| + |body| + 1 + 2 > Limit())
              && (ok ==> Valid() && Text() == old(Text()) + body && depth == old(depth) + 1)
      decreases x, 2, 0
    {
      hide Text, HoldsText, Present, AllTyped, AllKeyed, RenderMembers, Members, MembersIntNumbers;
      PresentNode(heap, x);
      ghost var prefix, r := Text(), RenderMembers(Members(x.kids), format, depth + 1);
      Assoc(prefix, open, r);
      assert |open + r| == |open| + |r|;
      ok := Append(open, |open| + 1, false);
      if !ok {
        return;
      }
      depth := depth + 1;
      ok := PrintMembers(heap[item].child, x);
    }

    /** The key of a member, and the text moves past it. */
    method PrintKey(key: Ptr, ghost s: CStr) returns (ok: bool)
      requires Valid() && key in heap && heap[key] == Str(s) && key != NULL
      modifies this`block, this`buffer, this`length, this`offset, this`oom, mem, buffer
      ensures Kept()
      ensures ok <==> !oom && |old(Text())| + |JsonStrings.Quoted(s)| + 2 <= Limit()
      ensures ok ==> Valid() && Text() == old(Text()) + JsonStrings.Quoted(s)
    {
      ghost var prefix := Text();
      ok := PrintStringPtr(key);
      if ok {
        QuotedHasNoNul(s);
        TailHasNoNul(prefix, JsonStrings.Quoted(s));
        UpdateOffset(prefix + JsonStrings.Quoted(s));
      }
    }

    /** The member loop of print_object. */
    method PrintMembers(first: Ptr, ghost x: Item) returns (ok: bool)
      requires Valid() && Present(heap, x) && first == Head(x.kids) && AllTyped(x.kids) && AllKeyed(x.kids)
      requires MembersIntNumbers(Members(x.kids))
      modifies this`block, this`buffer, this`length, this`offset, this`depth, this`oom, mem, buffer
      ensures Advanced(ok, old(Text()), RenderMembers(Members(x.kids), format, old(depth)))
      ensures ok ==> depth == old(depth)
      decreases x, 1
    {
      hide Text, HoldsText, MembersLeft, Present, Typed, AllTyped, AllKeyed, Members,
           RenderMembers, MembersIntNumbers, MemberText;
      var current := first;
      ghost var prefix, d, xs, i := Text(), depth, x.kids, 0;
      ghost var whole := prefix + RenderMembers(Members(xs), format, d);
      MembersStart(heap, x, format, d, prefix);
      while current != NULL
        invariant 0 <= i <= |xs| && current == Head(xs[i..]) && (current == NULL <==> i == |xs|)
        invariant Valid() && Kept() && depth == d && MembersLeft(xs, i, format, d, Text(), whole)
        decreases |xs| - i
      {
        MembersStep(xs, i, format, d, Text(), whole);
        ChildReady(heap, x, i);
        ok := PrintMember(current, xs[i], i + 1 == |xs|);
        if !ok {
          return;
        }
        current := heap[current].next;
        i := i + 1;
      }
      MembersEnd(xs, format, d, Text(), whole);
      ok := true;
    }

    /** One turn of the loop. `last` is whether no member follows. */
    method PrintMember(current: Ptr, ghost y: Item, ghost last: bool) returns (ok: bool)
      requires Valid() && current == y.addr && Present(heap, y) && Typed(y) && y.key.Text?
      requires OwnedAt(heap, y.key) && heap[current].key == PtrOf(y.key)
      requires IntNumbers(Value(y)) && (heap[current].next == NULL <==> last)
      modifies this`block, this`buffer, this`length, this`offset, this`depth, this`oom, mem, buffer
      ensures Advanced(ok, old(Text()), MemberText(y, format, old(depth), last))
      ensures ok ==> depth == old(depth)
      decreases y, 5
    {
      ghost var prefix, d := Text(), depth;
      MemberPieces(y, format, d, last, prefix);
      hide Present, Typed, Render, Value, IntNumbers, MemberText, KeyText, Indent;
      ok := PrintMemberKey(heap[current].key, y.key.s);
      if !ok {
        return;
      }
      ok := PrintElement(current, y);
      if !ok {
        return;
      }
      var end := MemberEnd(format, heap[current].next == NULL);
      ok := Append(end, |end| + 1, true);
    }

    /** Indentation, key and colon. */
    method PrintMemberKey(key: Ptr, ghost s: CStr) returns (ok: bool)
      requires Valid() && key in heap && heap[key] == Str(s) && key != NULL
      modifies this`block, this`buffer, this`length, this`offset, this`oom, mem, buffer
      ensures Kept()
      ensures ok ==> Valid() && Text() == old(Text()) + (Indent(format, depth) + KeyText(s, format))
      ensures !ok ==> oom || |old(Text())| + |Indent(format, depth) + KeyText(s, format)| + 2 > Limit()
    {
      ghost var prefix := Text();
      ghost var a, b, c := Indent(format, depth), JsonStrings.Quoted(s), KeySeparator(format);
      Assoc(prefix, a, b + c);
      Assoc(prefix + a, b, c);
      hide JsonStrings.Quoted;
      if format {
        ok := Append(Tabs(depth), depth, false);
        if !ok {
          return;
        }
      }
      assert Text() == prefix + a;
      ok := PrintKey(key, s);
      if !ok {
        return;
      }
      var separator := KeySeparator(format);
      ok := Append(separator, |separator|, false);
    }
  }

  /** The text of one member, with the indentation before it and the separator behind it. */
  ghost function MemberText(y: Item, fmt: bool, d: nat, last: bool): seq<byte>
    requires y.key.Text? && IntNumbers(Value(y))
  {
    Indent(fmt, d) + (KeyText(y.key.s, fmt) + (Render(Value(y), fmt, d) + MemberEnd(fmt, last)))
  }

  lemma MemberPieces(y: Item, fmt: bool, d: nat, last: bool, prefix: seq<byte>)
    requires y.key.Text? && IntNumbers(Value(y))
    ensures var key, value, end := Indent(fmt, d) + KeyText(y.key.s, fmt), Render(Value(y), fmt, d),
                                   MemberEnd(fmt, last);
            prefix + key + value + end == prefix + MemberText(y, fmt, d, last)
            && |MemberText(y, fmt, d, last)| == |key| + |value| + |end| && |value| >= 1
  {
    RenderHasNoNul(Value(y), fmt, d);
    var a, b := Indent(fmt, d), KeyText(y.key.s, fmt);
    var e, f := Render(Value(y), fmt, d), MemberEnd(fmt, last);
    Assoc(prefix + (a + b), e, f);
    Assoc(prefix, a + b, e + f);
    Assoc(a, b, e + f);
  }

  lemma ObjectText(x: Item, fmt: bool, d: nat, prefix: seq<byte>)
    requires Typed(x) && x.kind == ObjectKind && MembersIntNumbers(Members(x.kids))
    ensures AllTyped(x.kids) && AllKeyed(x.kids)
    ensures var r, whole := RenderMembers(Members(x.kids), fmt, d + 1), Render(Object(Members(x.kids)), fmt, d);
            prefix + (Open(fmt) + r) + Close(fmt, d) == prefix + whole
            && |whole| == |Open(fmt)| + |r| + |Close(fmt, d)| && |Close(fmt, d)| > 0
  {
    var r := RenderMembers(Members(x.kids), fmt, d + 1);
    Assoc(prefix, Open(fmt) + r, Close(fmt, d));
    Assoc(Open(fmt), r, Close(fmt, d));
  }

  /** The text printed so far and the members still to come make up the whole. */
  ghost predicate MembersLeft(xs: seq<Item>, i: nat, fmt: bool, d: nat, text: seq<byte>, whole: seq<byte>) {
    && i <= |xs| && AllKeyed(xs) && MembersIntNumbers(Members(xs[i..]))
    && text + RenderMembers(Members(xs[i..]), fmt, d) == whole
  }

  lemma MembersStart(h: Heap, x: Item, fmt: bool, d: nat, text: seq<byte>)
    requires Present(h, x) && AllKeyed(x.kids) && MembersIntNumbers(Members(x.kids))
    ensures MembersLeft(x.kids, 0, fmt, d, text, text + RenderMembers(Members(x.kids), fmt, d))
    ensures x.kids[0..] == x.kids && (Head(x.kids) == NULL <==> x.kids == [])
  {
    assert x.kids[0..] == x.kids;
    if x.kids != [] {
      ListEdits.ChildAt(h, x, 0);
    }
  }

  lemma MembersEnd(xs: seq<Item>, fmt: bool, d: nat, text: seq<byte>, whole: seq<byte>)
    requires MembersLeft(xs, |xs|, fmt, d, text, whole)
    ensures text == whole
  {
    NoItems(xs[|xs|..], fmt, d);
    assert text + [] == text;
  }

  /** One turn of the member loop, seen from the rendering. */
  lemma MembersStep(xs: seq<Item>, i: nat, fmt: bool, d: nat, text: seq<byte>, whole: seq<byte>)
    requires MembersLeft(xs, i, fmt, d, text, whole) && i < |xs|
    ensures xs[i].key.Text? && IntNumbers(Value(xs[i]))
    ensures var one := MemberText(xs[i], fmt, d, i + 1 == |xs|);
            |text| + |one| <= |whole| && MembersLeft(xs, i + 1, fmt, d, text + one, whole)
  {
    assert xs[i..][1..] == xs[i + 1..];
    var ms, more := Members(xs[i..]), Members(xs[i + 1..]);
    assert ms[0] == Member(xs[i].key.s, Value(xs[i])) && ms[1..] == more;
    hide Members, Value, Render, KeyText, Indent, MemberEnd;
    var a, b := Indent(fmt, d), KeyText(xs[i].key.s, fmt);
    var e, f, rest := Render(Value(xs[i]), fmt, d), MemberEnd(fmt, |ms| == 1), RenderMembers(more, fmt, d);
    Assoc(text, a + (b + (e + f)), rest);
    Assoc(a, b + (e + f), rest);
    Assoc(b, e + f, rest);
    Assoc(e, f, rest);
  }

  lemma ArrayText(x: Item, fmt: bool, d: nat, prefix: seq<byte>)
    requires Typed(x) && x.kind == ArrayKind && ItemsIntNumbers(Values(x.kids))
    ensures AllTyped(x.kids)
    ensures prefix + [LBRACKET] + RenderItems(Values(x.kids), fmt, d + 1) + [RBRACKET]
         == prefix + Render(Array(Values(x.kids)), fmt, d)
    ensures |Render(Array(Values(x.kids)), fmt, d)| == |RenderItems(Values(x.kids), fmt, d + 1)| + 2
  {
    var r := RenderItems(Values(x.kids), fmt, d + 1);
    assert Render(Array(Values(x.kids)), fmt, d) == [LBRACKET] + r + [RBRACKET];
    Assoc(prefix + [LBRACKET], r, [RBRACKET]);
    Assoc(prefix, [LBRACKET], r + [RBRACKET]);
    Assoc([LBRACKET], r, [RBRACKET]);
  }

  /** A child can be printed, and its next link leads to the one after it. */
  lemma ChildReady(h: Heap, x: Item, i: nat)
    requires Present(h, x) && i < |x.kids| && AllTyped(x.kids)
    ensures Present(h, x.kids[i]) && Typed(x.kids[i])
    ensures h[x.kids[i].addr].next == Head(x.kids[i + 1..])
    ensures Head(x.kids[i + 1..]) == NULL <==> i + 1 == |x.kids|
    ensures h[x.kids[i].addr].key == PtrOf(x.kids[i].key) && OwnedAt(h, x.kids[i].key)
  {
    ListEdits.ChildAt(h, x, i);
    ValuesAt(x.kids, i);
    if i + 1 < |x.kids| {
      ListEdits.ChildAt(h, x, i + 1);
    }
  }

  lemma NoItems(xs: seq<Item>, fmt: bool, d: nat)
    requires xs == []
    ensures Values(xs) == [] && Members(xs) == []
    ensures RenderItems(Values(xs), fmt, d) == [] && RenderMembers(Members(xs), fmt, d) == []
  {
  }

  // ---- the entry points ----

  const DEFAULT_BUFFER: nat := 256

  /** The item can be printed: it is there, and its numbers are C ints. */
  ghost predicate Printable(h: Heap, item: Ptr, x: Item) {
    item == x.addr && Present(h, x) && Typed(x) && IntNumbers(Value(x))
  }

  /** cJSON_Print and cJSON_PrintUnformatted: one new block, of exactly the text and its NUL, or the
      heap as before, because an allocation failed or the text does not fit in an int. */
  method Print(mem: Memory, item: Ptr, format: bool, reallocates: bool, ghost x: Item)
    returns (p: Ptr, printed: array?<byte>)
    requires mem.Valid() && !mem.oom && (item != NULL ==> Printable(mem.blocks, item, x))
    modifies mem
    ensures mem.Valid() && (p == NULL <==> printed == null)
    ensures p == NULL ==> mem.blocks == old(mem.blocks)
    ensures p != NULL ==> !mem.oom && p !in old(mem.blocks) && mem.blocks == old(mem.blocks)[p := Space(printed.Length)]
    ensures printed != null ==> item != NULL && fresh(printed)
                                && printed[..] == Render(Value(x), format, 0) + [NUL]
    ensures printed == null && item != NULL ==> mem.oom || |Render(Value(x), format, 0)| + 2 > INT_MAX
  {
    hide Render, Value, Present, Typed, IntNumbers;
    p, printed := NULL, null;
    var heap := mem.blocks;
    var block := mem.Allocate(Space(DEFAULT_BUFFER));
    if block == NULL {
      return;
    }
    var buffer := new byte[DEFAULT_BUFFER];
    var b := new PrintBuffer(mem, heap, block, buffer, false, format, reallocates);
    if item == NULL {
      b.FreeBuffer();
      return;
    }
    ghost var r := Render(Value(x), format, 0);
    assert [] + r == r;
    var ok := b.PrintElement(item, x);
    if !ok {
      b.FreeBuffer();
      return;
    }
    RenderHasNoNul(Value(x), format, 0);
    p, printed := b.Trim();
  }

  /** cJSON_PrintBuffered: one new block with the text and its NUL at its front, or the heap as
      before. It grows from any size; from nothing only by realloc, the manual copy would read a
      byte that is not there. */
  method PrintBuffered(mem: Memory, item: Ptr, prebuffer: int, format: bool, reallocates: bool, ghost x: Item)
    returns (p: Ptr, printed: array?<byte>)
    requires prebuffer <= INT_MAX && (prebuffer == 0 ==> reallocates)
    requires mem.Valid() && !mem.oom && (item != NULL ==> Printable(mem.blocks, item, x))
    modifies mem
    ensures mem.Valid() && (p == NULL <==> printed == null)
    ensures p == NULL ==> mem.blocks == old(mem.blocks)
    ensures p != NULL ==> !mem.oom && p !in old(mem.blocks) && mem.blocks == old(mem.blocks)[p := Space(printed.Length)]
    ensures printed != null ==> prebuffer >= 0 && item != NULL
                                && var r := Render(Value(x), format, 0);
                                   |r| < printed.Length && printed[..|r|] == r && printed[|r|] == NUL
    ensures printed == null && prebuffer >= 0 && item != NULL ==> mem.oom || |Render(Value(x), format, 0)| + 2 > INT_MAX
  {
    hide Render, Value, Present, Typed, IntNumbers;
    p, printed := NULL, null;
    if prebuffer < 0 {
      return;
    }
    var heap := mem.blocks;
    var block := mem.Allocate(Space(prebuffer));
    if block == NULL {
      return;
    }
    var buffer := new byte[prebuffer];
    var b := new PrintBuffer(mem, heap, block, buffer, false, format, reallocates);
    if item == NULL {
      b.FreeBuffer();
      return;
    }
    ghost var r := Render(Value(x), format, 0);
    assert [] + r == r;
    var ok := b.PrintValue(item, x);
    if !ok {
      b.FreeBuffer();
      return;
    }
    p, printed := b.block, b.buffer;
  }

  /** cJSON_PrintPreallocated: a caller's buffer suffices exactly if it has two bytes more than the
      text; then it holds the text and its NUL. Nothing is allocated. */
  method PrintPreallocated(mem: Memory, item: Ptr, buffer: array?<byte>, length: int, format: bool, ghost x: Item)
    returns (ok: bool)
    requires mem.Valid() && (item != NULL ==> Printable(mem.blocks, item, x))
    requires buffer != null && length >= 0 ==> length == buffer.Length <= INT_MAX
    modifies buffer, mem
    ensures mem.Valid() && mem.blocks == old(mem.blocks) && mem.oom == old(mem.oom)
    ensures ok <==> buffer != null && length >= 0 && item != NULL && |Render(Value(x), format, 0)| + 2 <= length
    ensures ok ==> var r := Render(Value(x), format, 0); buffer[..|r|] == r && buffer[|r|] == NUL
  {
    hide Render, Value, Present, Typed, IntNumbers;
    if length < 0 || buffer == null {
      return false;
    }
    var b := new PrintBuffer(mem, mem.blocks, NULL, buffer, true, format, false);
    if item == NULL {
      return false;
    }
    ghost var r := Render(Value(x), format, 0);
    assert [] + r == r;
    ok := b.PrintValue(item, x);
  }
}
