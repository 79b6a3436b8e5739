/** Strings that grow inside an arena (LmString, sdb_string): a header and the bytes behind it,
    extended in place while they are the arena's last block. */
module ArenaStrings {
  import opened Bytes
  import opened Arena
  import opened UArena

  /** sizeof(LmStringHeader), sizeof(sdb_string_header): arena, length, capacity. */
  const HEADER: nat := 24

  class ArenaString {
    const arena: UArena
    /** Where the header starts in the arena. */
    const at: nat
    var len: nat
    var cap: nat
    /** The arena before the string was made. */
    ghost const was: Arena

    /** Address of the first byte. */
    function Base(): nat
    {
      arena.base + at + HEADER
    }

    /** Arena offset behind the block: header, capacity, terminator. */
    function BlockEnd(): nat
      reads this
    {
      at + HEADER + cap + 1
    }

    ghost predicate Valid()
      reads this, arena
    {
      && arena.Valid() && len <= cap && BlockEnd() <= arena.cur
      && WellFormed(was) && was.cur == at && Above(was, arena.view)
    }

    predicate IsLast()
      reads this, arena
    {
      BlockEnd() == arena.cur
    }

    function Text(): (s: seq<byte>)
      requires Base() + len <= arena.mem.Length
      reads this, arena.mem
    {
      arena.mem[Base()..Base() + len]
    }

    predicate Terminated()
      requires Base() + len < arena.mem.Length
      reads this, arena.mem
    {
      arena.mem[Base() + len] == NUL
    }

    /** The block now reaches over bytes behind it that the arena had already handed out. */
    twostate predicate Intrudes()
      reads this, arena
    {
      old(BlockEnd()) < BlockEnd() && old(BlockEnd()) < old(arena.cur)
    }

    constructor (arena: UArena, at: nat, len: nat, ghost was: Arena)
      requires arena.Valid() && at + HEADER + len + 1 <= arena.cur
      requires WellFormed(was) && was.cur == at && Above(was, arena.view)
      ensures Valid() && this.arena == arena && this.at == at && this.len == this.cap == len && this.was == was
    {
      this.arena, this.at, this.len, this.cap, this.was := arena, at, len, len, was;
    }

    /** memcpy into the string's bytes. */
    method Write(from: nat, bytes: seq<byte>)
      requires from + |bytes| <= arena.mem.Length
      modifies arena.mem
      ensures forall k :: 0 <= k < arena.mem.Length ==>
                arena.mem[k] == if from <= k < from + |bytes| then bytes[k - from] else old(arena.mem[k])
    {
      var i := 0;
      while i < |bytes|
        invariant 0 <= i <= |bytes|
        invariant forall k :: 0 <= k < arena.mem.Length ==>
                    arena.mem[k] == if from <= k < from + i then bytes[k - from] else old(arena.mem[k])
      {
        arena.mem[from + i] := bytes[i];
        i := i + 1;
      }
    }

    /** lm_string_make_space: room for addLen more bytes, reserved in full even if some were left. */
    method MakeSpace(addLen: nat) returns (ok: bool)
      requires Valid()
      modifies this`cap, arena
      ensures Valid() && (old(IsLast()) ==> IsLast())
      ensures ok <==> old(cap) - len >= addLen || old(arena.cur) + addLen <= arena.cap
      ensures ok ==> cap - len >= addLen
      ensures cap == if ok && old(cap) - len < addLen then old(cap) + addLen else old(cap)
      ensures !ok ==> arena.cur == old(arena.cur)
      ensures Intrudes() <==> ok && !old(IsLast()) && old(cap) - len < addLen
    {
      ok := true;
      var available := cap - len;
      if available < addLen {
        BumpStaysAbove(was, arena.view, addLen);
        var reserved := arena.Reserve(addLen);
        if reserved < addLen {
          return false;
        }
        cap := cap + addLen;
      }
    }

    method Append(other: seq<byte>) returns (ok: bool)
      requires Valid()
      modifies this, arena, arena.mem
      ensures Valid() && (old(IsLast()) ==> IsLast())
      ensures ok <==> old(cap) - old(len) >= |other| || old(arena.cur) + |other| <= arena.cap
      ensures ok ==> Text() == old(Text()) + other && Terminated()
      ensures !ok ==> len == old(len) && arena.cur == old(arena.cur)
      ensures cap == if ok && old(cap) - old(len) < |other| then old(cap) + |other| else old(cap)
      ensures Intrudes() <==> ok && !old(IsLast()) && old(cap) - old(len) < |other|
      ensures forall k :: 0 <= k < arena.mem.Length && !(ok && Base() + old(len) <= k <= Base() + cap) ==>
                arena.mem[k] == old(arena.mem[k])
    {
      hide WellFormed, Above;
      ok := MakeSpace(|other|);
      CurInside(arena.view);
      if ok {
        Write(Base() + len, other);
        len := len + |other|;
        arena.mem[Base() + len] := NUL;
        Joined(old(arena.mem[..]), arena.mem[..], Base(), old(len), other);
      }
    }

    method Set(bytes: seq<byte>) returns (ok: bool)
      requires Valid()
      modifies this, arena, arena.mem
      ensures Valid() && (old(IsLast()) ==> IsLast())
      ensures ok <==> old(cap) - old(len) >= |bytes| || old(arena.cur) + |bytes| <= arena.cap
      ensures ok ==> Text() == bytes && Terminated()
      ensures !ok ==> len == old(len) && arena.cur == old(arena.cur)
      ensures cap == if ok && old(cap) - old(len) < |bytes| then old(cap) + |bytes| else old(cap)
      ensures Intrudes() <==> ok && !old(IsLast()) && old(cap) - old(len) < |bytes|
      ensures forall k :: 0 <= k < arena.mem.Length && !(ok && Base() <= k <= Base() + cap) ==>
                arena.mem[k] == old(arena.mem[k])
    {
      hide WellFormed, Above;
      ok := MakeSpace(|bytes|);
      CurInside(arena.view);
      if ok {
        Write(Base(), bytes);
        arena.mem[Base() + |bytes|] := NUL;
        len := |bytes|;
        Joined(arena.mem[..], arena.mem[..], Base(), 0, bytes);
        assert [] + bytes == bytes;
      }
    }

    method Clear()
      requires Valid()
      modifies this`len, arena.mem
      ensures Valid() && (old(IsLast()) ==> IsLast()) && Text() == [] && Terminated()
      ensures forall k :: 0 <= k < arena.mem.Length && k != Base() ==> arena.mem[k] == old(arena.mem[k])
    {
      len := 0;
      arena.mem[Base()] := NUL;
    }

    /** The caller must not ask for more than there is: the new length is unsigned. */
    method Backspace(n: nat)
      requires Valid() && n <= len
      modifies this`len, arena.mem
      ensures Valid() && (old(IsLast()) ==> IsLast())
      ensures Text() == old(Text())[..old(len) - n] && Terminated()
      ensures forall k :: 0 <= k < arena.mem.Length && k != Base() + len ==> arena.mem[k] == old(arena.mem[k])
    {
      len := len - n;
      arena.mem[Base() + len] := NUL;
    }

    /** SdbStringFree: pops the block. The arena is as before the string was made. */
    method Free()
      requires Valid() && IsLast()
      modifies arena
      ensures arena.Valid() && arena.view == was
    {
      KeptAll(was.parts, was.cur);
      arena.Pop(HEADER + cap + 1);
    }
  }

  /** The bytes before stand, and the new ones follow them. */
  lemma Joined(was: seq<byte>, now: seq<byte>, from: nat, n: nat, other: seq<byte>)
    requires |was| == |now| && from + n + |other| < |now|
    requires forall k :: 0 <= k < from + n ==> now[k] == was[k]
    requires forall k :: from + n <= k < from + n + |other| ==> now[k] == other[k - (from + n)]
    ensures now[from..from + n + |other|] == was[from..from + n] + other
  {
  }

  lemma BlockAbove(a: Arena, size: nat)
    requires WellFormed(a)
    ensures Above(a, Bump(a, size))
    ensures Bump(a, size).cur == if a.cur + size <= a.cap then a.cur + size else a.cur
    ensures a.cur + size > a.cap ==> Bump(a, size) == a
  {
    KeptAll(a.parts, a.cur);
    BumpStaysAbove(a, a, size);
  }

  /** The block for a string of n bytes, cleared or as it was found. */
  method NewString(arena: UArena, n: nat, cleared: bool) returns (s: ArenaString?)
    requires arena.Valid()
    modifies arena, arena.mem
    ensures arena.Valid() && arena.view == Do(old(arena.view), Op.Alloc(HEADER + n + 1))
    ensures s != null <==> old(arena.cur) + HEADER + n + 1 <= arena.cap
    ensures s == null ==> arena.view == old(arena.view)
    ensures s != null ==> fresh(s) && s.Valid() && s.arena == arena
    ensures s != null ==> s.at == old(arena.cur) && s.was == old(arena.view)
                          && s.IsLast() && s.len == s.cap == n
    ensures forall k :: 0 <= k < arena.mem.Length ==>
              arena.mem[k] == if cleared && s != null && s.Base() - HEADER <= k <= s.Base() + n then 0
                              else old(arena.mem[k])
  {
    hide WellFormed, Above, Bump;
    ghost var was := arena.view;
    BlockAbove(was, HEADER + n + 1);
    var at := arena.cur;
    var p;
    if cleared {
      p := arena.Zalloc(HEADER + n + 1);
    } else {
      p := arena.Alloc(HEADER + n + 1);
    }
    s := null;
    if p != None {
      s := new ArenaString(arena, at, n, was);
    }
  }

  /** lm_string_make; without an initial string the string is empty. */
  method LmStringMake(arena: UArena, init: Option<CStr>) returns (s: ArenaString?)
    requires arena.Valid()
    modifies arena, arena.mem
    ensures arena.Valid()
    ensures var text := if init.Some? then init.value else [];
            && (s != null <==> old(arena.cur) + HEADER + |text| + 1 <= arena.cap)
            && (s != null ==> fresh(s) && s.Valid() && s.arena == arena
                              && s.at == old(arena.cur) && s.was == old(arena.view)
                              && s.IsLast() && s.cap == |text| && s.Text() == text && s.Terminated())
            && arena.view == Do(old(arena.view), Op.Alloc(HEADER + |text| + 1))
    ensures s == null ==> arena.view == old(arena.view)
    ensures forall k :: 0 <= k < arena.base + old(arena.cur) ==> arena.mem[k] == old(arena.mem[k])
  {
    hide WellFormed, Above, Do;
    var text := if init.Some? then init.value else [];
    CurInside(arena.view);
    s := NewString(arena, |text|, true);
    if s != null {
      if |text| > 0 {
        s.Write(s.Base(), text);
      }
      arena.mem[s.Base() + |text|] := NUL;
    }
  }

  /** SdbStringMake does not clear what it allocates for a given string, and writes the terminator
      of a non-empty one only: an empty one is terminated just if a zero byte lay there. */
  method SdbStringMake(arena: UArena, init: Option<CStr>) returns (s: ArenaString?)
    requires arena.Valid()
    modifies arena, arena.mem
    ensures arena.Valid()
    ensures var text := if init.Some? then init.value else [];
            && (s != null <==> old(arena.cur) + HEADER + |text| + 1 <= arena.cap)
            && (s != null ==> fresh(s) && s.Valid() && s.arena == arena
                              && s.at == old(arena.cur) && s.was == old(arena.view)
                              && s.IsLast() && s.cap == |text| && s.Text() == text
                              && (s.Terminated() <==>
                                    init != Some([])
                                    || old(arena.mem[arena.base + arena.cur + HEADER]) == NUL))
            && arena.view == Do(old(arena.view), Op.Alloc(HEADER + |text| + 1))
    ensures s == null ==> arena.view == old(arena.view)
    ensures forall k :: 0 <= k < arena.base + old(arena.cur) ==> arena.mem[k] == old(arena.mem[k])
  {
    hide WellFormed, Above, Do;
    var text := if init.Some? then init.value else [];
    CurInside(arena.view);
    s := NewString(arena, |text|, false);
    if s != null {
      if init == None {
        arena.Clear(s.Base() - HEADER, HEADER + |text| + 1);
      }
      if |text| > 0 && init.Some? {
        s.Write(s.Base(), text);
        arena.mem[s.Base() + |text|] := NUL;
      }
    }
  }

  // ---- whole runs ----

  datatype Edit = Append(bytes: CStr) | Set(bytes: CStr) | Clear | Backspace(n: nat)

  predicate Legal(s: seq<byte>, e: Edit) {
    e.Backspace? ==> e.n <= |s|
  }

  function Edited(s: seq<byte>, e: Edit): seq<byte>
    requires Legal(s, e)
  {
    match e
    case Append(bytes) => s + bytes
    case Set(bytes) => bytes
    case Clear => []
    case Backspace(n) => s[..|s| - n]
  }

  predicate AllLegal(s: seq<byte>, edits: seq<Edit>)
    decreases |edits|
  {
    edits == [] || (Legal(s, edits[0]) && AllLegal(Edited(s, edits[0]), edits[1..]))
  }

  function AllEdited(s: seq<byte>, edits: seq<Edit>): seq<byte>
    requires AllLegal(s, edits)
    decreases |edits|
  {
    if edits == [] then s else AllEdited(Edited(s, edits[0]), edits[1..])
  }

  /** What one operation leaves alone. */
  twostate predicate Below(arena: UArena, to: nat)
    reads arena.mem
  {
    forall k :: 0 <= k < to && k < arena.mem.Length ==> arena.mem[k] == old(arena.mem[k])
  }

  method Perform(s: ArenaString, e: Edit) returns (ok: bool)
    requires s.Valid() && s.IsLast() && Legal(s.Text(), e)
    modifies s, s.arena, s.arena.mem
    ensures s.Valid() && s.IsLast() && Below(s.arena, s.Base())
    ensures s.Terminated() <==> ok || old(s.Terminated())
    ensures s.Text() == if ok then Edited(old(s.Text()), e) else old(s.Text())
    ensures !ok ==> (e.Append? || e.Set?) && s.arena.cur + |e.bytes| > s.arena.cap
  {
    ok := true;
    ghost var n := s.len;
    match e
    case Append(bytes) => ok := s.Append(bytes);
    case Set(bytes) => ok := s.Set(bytes);
    case Clear => s.Clear();
    case Backspace(k) => s.Backspace(k);
  }

  /** A string that stays the arena's last block, edited until the arena is full: its contents are
      what the same edits make of a sequence, and the first edit terminates it if it was not. */
  method PerformAll(s: ArenaString, edits: seq<Edit>) returns (done: nat)
    requires s.Valid() && s.IsLast() && AllLegal(s.Text(), edits)
    modifies s, s.arena, s.arena.mem
    ensures s.Valid() && s.IsLast() && Below(s.arena, s.Base())
    ensures s.Terminated() <==> done > 0 || old(s.Terminated())
    ensures done <= |edits| && AllLegal(old(s.Text()), edits[..done])
    ensures s.Text() == AllEdited(old(s.Text()), edits[..done])
    ensures done < |edits| ==> (edits[done].Append? || edits[done].Set?)
    ensures done < |edits| ==> s.arena.cur + |edits[done].bytes| > s.arena.cap
  {
    done := 0;
    assert edits[0..] == edits && edits[..0] == [];
    while done < |edits|
      invariant 0 <= done <= |edits| && s.Valid() && s.IsLast() && Below(s.arena, s.Base())
      invariant s.Terminated() <==> done > 0 || old(s.Terminated())
      invariant AllLegal(s.Text(), edits[done..])
      invariant AllLegal(old(s.Text()), edits[..done]) && s.Text() == AllEdited(old(s.Text()), edits[..done])
    {
      ghost var text := s.Text();
      assert edits[done..][0] == edits[done] && edits[done..][1..] == edits[done + 1..];
      var ok := Perform(s, edits[done]);
      if !ok {
        return;
      }
      EditedSnoc(old(s.Text()), edits[..done], edits[done]);
      assert edits[..done + 1] == edits[..done] + [edits[done]];
      done := done + 1;
    }
  }

  lemma {:induction false} EditedSnoc(s: seq<byte>, edits: seq<Edit>, e: Edit)
    requires AllLegal(s, edits) && Legal(AllEdited(s, edits), e)
    ensures AllLegal(s, edits + [e]) && AllEdited(s, edits + [e]) == Edited(AllEdited(s, edits), e)
    decreases |edits|
  {
    if edits == [] {
      assert edits + [e] == [e] && [e][1..] == [];
    } else {
      assert (edits + [e])[1..] == edits[1..] + [e];
      EditedSnoc(Edited(s, edits[0]), edits[1..], e);
    }
  }

  /** The contents a string starts with. */
  function Initial(init: Option<CStr>): CStr {
    if init.Some? then init.value else []
  }

  /** Make, edit, read, free: the arena is exactly as before, and nothing below was touched. What was
      read is a C string unless an empty initial string has not been edited and no zero byte lay there. */
  method MakeEditFree(arena: UArena, init: Option<CStr>, edits: seq<Edit>)
    returns (made: bool, done: nat, text: seq<byte>, terminated: bool)
    requires arena.Valid() && AllLegal(Initial(init), edits)
    modifies arena, arena.mem
    ensures arena.Valid() && arena.view == old(arena.view) && Below(arena, arena.base + arena.cur)
    ensures made <==> old(arena.cur) + HEADER + |Initial(init)| + 1 <= arena.cap
    ensures made ==> done <= |edits| && AllLegal(Initial(init), edits[..done])
                     && text == AllEdited(Initial(init), edits[..done])
    ensures made ==> (terminated <==> done > 0 || init != Some([])
                                      || old(arena.mem[arena.base + arena.cur + HEADER]) == NUL)
  {
    done, text, terminated := 0, [], false;
    var s := SdbStringMake(arena, init);
    made := s != null;
    if s == null {
      return;
    }
    done := PerformAll(s, edits);
    text := s.Text();
    terminated := s.Terminated();
    s.Free();
  }

  lemma SecondAbove(a: Arena, b: Arena, size: nat)
    requires Above(a, b)
    ensures Above(a, Do(b, Op.Alloc(size)))
  {
    BumpStaysAbove(a, b, size);
  }

  /** The failure: two strings, and the first of them grows over the second one's header. It happens
      exactly when the arena has room for both and for what is appended. */
  method GrowsIntoNeighbour(arena: UArena, more: CStr) returns (first: ArenaString?, second: ArenaString?, ok: bool)
    requires arena.Valid() && |more| >= 2
    modifies arena, arena.mem
    ensures ok <==> old(arena.cur) + 2 * (HEADER + 1) + |more| <= arena.cap
    ensures ok ==> first != null && second != null
                   && first.at < second.at < first.Base() + first.len - arena.base
                   && first.BlockEnd() > second.at
  {
    hide WellFormed, Above, Do;
    ok := false;
    second := null;
    first := LmStringMake(arena, None);
    if first == null {
      return;
    }
    SecondAbove(first.was, arena.view, HEADER + 1);
    assert arena.cur == first.BlockEnd();
    second := LmStringMake(arena, None);
    if second == null {
      return;
    }
    assert arena.cur == second.BlockEnd();
    ok := first.Append(more);
  }
}
