/** cJSON_Minify: blanks and comments outside strings disappear, in place. */
module Minifier {
  import opened Bytes

  predicate IsBlank(b: byte) {
    b == SPACE || b == TAB || b == RETURN || b == NEWLINE
  }

  // ---- what each skipper consumes ----

  /** The offset behind the one-line comment that starts at i. */
  function LineCommentEnd(s: seq<byte>, i: nat): (j: nat)
    requires i <= |s|
    ensures i <= j <= |s|
    decreases |s| - i
  {
    if i == |s| then i else if s[i] == NEWLINE then i + 1 else LineCommentEnd(s, i + 1)
  }

  /** The offset behind the comment whose inside starts at i. */
  function BlockCommentEnd(s: seq<byte>, i: nat): (j: nat)
    requires i <= |s|
    ensures i <= j <= |s|
    decreases |s| - i
  {
    if i == |s| then i
    else if s[i] == STAR && i + 1 < |s| && s[i + 1] == SLASH then i + 2
    else BlockCommentEnd(s, i + 1)
  }

  /** minify_string's idea of where the string whose inside starts at i ends: a backslash right
      before a quote hides it, whatever precedes the backslash. */
  function StringEnd(s: seq<byte>, i: nat): (j: nat)
    requires i <= |s|
    ensures i <= j <= |s|
    decreases |s| - i
  {
    if i == |s| then i
    else if s[i] == QUOTE then i + 1
    else if s[i] == BACKSLASH && i + 1 < |s| && s[i + 1] == QUOTE then StringEnd(s, i + 2)
    else StringEnd(s, i + 1)
  }

  /** What is left of s from offset i on. */
  function Minified(s: seq<byte>, i: nat): (r: seq<byte>)
    requires i <= |s|
    ensures |r| <= |s| - i
    decreases |s| - i
  {
    if i == |s| then []
    else if IsBlank(s[i]) then Minified(s, i + 1)
    else if s[i] == SLASH then
      if i + 1 < |s| && s[i + 1] == SLASH then Minified(s, LineCommentEnd(s, i + 2))
      else if i + 1 < |s| && s[i + 1] == STAR then Minified(s, BlockCommentEnd(s, i + 2))
      else Minified(s, i + 1)
    else if s[i] == QUOTE then
      var j := StringEnd(s, i + 1);
      s[i..j] + Minified(s, j)
    else [s[i]] + Minified(s, i + 1)
  }

  function Minify(s: CStr): seq<byte> {
    Minified(s, 0)
  }

  // ---- the code ----

  /** s is the C string in the array before the terminator at its end; the read cursor has
      reached i, the write cursor o is not past it, and the rest of s is still untouched. */
  ghost predicate Cursors(a: array<byte>, s: CStr, i: nat, o: nat)
    reads a
  {
    o <= i <= |s| && |s| < a.Length && a[|s|] == NUL && forall k :: i <= k < |s| ==> a[k] == s[k]
  }

  method SkipOnelineComment(a: array<byte>, input: nat, ghost s: CStr) returns (i: nat)
    requires input + 2 <= |s| && Cursors(a, s, input, 0)
    ensures i == LineCommentEnd(s, input + 2)
  {
    i := input + 2;
    while a[i] != NUL
      invariant input + 2 <= i <= |s|
      invariant LineCommentEnd(s, i) == LineCommentEnd(s, input + 2)
      decreases |s| - i
    {
      if a[i] == NEWLINE {
        return i + 1;
      }
      i := i + 1;
    }
  }

  method SkipMultilineComment(a: array<byte>, input: nat, ghost s: CStr) returns (i: nat)
    requires input + 2 <= |s| && Cursors(a, s, input, 0)
    ensures i == BlockCommentEnd(s, input + 2)
  {
    i := input + 2;
    while a[i] != NUL
      invariant input + 2 <= i <= |s|
      invariant BlockCommentEnd(s, i) == BlockCommentEnd(s, input + 2)
      decreases |s| - i
    {
      if a[i] == STAR && a[i + 1] == SLASH {
        return i + 2;
      }
      i := i + 1;
    }
  }

  lemma StringEndAt(s: CStr, i: nat)
    requires i <= |s|
    ensures StringEnd(s, i) == if i == |s| then i else if s[i] == QUOTE then i + 1
                               else if s[i] == BACKSLASH && i + 1 < |s| && s[i + 1] == QUOTE then StringEnd(s, i + 2)
                               else StringEnd(s, i + 1)
  {
  }

  /** From output on, now holds the bytes input..i of s; elsewhere it is as it was. */
  ghost predicate Copied(was: seq<byte>, now: seq<byte>, s: seq<byte>, input: nat, i: nat, output: nat) {
    && output <= input <= i <= |s| < |was| == |now|
    && (forall k :: output <= k < output + (i - input) ==> now[k] == s[k + (input - output)])
    && forall k :: 0 <= k < |now| && !(output <= k < output + (i - input)) ==> now[k] == was[k]
  }

  lemma CopiedOne(was: seq<byte>, now: seq<byte>, s: seq<byte>, input: nat, i: nat, output: nat)
    requires Copied(was, now, s, input, i, output) && i < |s|
    ensures Copied(was, now[output + (i - input) := s[i]], s, input, i + 1, output)
  {
  }

  /** Copies a string, its quotes included, from the read to the write cursor. */
  method MinifyString(a: array<byte>, input: nat, output: nat, ghost s: CStr) returns (i: nat, o: nat)
    requires input < |s| && s[input] == QUOTE && Cursors(a, s, input, output)
    modifies a
    ensures i == StringEnd(s, input + 1) && o == output + (i - input) && Cursors(a, s, i, o)
    ensures Copied(old(a[..]), a[..], s, input, i, output)
  {
    hide StringEnd, Copied;
    i, o := input, output;
    assert Copied(a[..], a[..], s, input, input, output) by { NothingCopied(a[..], s, input, output); }
    i, o := CopyByte(a, i, o, s, a[..], input, output);
    while a[i] != NUL
      invariant input + 1 <= i <= |s| && o == output + (i - input)
      invariant Cursors(a, s, i, o) && Copied(old(a[..]), a[..], s, input, i, output)
      invariant StringEnd(s, i) == StringEnd(s, input + 1)
      decreases |s| - i
    {
      var b := a[i];
      StringEndAt(s, i);
      if b == QUOTE {
        i, o := CopyByte(a, i, o, s, old(a[..]), input, output);
        return;
      } else if b == BACKSLASH && a[i + 1] == QUOTE {
        i, o := CopyByte(a, i, o, s, old(a[..]), input, output);
        i, o := CopyByte(a, i, o, s, old(a[..]), input, output);
      } else {
        i, o := CopyByte(a, i, o, s, old(a[..]), input, output);
      }
    }
    StringEndAt(s, i);
  }

  lemma NothingCopied(now: seq<byte>, s: seq<byte>, input: nat, output: nat)
    requires output <= input <= |s| < |now|
    ensures Copied(now, now, s, input, input, output)
  {
  }

  lemma CopiedRun(was: seq<byte>, now: seq<byte>, s: seq<byte>, input: nat, i: nat, output: nat)
    requires Copied(was, now, s, input, i, output)
    ensures now[..output + (i - input)] == was[..output] + s[input..i] && now[|s|..] == was[|s|..]
  {
  }

  /** One byte, and both cursors move on. */
  method CopyByte(a: array<byte>, i: nat, o: nat, ghost s: CStr, ghost was: seq<byte>,
                  ghost input: nat, ghost output: nat)
    returns (i': nat, o': nat)
    requires i < |s| && Cursors(a, s, i, o)
    requires Copied(was, a[..], s, input, i, output) && o == output + (i - input)
    modifies a
    ensures i' == i + 1 && o' == o + 1 && Cursors(a, s, i', o')
    ensures Copied(was, a[..], s, input, i', output)
  {
    hide Copied;
    CopiedOne(was, a[..], s, input, i, output);
    assert a[..][o := s[i]] == a[..o] + [s[i]] + a[o + 1..];
    a[o] := a[i];
    assert a[..] == old(a[..])[o := s[i]];
    i', o' := i + 1, o + 1;
  }

  /** What has been written and what is still to be read make up the result. */
  ghost predicate Progress(before: seq<byte>, now: seq<byte>, s: CStr, i: nat, o: nat) {
    && o <= i <= |s| < |now| == |before|
    && now[..o] + Minified(s, i) == Minify(s) && now[|s|..] == before[|s|..]
  }

  /** One step of the main loop. */
  predicate CommentAt(s: seq<byte>, i: nat) {
    i + 1 < |s| && s[i] == SLASH && (s[i + 1] == SLASH || s[i + 1] == STAR)
  }

  function CommentEnd(s: seq<byte>, i: nat): (j: nat)
    requires CommentAt(s, i)
    ensures i + 2 <= j <= |s|
  {
    if s[i + 1] == SLASH then LineCommentEnd(s, i + 2) else BlockCommentEnd(s, i + 2)
  }

  predicate Plain(b: byte) {
    !IsBlank(b) && b != SLASH && b != QUOTE
  }

  lemma MinifiedAt(s: seq<byte>, i: nat)
    requires i < |s|
    ensures CommentAt(s, i) ==> Minified(s, i) == Minified(s, CommentEnd(s, i))
    ensures IsBlank(s[i]) || (s[i] == SLASH && !CommentAt(s, i)) ==> Minified(s, i) == Minified(s, i + 1)
    ensures s[i] == QUOTE ==> Minified(s, i) == s[i..StringEnd(s, i + 1)] + Minified(s, StringEnd(s, i + 1))
    ensures Plain(s[i]) ==> Minified(s, i) == [s[i]] + Minified(s, i + 1)
  {
  }

  /** The main loop's step at i: what it copies, and where it goes on. */
  lemma StepAt(s: CStr, i: nat, j: nat)
    requires i < j <= |s|
    requires if IsBlank(s[i]) then j == i + 1
             else if s[i] == SLASH then
               j == if i + 1 < |s| && s[i + 1] == SLASH then LineCommentEnd(s, i + 2)
                    else if i + 1 < |s| && s[i + 1] == STAR then BlockCommentEnd(s, i + 2) else i + 1
             else j == if s[i] == QUOTE then StringEnd(s, i + 1) else i + 1
    ensures Minified(s, i) == (if IsBlank(s[i]) || s[i] == SLASH then [] else s[i..j]) + Minified(s, j)
  {
    hide Minified;
    MinifiedAt(s, i);
    assert [] + Minified(s, j) == Minified(s, j);
    assert s[i..i + 1] == [s[i]];
  }

  lemma ProgressSkips(before: seq<byte>, now: seq<byte>, s: CStr, i: nat, j: nat, o: nat)
    requires Progress(before, now, s, i, o) && i <= j <= |s| && Minified(s, i) == [] + Minified(s, j)
    ensures Progress(before, now, s, j, o)
  {
    hide Minified;
    assert [] + Minified(s, j) == Minified(s, j);
  }

  lemma ProgressCopies(before: seq<byte>, was: seq<byte>, now: seq<byte>, s: CStr, i: nat, j: nat, o: nat)
    requires Progress(before, was, s, i, o) && Copied(was, now, s, i, j, o)
    requires Minified(s, i) == s[i..j] + Minified(s, j)
    ensures Progress(before, now, s, j, o + (j - i))
  {
    CopiedRun(was, now, s, i, j, o);
    hide Minified, Copied;
    Assoc(was[..o], s[i..j], Minified(s, j));
  }

  lemma ProgressEnds(before: seq<byte>, now: seq<byte>, s: CStr, o: nat)
    requires Progress(before, now, s, |s|, o)
    ensures var r := Minify(s); |r| == o && now[..o] == r && now[|s| + 1..] == before[|s| + 1..]
  {
    assert Minified(s, |s|) == [] && now[..o] + [] == now[..o];
    assert now[|s| + 1..] == now[|s|..][1..];
  }

  /** In place: afterwards the array holds the minified string, and behind the old terminator
      nothing has changed. */
  method MinifyInPlace(a: array<byte>, ghost s: CStr)
    requires |s| < a.Length && a[..|s|] == s && a[|s|] == NUL
    modifies a
    ensures var r := Minify(s); |r| <= |s| && a[..|r|] == r && a[|r|] == NUL
    ensures a[|s| + 1..] == old(a[|s| + 1..])
  {
    hide Minified, LineCommentEnd, BlockCommentEnd, StringEnd, Copied, Progress;
    var i: nat, o: nat := 0, 0;
    assert Progress(a[..], a[..], s, 0, 0) by { NoProgress(a[..], s); }
    while a[i] != NUL
      invariant Cursors(a, s, i, o) && Progress(old(a[..]), a[..], s, i, o)
      decreases |s| - i
    {
      ghost var from, at, was := i, o, a[..];
      if IsBlank(a[i]) {
        i := i + 1;
      } else if a[i] == SLASH {
        if a[i + 1] == SLASH {
          i := SkipOnelineComment(a, i, s);
        } else if a[i + 1] == STAR {
          i := SkipMultilineComment(a, i, s);
        } else {
          i := i + 1;
        }
      } else if a[i] == QUOTE {
        i, o := MinifyString(a, i, o, s);
      } else {
        NothingCopied(was, s, i, o);
        i, o := CopyByte(a, i, o, s, was, i, o);
      }
      StepAt(s, from, i);
      if IsBlank(s[from]) || s[from] == SLASH {
        ProgressSkips(old(a[..]), was, s, from, i, at);
      } else {
        ProgressCopies(old(a[..]), was, a[..], s, from, i, at);
      }
    }
    ProgressEnds(old(a[..]), a[..], s, o);
    a[o] := NUL;
  }

  lemma NoProgress(now: seq<byte>, s: CStr)
    requires |s| < |now|
    ensures Progress(now, now, s, 0, 0)
  {
    assert now[..0] + Minified(s, 0) == Minify(s);
  }
}
