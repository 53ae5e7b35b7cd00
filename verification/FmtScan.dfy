/** `blank_literals` as written: an index over the characters and a byte buffer filled in place. */
module FmtScan {
  import opened ByteStrings
  import opened FmtBlank

  /** The buffer's text when the classes of the first `|done|` characters are settled:
      everything after them is still blank. */
  ghost function Draft(s: string, done: seq<Class>): string
    requires |done| <= |s|
  {
    Masked(s, done + Same(CharText, |s| - |done|))
  }

  ghost function Min(x: nat, y: nat): nat { if x <= y then x else y }

  /** Position `i` is reached in `mode`, `done` is what the automaton says about the text before
      it, and the buffer holds the draft. */
  ghost predicate Reached(s: string, buffer: seq<byte>, i: nat, mode: Mode, done: seq<Class>) {
    && |done| == Min(i, |s|)
    && done + Classes(s, |done|, mode) == Classes(s, 0, InCode)
    && buffer == Utf8(Draft(s, done))
  }

  function Offset(s: string, k: nat): nat
    requires k <= |s|
  {
    if k == 0 then 0 else Offset(s, k - 1) + |Encode(s[k - 1])|
  }

  lemma {:induction false} OffsetIsMaskedLength(s: string, classes: seq<Class>, k: nat)
    requires |classes| == |s| && k <= |s|
    ensures |Utf8(Masked(s[..k], classes[..k]))| == Offset(s, k)
  {
    hide Encode, Keeps;
    if k == 0 {
    } else {
      OffsetIsMaskedLength(s, classes, k - 1);
      var a, ca := s[..k - 1], classes[..k - 1];
      assert s[..k] == a + [s[k - 1]] && classes[..k] == ca + [classes[k - 1]];
      MaskedConcat(a, [s[k - 1]], ca, [classes[k - 1]]);
      OneMasked(s[k - 1], classes[k - 1]);
      Utf8Concat(Masked(a, ca), Masked([s[k - 1]], [classes[k - 1]]));
    }
  }

  lemma OneMasked(c: char, cls: Class)
    ensures Masked([c], [cls]) == if Keeps(cls, c) then [c] else Spaces(|Encode(c)|)
    ensures |Utf8(Masked([c], [cls]))| == |Encode(c)|
    ensures Keeps(cls, c) ==> Utf8(Masked([c], [cls])) == Encode(c)
  {
    SpacesBytes(|Encode(c)|);
    hide Encode;
    assert [c][1..] == "" && [cls][1..] == [] && Masked("", []) == "";
    assert Utf8([c]) == Encode(c) + Utf8("") == Encode(c);
  }

  /** The text splits at character `k`. */
  lemma MaskedSplit(s: string, classes: seq<Class>, k: nat)
    requires |classes| == |s| && k < |s|
    ensures Utf8(Masked(s, classes))
         == Utf8(Masked(s[..k], classes[..k])) + Utf8(Masked([s[k]], [classes[k]]))
            + Utf8(Masked(s[k + 1..], classes[k + 1..]))
  {
    hide Masked, Utf8;
    var a, ca, c, cc, b, cb := s[..k], classes[..k], [s[k]], [classes[k]], s[k + 1..], classes[k + 1..];
    assert s == a + c + b && classes == ca + cc + cb;
    MaskedConcat(a + c, b, ca + cc, cb);
    MaskedConcat(a, c, ca, cc);
    Utf8Concat(Masked(a + c, ca + cc), Masked(b, cb));
    Utf8Concat(Masked(a, ca), Masked(c, cc));
  }

  /** Character `k` goes into the buffer unchanged, at its own offset. */
  method Keep(out: array<byte>, s: string, k: nat, ghost classes: seq<Class>)
    requires k < |s| && |classes| == |s| && out[..] == Utf8(Masked(s, classes))
    modifies out
    ensures out[..] == Utf8(Masked(s, classes[k := Plain]))
  {
    var off, bytes := Offset(s, k), Encode(s[k]);
    ghost var changed := classes[k := Plain];
    ghost var pre, mid, post := Utf8(Masked(s[..k], classes[..k])), Utf8(Masked([s[k]], [classes[k]])),
                               Utf8(Masked(s[k + 1..], classes[k + 1..]));
    MaskedSplit(s, classes, k);
    MaskedSplit(s, changed, k);
    OffsetIsMaskedLength(s, classes, k);
    OneMasked(s[k], classes[k]);
    OneMasked(s[k], Plain);
    assert changed[..k] == classes[..k] && changed[k + 1..] == classes[k + 1..] && changed[k] == Plain;
    hide Masked, Utf8, Offset, Encode;
    CopyBytes(out, off, bytes, pre, mid, post);
  }

  method CopyBytes(out: array<byte>, off: nat, bytes: seq<byte>, ghost pre: seq<byte>, ghost mid: seq<byte>,
                   ghost post: seq<byte>)
    requires out[..] == pre + mid + post && |pre| == off && |mid| == |bytes|
    modifies out
    ensures out[..] == pre + bytes + post
  {
    for j := 0 to |bytes|
      invariant forall x :: 0 <= x < off ==> out[x] == pre[x]
      invariant forall x :: 0 <= x < j ==> out[off + x] == bytes[x]
      invariant forall x :: off + |bytes| <= x < out.Length ==> out[x] == post[x - off - |bytes|]
    {
      out[off + j] := bytes[j];
    }
    assert out[off..off + |bytes|] == bytes;
    assert out[..] == out[..off] + out[off..off + |bytes|] + out[off + |bytes|..];
  }

  // ---- Moving on ----

  lemma {:induction false} MaskedSame(s: string, ca: seq<Class>, cb: seq<Class>)
    requires |ca| == |cb| == |s|
    requires forall k :: 0 <= k < |s| ==> Keeps(ca[k], s[k]) == Keeps(cb[k], s[k])
    ensures Masked(s, ca) == Masked(s, cb)
  {
    if s == "" {
    } else {
      MaskedSame(s[1..], ca[1..], cb[1..]);
    }
  }

  /** A move of the automaton over characters that stay blank. */
  lemma MoveBlank(s: string, buffer: seq<byte>, i: nat, mode: Mode, done: seq<Class>, i': nat)
    requires i < |s| && Reached(s, buffer, i, mode, done)
    requires Min(i', |s|) == i + |Advance(s, i, mode).classes|
    requires StaysBlank(s, i, Advance(s, i, mode).classes)
    ensures Reached(s, buffer, i', Advance(s, i, mode).mode, done + Advance(s, i, mode).classes)
  {
    hide Advance, Utf8, Masked, Keeps, Draft;
    var m := Advance(s, i, mode);
    DraftUnchanged(s, done, m.classes);
    assert (done + m.classes) + Classes(s, i + |m.classes|, m.mode)
        == done + (m.classes + Classes(s, i + |m.classes|, m.mode));
  }

  /** None of these classes keeps its character. */
  ghost predicate StaysBlank(s: string, i: nat, classes: seq<Class>) {
    forall j :: i <= j < i + |classes| && j < |s| ==> !Keeps(classes[j - i], s[j])
  }

  lemma DraftUnchanged(s: string, done: seq<Class>, more: seq<Class>)
    requires |done| + |more| <= |s|
    requires StaysBlank(s, |done|, more)
    ensures Draft(s, done) == Draft(s, done + more)
  {
    CharTextNeverKept();
    hide Masked, Keeps;
    var before, after := done + Same(CharText, |s| - |done|), done + more + Same(CharText, |s| - |done| - |more|);
    forall k | 0 <= k < |s| ensures Keeps(before[k], s[k]) == Keeps(after[k], s[k]) {
      if k < |done| {
        assert before[k] == done[k] == after[k];
      } else if k < |done| + |more| {
        assert before[k] == CharText && after[k] == more[k - |done|];
      }
    }
    MaskedSame(s, before, after);
  }

  lemma CharTextNeverKept()
    ensures forall c :: !Keeps(CharText, c)
  {}

  lemma DraftWithKept(s: string, i: nat, done: seq<Class>, cls: Class)
    requires i < |s| && |done| == i && Keeps(cls, s[i])
    ensures Masked(s, (done + Same(CharText, |s| - i))[i := Plain]) == Draft(s, done + [cls])
  {
    hide Masked, Keeps, Same;
    var n := |s| - i;
    PlainIsKept(s[i]);
    SameExceptAt(s, (done + Same(CharText, n))[i := Plain], done + [cls] + Same(CharText, n - 1), i, done, cls);
  }

  lemma SameExceptAt(s: string, a: seq<Class>, b: seq<Class>, i: nat, done: seq<Class>, cls: Class)
    requires i < |s| && |done| == i && Keeps(cls, s[i]) && Keeps(Plain, s[i])
    requires a == (done + Same(CharText, |s| - i))[i := Plain] && b == done + [cls] + Same(CharText, |s| - i - 1)
    ensures Masked(s, a) == Masked(s, b)
  {
    hide Masked, Keeps, Same;
    assert |a| == |b| == |s| && a[i] == Plain && b[i] == cls;
    forall k | 0 <= k < |s| && k != i ensures a[k] == b[k] { DraftsAgree(done, |s| - i, cls, k); }
    MaskedSameExceptAt(s, a, b, i);
  }

  lemma PlainIsKept(c: char)
    ensures Keeps(Plain, c)
  {}

  lemma DraftsAgree(done: seq<Class>, n: nat, cls: Class, k: nat)
    requires n > 0 && k < |done| + n && k != |done|
    ensures (done + Same(CharText, n))[|done| := Plain][k] == (done + [cls] + Same(CharText, n - 1))[k]
  {
    hide Same;
    if k > |done| {
      assert (done + Same(CharText, n))[k] == Same(CharText, n)[k - |done|] == CharText;
      assert (done + [cls] + Same(CharText, n - 1))[k] == Same(CharText, n - 1)[k - |done| - 1] == CharText;
    }
  }

  lemma MaskedSameExceptAt(s: string, ca: seq<Class>, cb: seq<Class>, i: nat)
    requires |ca| == |cb| == |s| && i < |s| && Keeps(ca[i], s[i]) && Keeps(cb[i], s[i])
    requires forall k :: 0 <= k < |s| && k != i ==> ca[k] == cb[k]
    ensures Masked(s, ca) == Masked(s, cb)
  {
    hide Masked, Keeps;
    forall k | 0 <= k < |s| ensures Keeps(ca[k], s[k]) == Keeps(cb[k], s[k]) {
      if k != i { assert ca[k] == cb[k]; }
    }
    MaskedSame(s, ca, cb);
  }

  /** A move over a single character that was just copied. */
  lemma MoveKept(s: string, buffer: seq<byte>, i: nat, mode: Mode, done: seq<Class>)
    requires i < |s| && |done| == i && done + Classes(s, i, mode) == Classes(s, 0, InCode)
    requires |Advance(s, i, mode).classes| == 1 && Keeps(Advance(s, i, mode).classes[0], s[i])
    requires buffer == Utf8(Masked(s, (done + Same(CharText, |s| - i))[i := Plain]))
    ensures Reached(s, buffer, i + 1, Advance(s, i, mode).mode, done + Advance(s, i, mode).classes)
  {
    hide Advance, Utf8, Masked, Keeps, Draft;
    var m := Advance(s, i, mode);
    assert m.classes == [m.classes[0]];
    DraftWithKept(s, i, done, m.classes[0]);
    assert (done + m.classes) + Classes(s, i + 1, m.mode) == done + (m.classes + Classes(s, i + 1, m.mode));
  }

  /** Copy character `i`, which the automaton keeps, and step past it. */
  method KeepAndStep(out: array<byte>, s: string, i: nat, ghost mode: Mode, ghost done: seq<Class>)
      returns (ghost done': seq<Class>)
    requires i < |s| && Reached(s, out[..], i, mode, done)
    requires |Advance(s, i, mode).classes| == 1 && Keeps(Advance(s, i, mode).classes[0], s[i])
    modifies out
    ensures Reached(s, out[..], i + 1, Advance(s, i, mode).mode, done')
  {
    hide Advance, Utf8, Masked, Keeps;
    Keep(out, s, i, done + Same(CharText, |s| - i));
    MoveKept(s, out[..], i, mode, done);
    done' := done + Advance(s, i, mode).classes;
  }

  /** At the end of the text the mode no longer matters. */
  lemma AtEnd(s: string, buffer: seq<byte>, i: nat, mode: Mode, done: seq<Class>)
    requires i >= |s| && Reached(s, buffer, i, mode, done)
    ensures Reached(s, buffer, i, InCode, done)
  {}

  /** Step over characters that stay blank. */
  method Skip(out: array<byte>, s: string, i: nat, n: nat, ghost mode: Mode, ghost done: seq<Class>)
      returns (i': nat, ghost done': seq<Class>)
    requires i < |s| && Reached(s, out[..], i, mode, done)
    requires Min(i + n, |s|) == i + |Advance(s, i, mode).classes|
    requires StaysBlank(s, i, Advance(s, i, mode).classes)
    ensures i' == i + n && Reached(s, out[..], i', Advance(s, i, mode).mode, done')
  {
    MoveBlank(s, out[..], i, mode, done, i + n);
    i', done' := i + n, done + Advance(s, i, mode).classes;
  }

  /** Two modes that move alike at a position are interchangeable there. */
  lemma SameMove(s: string, buffer: seq<byte>, i: nat, mode: Mode, other: Mode, done: seq<Class>)
    requires Reached(s, buffer, i, mode, done)
    requires i < |s| ==> Advance(s, i, mode) == Advance(s, i, other)
    ensures Reached(s, buffer, i, other, done)
  {
    hide Advance, Draft, Utf8;
    assert i < |s| ==> Classes(s, i, mode) == Classes(s, i, other);
  }

  method ScanLineComment(out: array<byte>, s: string, start: nat, ghost before: seq<Class>)
      returns (i: nat, ghost done: seq<Class>)
    requires start < |s| && Reached(s, out[..], start, InLine, before)
    requires s[start] != '\n'
    ensures i > start && Reached(s, out[..], i, InCode, done)
  {
    hide Reached;
    i, done := start, before;
    while i < |s| && s[i] != '\n'
      invariant i >= start && Reached(s, out[..], i, InLine, done) && (i == start ==> done == before)
    {
      i, done := Skip(out, s, i, 1, InLine, done);
    }
    SameMove(s, out[..], i, InLine, InCode, done);
  }

  method ScanBlockComment(out: array<byte>, s: string, start: nat, ghost before: seq<Class>)
      returns (i: nat, ghost done: seq<Class>)
    requires start < |s| && Reached(s, out[..], start, InBlock(0), before)
    requires Is(s, start, '/') && Is(s, start + 1, '*')
    modifies out
    ensures i > start && Reached(s, out[..], i, InCode, done)
  {
    hide Reached;
    i, done := start, before;
    var depth: nat := 0;
    while i < |s|
      invariant i >= start && Reached(s, out[..], i, InBlock(depth), done)
      invariant depth == 0 ==> i == start
      decreases |s| - i
    {
      if s[i] == '\n' {
        done := KeepAndStep(out, s, i, InBlock(depth), done);
        i := i + 1;
      } else if s[i] == '/' && Is(s, i + 1, '*') {
        i, done := Skip(out, s, i, 2, InBlock(depth), done);
        depth := depth + 1;
      } else if s[i] == '*' && Is(s, i + 1, '/') {
        i, done := Skip(out, s, i, 2, InBlock(depth), done);
        depth := depth - 1;
        if depth == 0 {
          return;
        }
      } else {
        i, done := Skip(out, s, i, 1, InBlock(depth), done);
      }
    }
    AtEnd(s, out[..], i, InBlock(depth), done);
  }

  method CountHashes(s: string, start: nat) returns (n: nat)
    ensures n == Hashes(s, start)
  {
    var k := start;
    while Is(s, k, '#')
      invariant start <= k && k - start + Hashes(s, k) == Hashes(s, start)
      decreases |s| - k
    {
      k := k + 1;
    }
    return k - start;
  }

  method ScanRawString(out: array<byte>, s: string, start: nat, hashes: nat, ghost before: seq<Class>)
      returns (i: nat, ghost done: seq<Class>)
    requires Reached(s, out[..], start, InRaw(hashes), before)
    modifies out
    ensures i >= start && Reached(s, out[..], i, InCode, done)
  {
    hide Reached;
    i, done := start, before;
    while i < |s|
      invariant i >= start && Reached(s, out[..], i, InRaw(hashes), done)
      decreases |s| - i
    {
      if s[i] == '\n' {
        done := KeepAndStep(out, s, i, InRaw(hashes), done);
        i := i + 1;
      } else if s[i] == '"' && AllHashes(s, i + 1, hashes) {
        RawCloses(s, i, hashes);
        RawClosingIsBlank(s, i, hashes);
        i, done := Skip(out, s, i, hashes + 1, InRaw(hashes), done);
        return;
      } else {
        i, done := Skip(out, s, i, 1, InRaw(hashes), done);
      }
    }
    AtEnd(s, out[..], i, InRaw(hashes), done);
  }

  lemma RawClosingIsBlank(s: string, i: nat, hashes: nat)
    requires i < |s| && s[i] == '"' && AllHashes(s, i + 1, hashes)
    ensures StaysBlank(s, i, Same(RawText, hashes + 1))
  {
    forall j | i <= j < i + hashes + 1 && j < |s| ensures !Keeps(RawText, s[j]) {
      if j > i { assert Is(s, j, '#'); }
    }
  }

  method ScanString(out: array<byte>, s: string, start: nat, ghost before: seq<Class>)
      returns (i: nat, ghost done: seq<Class>)
    requires Reached(s, out[..], start, InStr, before)
    modifies out
    ensures i >= start && Reached(s, out[..], i, InCode, done)
  {
    hide Reached;
    i, done := start, before;
    while i < |s|
      invariant i >= start && Reached(s, out[..], i, InStr, done)
      decreases |s| - i
    {
      if s[i] == '\\' {
        i, done := Skip(out, s, i, 2, InStr, done);
      } else if s[i] == '\n' {
        done := KeepAndStep(out, s, i, InStr, done);
        i := i + 1;
      } else if s[i] == '"' {
        i, done := Skip(out, s, i, 1, InStr, done);
        return;
      } else {
        i, done := Skip(out, s, i, 1, InStr, done);
      }
    }
    AtEnd(s, out[..], i, InStr, done);
  }

  method ScanCharLiteral(out: array<byte>, s: string, start: nat, ghost before: seq<Class>)
      returns (i: nat, ghost done: seq<Class>)
    requires Reached(s, out[..], start, InChar, before)
    ensures i >= start && Reached(s, out[..], i, InCode, done)
  {
    hide Reached;
    i, done := start, before;
    while i < |s|
      invariant i >= start && Reached(s, out[..], i, InChar, done)
      decreases |s| - i
    {
      if s[i] == '\\' {
        i, done := Skip(out, s, i, 2, InChar, done);
      } else if s[i] == '\'' {
        i, done := Skip(out, s, i, 1, InChar, done);
        return;
      } else {
        i, done := Skip(out, s, i, 1, InChar, done);
      }
    }
    AtEnd(s, out[..], i, InChar, done);
  }

  /** A raw string from its `r` on, or a name that merely starts with `r`. */
  method ScanR(out: array<byte>, s: string, start: nat, ghost before: seq<Class>)
      returns (i: nat, ghost done: seq<Class>)
    requires Is(s, start, 'r') && (Is(s, start + 1, '"') || Is(s, start + 1, '#'))
    requires Reached(s, out[..], start, InCode, before)
    modifies out
    ensures i > start && Reached(s, out[..], i, InCode, done)
  {
    hide Reached;
    var hashes := CountHashes(s, start + 1);
    var k := start + 1 + hashes;
    if !Is(s, k, '"') {
      done := KeepAndStep(out, s, start, InCode, before);
      i := start + 1;
    } else {
      RawOpeningIsBlank(s, start);
      i, done := Skip(out, s, start, hashes + 2, InCode, before);
      i, done := ScanRawString(out, s, i, hashes, done);
    }
  }

  lemma {:induction false} HashesAreHashes(s: string, i: nat)
    ensures AllHashes(s, i, Hashes(s, i))
    decreases |s| - i
  {
    if Is(s, i, '#') {
      HashesAreHashes(s, i + 1);
      OneMoreHash(s, i, Hashes(s, i + 1));
    } else {
      assert Hashes(s, i) == 0;
    }
  }

  lemma OneMoreHash(s: string, i: nat, n: nat)
    requires Is(s, i, '#') && AllHashes(s, i + 1, n)
    ensures AllHashes(s, i, n + 1)
  {
    forall k | i <= k < i + (n + 1) ensures Is(s, k, '#') {
      if k > i { assert i + 1 <= k < i + 1 + n; }
    }
  }

  lemma RawOpeningIsBlank(s: string, i: nat)
    requires OpensRaw(s, i)
    ensures StaysBlank(s, i, Same(RawText, Hashes(s, i + 1) + 2))
  {
    HashesAreHashes(s, i + 1);
    var n := Hashes(s, i + 1);
    hide Hashes;
    forall j | i <= j < i + n + 2 && j < |s| ensures s[j] != '\n' {
      if i < j <= i + n { assert Is(s, j, '#'); }
    }
  }

  /** `blank_literals`: the buffer ends up as the UTF-8 form of the blanked text. */
  method BlankLiterals(s: string) returns (out: array<byte>)
    ensures fresh(out) && out[..] == Utf8(Blanked(s))
  {
    hide Reached;
    out := new byte[Offset(s, |s|)](_ => 0x20);
    ghost var done: seq<Class> := [];
    StartsBlank(s, out[..]);
    var i := 0;
    while i < |s|
      invariant fresh(out) && Reached(s, out[..], i, InCode, done)
      decreases |s| - i
    {
      var c := s[i];
      if c == '/' && Is(s, i + 1, '/') {
        SameMove(s, out[..], i, InCode, InLine, done);
        i, done := ScanLineComment(out, s, i, done);
      } else if c == '/' && Is(s, i + 1, '*') {
        SameMove(s, out[..], i, InCode, InBlock(0), done);
        i, done := ScanBlockComment(out, s, i, done);
      } else if c == 'r' && (Is(s, i + 1, '"') || Is(s, i + 1, '#')) {
        i, done := ScanR(out, s, i, done);
      } else if c == '"' {
        i, done := Skip(out, s, i, 1, InCode, done);
        i, done := ScanString(out, s, i, done);
      } else if OpensChar(s, i) {
        i, done := Skip(out, s, i, 1, InCode, done);
        i, done := ScanCharLiteral(out, s, i, done);
      } else {
        NotRaw(s, i);
        done := KeepAndStep(out, s, i, InCode, done);
        i := i + 1;
      }
    }
    EndsBlanked(s, out[..], i, done);
  }

  lemma NotRaw(s: string, i: nat)
    requires i < |s| && !(s[i] == 'r' && (Is(s, i + 1, '"') || Is(s, i + 1, '#')))
    ensures !OpensRaw(s, i)
  {}

  lemma {:induction false} AllBlankBytes(s: string)
    ensures |Utf8(Masked(s, Same(CharText, |s|)))| == Offset(s, |s|)
    ensures forall k :: 0 <= k < Offset(s, |s|) ==> Utf8(Masked(s, Same(CharText, |s|)))[k] == 0x20
    decreases |s|
  {
    if s == "" {
    } else {
      var n := |s| - 1;
      var a, ca := s[..n], Same(CharText, n);
      assert s == a + [s[n]] && Same(CharText, |s|) == ca + [CharText];
      MaskedConcat(a, [s[n]], ca, [CharText]);
      OneMasked(s[n], CharText);
      SpacesBytes(|Encode(s[n])|);
      Utf8Concat(Masked(a, ca), Masked([s[n]], [CharText]));
      AllBlankBytes(a);
      OffsetOfPrefix(s, n);
    }
  }

  lemma {:induction false} OffsetOfPrefix(s: string, k: nat)
    requires k <= |s|
    ensures Offset(s[..k], |s[..k]|) == Offset(s, k)
    decreases k
  {
    hide Encode;
    if k == 0 {
    } else {
      OffsetOfPrefix(s, k - 1);
      assert s[..k][..k - 1] == s[..k - 1];
      OffsetOfPrefix(s[..k], k - 1);
    }
  }

  lemma StartsBlank(s: string, buffer: seq<byte>)
    requires |buffer| == Offset(s, |s|) && forall k :: 0 <= k < |buffer| ==> buffer[k] == 0x20
    ensures Reached(s, buffer, 0, InCode, [])
  {
    hide Masked, Utf8, Offset, Classes;
    AllBlankBytes(s);
    assert [] + Same(CharText, |s|) == Same(CharText, |s|);
    assert [] + Classes(s, 0, InCode) == Classes(s, 0, InCode);
    assert buffer == Utf8(Masked(s, Same(CharText, |s|)));
  }

  lemma EndsBlanked(s: string, buffer: seq<byte>, i: nat, done: seq<Class>)
    requires i >= |s| && Reached(s, buffer, i, InCode, done)
    ensures buffer == Utf8(Blanked(s))
  {
    assert done + [] == done && done + Same(CharText, 0) == done;
  }
}
