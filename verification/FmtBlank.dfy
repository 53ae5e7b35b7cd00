/** The literal-blanking scanner of `xtask/src/fmt_idiom.rs`, `blank_literals`: every string,
    char literal and comment of a Rust source replaced by spaces of the same byte length. */
module FmtBlank {
  import opened ByteStrings

  // ---- UTF-8 ----

  function Code(c: char): nat { c as int }

  /** UTF-8 encoding of one scalar value (section 3 of RFC 3629). */
  function Encode(c: char): (r: seq<byte>)
    ensures 1 <= |r| <= 4
  {
    var n := Code(c);
    if n < 0x80 then [n as byte]
    else if n < 0x800 then [(0xC0 + n / 64) as byte, (0x80 + n % 64) as byte]
    else if n < 0x1_0000 then
      [(0xE0 + n / 4096) as byte, (0x80 + n / 64 % 64) as byte, (0x80 + n % 64) as byte]
    else
      [(0xF0 + n / 262144) as byte, (0x80 + n / 4096 % 64) as byte, (0x80 + n / 64 % 64) as byte,
       (0x80 + n % 64) as byte]
  }

  function Utf8(s: string): seq<byte> {
    if s == "" then [] else Encode(s[0]) + Utf8(s[1..])
  }

  lemma {:induction false} Utf8Concat(a: string, b: string)
    ensures Utf8(a + b) == Utf8(a) + Utf8(b)
  {
    hide Encode;
    if a == "" {
      assert a + b == b;
    } else {
      assert (a + b)[1..] == a[1..] + b;
      Utf8Concat(a[1..], b);
    }
  }

  function Spaces(n: nat): string {
    if n == 0 then "" else " " + Spaces(n - 1)
  }

  // ---- The classification of every character ----

  /** What a character belongs to: ordinary code, the inside (with its delimiters) of a comment,
      raw string, string or char literal, or the second half of a backslash escape. */
  datatype Class = Plain | Comment | RawText | StrText | CharText | Escaped

  datatype Mode = InCode | InLine | InBlock(depth: nat) | InRaw(hashes: nat) | InStr | InChar

  /** Code is copied; of the rest only newlines outside char literals and escapes are. */
  predicate Keeps(cls: Class, c: char) {
    cls == Plain || (c == '\n' && cls in {Comment, RawText, StrText})
  }

  /** Lookahead; past the end nothing matches. */
  predicate Is(s: string, i: nat, c: char) { i < |s| && s[i] == c }

  function Hashes(s: string, i: nat): (n: nat)
    ensures i <= |s| ==> i + n <= |s|
    decreases |s| - i
  {
    if Is(s, i, '#') then 1 + Hashes(s, i + 1) else 0
  }

  predicate AllHashes(s: string, i: nat, n: nat) {
    forall k :: i <= k < i + n ==> Is(s, k, '#')
  }

  function Same(cls: Class, n: nat): (r: seq<Class>)
    ensures |r| == n && forall k :: 0 <= k < n ==> r[k] == cls
  {
    seq(n, _ => cls)
  }

  predicate OpensRaw(s: string, i: nat) {
    Is(s, i, 'r') && Is(s, i + 1 + Hashes(s, i + 1), '"')
  }

  /** A `'` opens a char literal when an escape or a closing quote follows; else it is a lifetime. */
  predicate OpensChar(s: string, i: nat) {
    Is(s, i, '\'') && (Is(s, i + 1, '\\') || Is(s, i + 2, '\''))
  }

  /** Classes of the next characters, and the mode and position after them. */
  datatype Move = Move(classes: seq<Class>, mode: Mode)

  function Advance(s: string, i: nat, mode: Mode): (m: Move)
    requires i < |s|
    ensures 1 <= |m.classes| && i + |m.classes| <= |s|
  {
    var c := s[i];
    match mode
    case InCode =>
      if c == '/' && Is(s, i + 1, '/') then Move([Comment], InLine)
      else if c == '/' && Is(s, i + 1, '*') then Move([Comment, Comment], InBlock(1))
      else if OpensRaw(s, i) then Move(Same(RawText, Hashes(s, i + 1) + 2), InRaw(Hashes(s, i + 1)))
      else if c == '"' then Move([StrText], InStr)
      else if OpensChar(s, i) then Move([CharText], InChar)
      else Move([Plain], InCode)
    case InLine =>
      if c == '\n' then Move([Plain], InCode) else Move([Comment], InLine)
    case InBlock(depth) =>
      if c == '/' && Is(s, i + 1, '*') then Move([Comment, Comment], InBlock(depth + 1))
      else if c == '*' && Is(s, i + 1, '/') then
        Move([Comment, Comment], if depth <= 1 then InCode else InBlock(depth - 1))
      else Move([Comment], mode)
    case InRaw(hashes) =>
      if c == '"' && AllHashes(s, i + 1, hashes) then
        RawCloses(s, i, hashes);
        Move(Same(RawText, hashes + 1), InCode)
      else Move([RawText], mode)
    case InStr =>
      if c == '\\' then Move([StrText] + Same(Escaped, if i + 1 < |s| then 1 else 0), InStr)
      else Move([StrText], if c == '"' then InCode else InStr)
    case InChar =>
      if c == '\\' then Move([CharText] + Same(Escaped, if i + 1 < |s| then 1 else 0), InChar)
      else Move([CharText], if c == '\'' then InCode else InChar)
  }

  lemma RawCloses(s: string, i: nat, hashes: nat)
    requires i < |s| && AllHashes(s, i + 1, hashes)
    ensures i + 1 + hashes <= |s|
  {
    if hashes > 0 { assert Is(s, i + hashes, '#'); }
  }

  /** The automaton: classes of `s[i..]` when position `i` is reached in `mode`. */
  function Classes(s: string, i: nat, mode: Mode): (r: seq<Class>)
    requires i <= |s|
    ensures |r| == |s| - i
    decreases |s| - i
  {
    if i == |s| then []
    else
      var m := Advance(s, i, mode);
      m.classes + Classes(s, i + |m.classes|, m.mode)
  }

  // ---- The blanked text ----

  /** Copy the characters whose class keeps them, replace each other one by as many spaces as
      it has bytes. */
  function Masked(s: string, classes: seq<Class>): string
    requires |classes| == |s|
  {
    if s == "" then ""
    else (if Keeps(classes[0], s[0]) then [s[0]] else Spaces(|Encode(s[0])|)) + Masked(s[1..], classes[1..])
  }

  function Blanked(s: string): string { Masked(s, Classes(s, 0, InCode)) }

  lemma {:induction false} SpacesBytes(n: nat)
    ensures |Utf8(Spaces(n))| == n && |Spaces(n)| == n
    ensures forall k :: 0 <= k < n ==> Utf8(Spaces(n))[k] == 0x20 && Spaces(n)[k] == ' '
  {
    if n == 0 {
    } else {
      SpacesBytes(n - 1);
      assert Spaces(n)[1..] == Spaces(n - 1) && Encode(' ') == [0x20];
      assert Utf8(Spaces(n)) == [0x20] + Utf8(Spaces(n - 1));
    }
  }

  lemma {:induction false} MaskedConcat(a: string, b: string, ca: seq<Class>, cb: seq<Class>)
    requires |ca| == |a| && |cb| == |b|
    ensures Masked(a + b, ca + cb) == Masked(a, ca) + Masked(b, cb)
  {
    hide Keeps, Encode, Spaces;
    if a == "" {
      assert a + b == b && ca + cb == cb;
    } else {
      assert (a + b)[1..] == a[1..] + b && (ca + cb)[1..] == ca[1..] + cb;
      assert (a + b)[0] == a[0] && (ca + cb)[0] == ca[0];
      MaskedConcat(a[1..], b, ca[1..], cb);
    }
  }

  /** Blanking keeps the byte length. */
  lemma {:induction false} MaskedKeepsLength(s: string, classes: seq<Class>)
    requires |classes| == |s|
    ensures |Utf8(Masked(s, classes))| == |Utf8(s)|
  {
    hide Keeps, Encode;
    if s == "" {
    } else {
      var first := if Keeps(classes[0], s[0]) then [s[0]] else Spaces(|Encode(s[0])|);
      SpacesBytes(|Encode(s[0])|);
      assert Utf8([s[0]]) == Encode(s[0]) by {
        assert [s[0]][1..] == "";
        assert Encode(s[0]) + Utf8("") == Encode(s[0]);
      }
      Utf8Concat(first, Masked(s[1..], classes[1..]));
      MaskedKeepsLength(s[1..], classes[1..]);
    }
  }

  // ---- Blanking is a fixpoint: its output scans as plain code ----

  /** Nothing that opens a literal or a comment starts at `k`. */
  predicate Quiet(s: string, k: nat) {
    !Is(s, k, '"') && !(Is(s, k, '/') && (Is(s, k + 1, '/') || Is(s, k + 1, '*'))) && !OpensChar(s, k)
  }

  lemma {:induction false} PlainIsQuiet(s: string, i: nat, mode: Mode)
    requires i <= |s|
    ensures forall k :: i <= k < |s| && Keeps(Classes(s, i, mode)[k - i], s[k]) ==> Quiet(s, k)
    decreases |s| - i
  {
    hide Advance, Keeps, Quiet;
    if i < |s| {
      var m := Advance(s, i, mode);
      var next := i + |m.classes|;
      AdvanceIsQuiet(s, i, mode);
      PlainIsQuiet(s, next, m.mode);
      forall k | i <= k < |s| && Keeps(Classes(s, i, mode)[k - i], s[k]) ensures Quiet(s, k) {
        if k < next {
          assert Classes(s, i, mode)[k - i] == m.classes[k - i];
        } else {
          assert Classes(s, i, mode)[k - i] == Classes(s, next, m.mode)[k - next];
        }
      }
    }
  }

  lemma AdvanceIsQuiet(s: string, i: nat, mode: Mode)
    requires i < |s|
    ensures var m := Advance(s, i, mode);
            forall k :: i <= k < i + |m.classes| && Keeps(m.classes[k - i], s[k]) ==> Quiet(s, k)
  {}

  lemma {:induction false} MaskedFront(s: string, classes: seq<Class>, c: char)
    requires |classes| == |s| && c != ' '
    ensures Is(Masked(s, classes), 0, c) ==> Is(s, 0, c)
    ensures Is(Masked(s, classes), 1, c) ==> Is(s, 1, c)
  {
    if s == "" {
    } else {
      SpacesBytes(|Encode(s[0])|);
      var t := Masked(s[1..], classes[1..]);
      if s[1..] != "" { SpacesBytes(|Encode(s[1])|); }
      hide Encode;
      assert Is(t, 0, c) ==> Is(s, 1, c);
    }
  }

  lemma {:induction false} MaskedIsQuiet(s: string, classes: seq<Class>)
    requires |classes| == |s|
    requires forall k :: 0 <= k < |s| && Keeps(classes[k], s[k]) ==> Quiet(s, k)
    ensures forall k :: 0 <= k < |Masked(s, classes)| ==> Quiet(Masked(s, classes), k)
  {
    if s == "" {
    } else {
      var u, cu := s[1..], classes[1..];
      var rest := Masked(u, cu);
      var first := if Keeps(classes[0], s[0]) then [s[0]] else Spaces(|Encode(s[0])|);
      forall k | 0 <= k < |u| && Keeps(cu[k], u[k]) ensures Quiet(u, k) {
        assert Quiet(s, k + 1);
        Shift([s[0]], u, k);
        assert [s[0]] + u == s;
      }
      MaskedIsQuiet(u, cu);
      SpacesBytes(|Encode(s[0])|);
      MaskedFront(u, cu, '/');
      MaskedFront(u, cu, '*');
      MaskedFront(u, cu, '\\');
      MaskedFront(u, cu, '\'');
      QuietFront(s, classes, first, rest);
    }
  }

  lemma Shift(a: string, b: string, k: nat)
    ensures Quiet(a + b, |a| + k) <==> Quiet(b, k)
  {}

  lemma QuietFront(s: string, classes: seq<Class>, first: string, rest: string)
    requires s != "" && |classes| == |s| && (Keeps(classes[0], s[0]) ==> Quiet(s, 0))
    requires first == if Keeps(classes[0], s[0]) then [s[0]] else Spaces(|Encode(s[0])|)
    requires forall k :: 0 <= k < |first| && !Keeps(classes[0], s[0]) ==> first[k] == ' '
    requires forall c :: c in {'/', '*', '\\', '\''} ==>
               (Is(rest, 0, c) ==> Is(s[1..], 0, c)) && (Is(rest, 1, c) ==> Is(s[1..], 1, c))
    requires forall k :: 0 <= k < |rest| ==> Quiet(rest, k)
    ensures forall k :: 0 <= k < |first + rest| ==> Quiet(first + rest, k)
  {
    hide Encode, Spaces;
    var t := first + rest;
    forall k | 0 <= k < |t| ensures Quiet(t, k) {
      if k >= |first| {
        Shift(first, rest, k - |first|);
      } else if Keeps(classes[0], s[0]) {
        assert t[1..] == rest && t[0] == s[0];
        assert Is(t, 1, '/') ==> Is(rest, 0, '/');
        assert Is(t, 1, '*') ==> Is(rest, 0, '*');
        assert Is(t, 1, '\\') ==> Is(rest, 0, '\\');
        assert Is(t, 2, '\'') ==> Is(rest, 1, '\'');
      } else {
        assert t[k] == ' ';
      }
    }
  }

  lemma {:induction false} QuietScansAsPlain(t: string, i: nat)
    requires i <= |t| && forall k :: i <= k < |t| ==> Quiet(t, k)
    ensures Classes(t, i, InCode) == Same(Plain, |t| - i)
    decreases |t| - i
  {
    if i < |t| {
      assert Quiet(t, i);
      var quote := i + 1 + Hashes(t, i + 1);
      assert quote < |t| ==> Quiet(t, quote);
      QuietScansAsPlain(t, i + 1);
    }
  }

  lemma {:induction false} PlainIsCopied(t: string)
    ensures Masked(t, Same(Plain, |t|)) == t
  {
    if t == "" {
    } else {
      PlainIsCopied(t[1..]);
      assert Same(Plain, |t|)[1..] == Same(Plain, |t| - 1);
    }
  }

  /** The blanked text holds no literal and no comment: scanning it again changes nothing. */
  lemma BlankedIsFixpoint(s: string)
    ensures Classes(Blanked(s), 0, InCode) == Same(Plain, |Blanked(s)|)
    ensures Blanked(Blanked(s)) == Blanked(s)
    ensures '"' !in Blanked(s)
  {
    PlainIsQuiet(s, 0, InCode);
    MaskedIsQuiet(s, Classes(s, 0, InCode));
    var t := Blanked(s);
    hide Blanked;
    assert forall k :: 0 <= k < |t| ==> Quiet(t, k);
    forall k | 0 <= k < |t| ensures t[k] != '"' { assert Quiet(t, k); }
    QuietScansAsPlain(t, 0);
    PlainIsCopied(t);
    assert Blanked(t) == t by { BlankedUnfolds(t); }
  }

  lemma BlankedUnfolds(t: string)
    ensures Blanked(t) == Masked(t, Classes(t, 0, InCode))
  {}

  /** The text and its blanked form have the same byte length. */
  lemma BlankedKeepsLength(s: string)
    ensures |Utf8(Blanked(s))| == |Utf8(s)|
  {
    MaskedKeepsLength(s, Classes(s, 0, InCode));
  }

  // ---- A line comment in front of quiet text ----

  lemma {:induction false} CommentRuns(s: string, i: nat, j: nat)
    requires i <= j <= |s| && forall k :: i <= k < j ==> s[k] != '\n'
    ensures Classes(s, i, InLine) == Same(Comment, j - i) + Classes(s, j, InLine)
    decreases j - i
  {
    if i < j { CommentRuns(s, i + 1, j); }
  }

  lemma CommentOpens(s: string)
    requires |s| >= 2 && s[0] == '/' && s[1] == '/'
    ensures Classes(s, 0, InCode) == [Comment] + Classes(s, 1, InLine)
  {}

  lemma CommentEnds(s: string, j: nat)
    requires j < |s| && s[j] == '\n'
    ensures Classes(s, j, InLine) == [Plain] + Classes(s, j + 1, InCode)
  {}

  lemma LineCommentClasses(front: string, tail: string)
    requires |front| >= 2 && front[0] == '/' && front[1] == '/' && '\n' !in front
    requires forall k :: 0 <= k < |tail| ==> Quiet(tail, k)
    ensures Classes(front + ("\n" + tail), 0, InCode) == Same(Comment, |front|) + Same(Plain, 1 + |tail|)
  {
    hide Classes, Quiet;
    var s := front + ("\n" + tail);
    var j := |front|;
    CommentOpens(s);
    CommentRuns(s, 1, j);
    CommentEnds(s, j);
    assert s == (front + "\n") + tail;
    forall k | j + 1 <= k < |s| ensures Quiet(s, k) { Shift(front + "\n", tail, k - j - 1); }
    QuietScansAsPlain(s, j + 1);
  }

  lemma AsciiIsOneByte(c: char)
    requires Code(c) < 0x80
    ensures |Encode(c)| == 1
  {}

  lemma {:induction false} MaskedComment(s: string)
    requires '\n' !in s && forall c :: c in s ==> Code(c) < 0x80
    ensures Masked(s, Same(Comment, |s|)) == Spaces(|s|)
  {
    hide Encode, Code;
    if s == "" {
    } else {
      AsciiIsOneByte(s[0]);
      MaskedComment(s[1..]);
      assert s[0] in s && Same(Comment, |s|)[1..] == Same(Comment, |s| - 1);
      assert Spaces(1) == " " + Spaces(0);
    }
  }

  /** An ASCII line comment becomes spaces; quiet text behind it stays. */
  lemma LineCommentBlanked(front: string, tail: string)
    requires |front| >= 2 && front[0] == '/' && front[1] == '/' && '\n' !in front
    requires forall c :: c in front ==> Code(c) < 0x80
    requires forall k :: 0 <= k < |tail| ==> Quiet(tail, k)
    ensures Blanked(front + ("\n" + tail)) == Spaces(|front|) + ("\n" + tail)
  {
    hide Masked, Spaces, Classes, Quiet, Blanked, Same, Code;
    LineCommentClasses(front, tail);
    BlankedUnfolds(front + ("\n" + tail));
    CommentThenCode(front, "\n" + tail);
  }

  lemma CommentThenCode(front: string, back: string)
    requires '\n' !in front && forall c :: c in front ==> Code(c) < 0x80
    ensures Masked(front + back, Same(Comment, |front|) + Same(Plain, |back|)) == Spaces(|front|) + back
  {
    hide Masked, Spaces, Same, Code;
    MaskedConcat(front, back, Same(Comment, |front|), Same(Plain, |back|));
    MaskedComment(front);
    PlainIsCopied(back);
  }

  // ---- Newlines ----

  function Newlines(s: string): nat {
    if s == "" then 0 else (if s[0] == '\n' then 1 else 0) + Newlines(s[1..])
  }

  /** Newlines inside char literals and directly after a backslash. */
  function LostNewlines(s: string, classes: seq<Class>): nat
    requires |classes| == |s|
  {
    if s == "" then 0
    else (if s[0] == '\n' && classes[0] in {CharText, Escaped} then 1 else 0) + LostNewlines(s[1..], classes[1..])
  }

  lemma {:induction false} NewlinesConcat(a: string, b: string)
    ensures Newlines(a + b) == Newlines(a) + Newlines(b)
  {
    if a == "" { assert a + b == b; } else { assert (a + b)[1..] == a[1..] + b; NewlinesConcat(a[1..], b); }
  }

  lemma {:induction false} SpacesHaveNoNewline(n: nat)
    ensures Newlines(Spaces(n)) == 0
  {
    if n == 0 {
    } else {
      SpacesHaveNoNewline(n - 1);
    }
  }

  lemma {:induction false} NewlineBalance(s: string, classes: seq<Class>)
    requires |classes| == |s|
    ensures Newlines(Masked(s, classes)) + LostNewlines(s, classes) == Newlines(s)
  {
    if s == "" {
    } else {
      hide Encode;
      var n := |Encode(s[0])|;
      var first := if Keeps(classes[0], s[0]) then [s[0]] else Spaces(n);
      SpacesHaveNoNewline(n);
      assert [s[0]][1..] == "" && Newlines("") == 0;
      assert Newlines([s[0]]) == if s[0] == '\n' then 1 else 0;
      NewlinesConcat(first, Masked(s[1..], classes[1..]));
      NewlineBalance(s[1..], classes[1..]);
    }
  }

  /** Line numbers survive blanking exactly when no newline is escaped or in a char literal. */
  lemma NewlinesSurviveIff(s: string)
    ensures Newlines(Blanked(s)) == Newlines(s) <==> LostNewlines(s, Classes(s, 0, InCode)) == 0
  {
    NewlineBalance(s, Classes(s, 0, InCode));
  }

  /** A line break behind a backslash inside a string is lost. */
  lemma EscapedNewlineIsLost()
    ensures var s := ['"', '\\', '\n', '"']; Newlines(Blanked(s)) < Newlines(s)
  {
    var s := ['"', '\\', '\n', '"'];
    var classes := [StrText, StrText, Escaped, StrText];
    hide Newlines, Masked;
    assert Classes(s, 3, InStr) == [StrText];
    assert Same(Escaped, 1) == [Escaped];
    assert Classes(s, 1, InStr) == [StrText, Escaped] + Classes(s, 3, InStr);
    assert Classes(s, 0, InCode) == [StrText] + Classes(s, 1, InStr) == classes;
    hide Classes;
    NewlineBalance(s, classes);
    assert s[1..][1..] == ['\n', '"'] && classes[1..][1..] == [Escaped, StrText];
    assert LostNewlines(s[1..][1..], classes[1..][1..]) >= 1;
  }
}
