/** The opt-out marker of the lint of `xtask/src/fmt_idiom.rs`: for every unwrapped call, which
    line has to carry the marker. */
module FmtOptOut {
  import opened Options
  import opened FmtBlank
  import opened FmtIdiom

  // ---- Lines by their number ----

  /** The 0-based line `k` of the text carries the marker. */
  predicate Marked(src: string, k: int) {
    k >= 0 && NthLine(src, k).Some? && Contains(NthLine(src, k).value, ALLOW_MARKER)
  }

  lemma {:induction false} NewlineAtFirst(a: string, b: string)
    requires '\n' in a
    ensures NewlineAt(a + b) == NewlineAt(a) < |a| && a[NewlineAt(a)] == '\n'
    ensures Newlines(a) == 1 + Newlines(a[NewlineAt(a) + 1..])
    decreases |a|
  {
    assert (a + b)[0] == a[0] && (a + b)[1..] == a[1..] + b;
    if a[0] == '\n' {
      assert a[1..] == a[NewlineAt(a) + 1..];
    } else {
      NewlineAtFirst(a[1..], b);
      assert a[1..][NewlineAt(a[1..]) + 1..] == a[NewlineAt(a) + 1..];
    }
  }

  lemma {:induction false} NewlineAtEnd(line: string, rest: string)
    requires '\n' !in line && (rest != "" ==> rest[0] == '\n')
    ensures NewlineAt(line + rest) == |line|
    decreases |line|
  {
    if line == "" {
      assert line + rest == rest;
    } else {
      assert (line + rest)[0] == line[0] && (line + rest)[1..] == line[1..] + rest;
      NewlineAtEnd(line[1..], rest);
    }
  }

  /** The line behind `above` has as its number the newlines of `above`. */
  lemma {:induction false} NthLineIs(above: string, line: string, rest: string)
    requires above != "" ==> above[|above| - 1] == '\n'
    requires '\n' !in line && (rest != "" ==> rest[0] == '\n') && line + rest != ""
    ensures NthLine(above + (line + rest), Newlines(above)) == Some(line)
    decreases |above|
  {
    hide NthLine, NewlineAt;
    if above == "" {
      assert above + (line + rest) == line + rest;
      FirstLine(line, rest);
    } else {
      assert '\n' in above;
      NewlineAtFirst(above, line + rest);
      hide Newlines;
      NextLine(above, line + rest, Newlines(above));
      NthLineIs(above[NewlineAt(above) + 1..], line, rest);
    }
  }

  lemma FirstLine(line: string, rest: string)
    requires '\n' !in line && (rest != "" ==> rest[0] == '\n') && line + rest != ""
    ensures NthLine(line + rest, 0) == Some(line)
  {
    NewlineAtEnd(line, rest);
    assert (line + rest)[..|line|] == line;
  }

  lemma NextLine(above: string, below: string, n: nat)
    requires n > 0 && NewlineAt(above + below) == NewlineAt(above) < |above|
    ensures NthLine(above + below, n) == NthLine(above[NewlineAt(above) + 1..] + below, n - 1)
  {
    hide NewlineAt;
    var j := NewlineAt(above);
    assert (above + below)[j + 1..] == above[j + 1..] + below;
  }

  // ---- Which line decides ----

  /** The line that is looked at for the marker, for the macro behind `prefix`. */
  function MarkerLine(prefix: string): int {
    Newlines(prefix) - if prefix != "" && prefix[|prefix| - 1] == '\n' then 2 else 1
  }

  lemma AllowedIffMarked(src: string, prefix: string)
    ensures AllowedAt(src, ReportedLine(prefix)) <==> Marked(src, MarkerLine(prefix))
  {
    hide NthLine, Contains, Newlines, ReportedLine;
    ReportedLineIsTrueIff(prefix);
    OneLineAtLeast(prefix);
  }

  lemma OneLineAtLeast(prefix: string)
    ensures ReportedLine(prefix) >= 1
  {}

  /** An unwrapped call is passed over exactly when the line directly above it is marked, or, for
      a call at column 0, when the line above that one is. */
  lemma SuppressedIff(u: Unicode, src: string, name: string, p: nat, tail: Tail)
    requires name == "write" || name == "writeln"
    requires p < |Blanked(src)| && UnwrappedCall(u, Blanked(src), name, p, tail)
    ensures var k := |SourcePrefix(src, p)|;
            && k < |src| && src[k] == Blanked(src)[p] && SourcePrefix(src, p) == src[..k]
            && (ReportAt(u, src, name, p) == [] <==> Marked(src, MarkerLine(src[..k])))
  {
    CallStartsWithName(u, Blanked(src), name, p, tail);
    BoundarySurvives(src, p);
    assert SourcePrefix(src, p) == src[..|SourcePrefix(src, p)|];
    hide Blanked, UnwrappedCall, SourcePrefix, AllowedAt, Marked, MarkerLine, ReportedLine;
    AllowedIffMarked(src, SourcePrefix(src, p));
    match tail case Unwrap => case Expect =>
  }

  lemma CallStartsWithName(u: Unicode, code: string, name: string, p: nat, tail: Tail)
    requires name == "write" || name == "writeln"
    requires UnwrappedCall(u, code, name, p, tail)
    ensures p < |code| && code[p] == 'w'
  {
    hide BlankUpTo, Closes;
    var open: nat, end: nat, at: nat :| HasParts(u, code, name, p, open, end, at, tail);
    hide HasParts;
    var needle := Needle(name);
    assert needle[0] == 'w';
    hide Needle;
    FirstLetter(code, p, needle);
  }

  // ---- A marked call at column 0 that is reported all the same ----

  /** `write!(w).unwrap()` */
  function CallText(): string { Needle("write") + ("(w)" + TailText(Unwrap)) }

  predicate Ascii(s: string) { forall i :: 0 <= i < |s| ==> Code(s[i]) < 0x80 }

  predicate LineComment(s: string) { |s| >= 2 && s[0] == '/' && s[1] == '/' && '\n' !in s && Ascii(s) }

  lemma CallIsQuiet()
    ensures forall k :: 0 <= k < |CallText()| ==> Quiet(CallText(), k)
    ensures |CallText()| > 0 && CallText()[0] == 'w' && Ascii(CallText())
  {
    assert forall k :: 0 <= k < |CallText()| ==>
             CallText()[k] != '"' && CallText()[k] != '/' && CallText()[k] != '\'';
  }

  lemma CallIsUnwrapped(u: Unicode, before: string)
    requires u.Valid() && before != "" && before[|before| - 1] == '\n' && !u.alnum('\n')
    ensures UnwrappedCall(u, before + CallText(), "write", |before|, Unwrap)
  {
    hide CallText, Depth;
    var code, p := before + CallText(), |before|;
    CallPieces();
    Cut(before, CallText(), 0, 6);
    Cut(before, CallText(), 6, 7);
    Cut(before, CallText(), 6, 8);
    Cut(before, CallText(), 6, 9);
    Cut(before, CallText(), 9, 18);
    DepthOfGroup();
    assert code[p + 6] == CallText()[6] && code[p + 9] == CallText()[9];
    assert Closes(code, p + 6, p + 9);
    assert HasParts(u, code, "write", p, p + 6, p + 9, p + 9, Unwrap);
  }

  lemma CallPieces()
    ensures |CallText()| == 18 && CallText()[0..6] == Needle("write") && CallText()[9..18] == TailText(Unwrap)
    ensures CallText()[6..7] == "(" && CallText()[6..8] == "(w" && CallText()[6..9] == "(w)"
    ensures CallText()[6] == '(' && CallText()[9] == '.'
  {
    Cut(Needle("write"), "(w)" + TailText(Unwrap), 0, 1);
    Cut(Needle("write"), "(w)" + TailText(Unwrap), 0, 2);
    Cut(Needle("write"), "(w)" + TailText(Unwrap), 0, 3);
    Cut(Needle("write"), "(w)" + TailText(Unwrap), 3, 12);
    Cut("(w)", TailText(Unwrap), 0, 9);
    assert ("(w)" + TailText(Unwrap))[0..1] == "(" && ("(w)" + TailText(Unwrap))[0..2] == "(w";
  }

  lemma Cut(a: string, b: string, i: nat, j: nat)
    requires i <= j <= |b|
    ensures (a + b)[|a| + i..|a| + j] == b[i..j]
  {}

  lemma DepthOfGroup()
    ensures Depth("(") == 1 && Depth("(w") == 1 && Depth("(w)") == 0
  {
    assert "("[..0] == "" && "(w"[..1] == "(" && "(w)"[..2] == "(w";
  }

  lemma {:induction false} AsciiLength(s: string)
    requires Ascii(s)
    ensures |Utf8(s)| == |s|
  {
    if s == "" {
    } else {
      AsciiLength(s[1..]);
    }
  }

  lemma BlankedComment(comment: string)
    requires LineComment(comment)
    ensures Blanked(comment + ("\n" + CallText())) == (Spaces(|comment|) + "\n") + CallText()
  {
    hide CallText, Blanked, Spaces, Quiet;
    CallIsQuiet();
    LineCommentBlanked(comment, CallText());
  }

  /** The call's position in the source is its position in the blanked text. */
  lemma CallBelowComment(u: Unicode, comment: string)
    requires u.Valid() && !u.alnum('\n') && LineComment(comment)
    ensures var src, p := comment + ("\n" + CallText()), |comment| + 1;
            && p < |Blanked(src)| && UnwrappedCall(u, Blanked(src), "write", p, Unwrap)
            && |SourcePrefix(src, p)| == p
  {
    hide Blanked, UnwrappedCall, SourcePrefix, Spaces, Quiet, CallText, Utf8;
    var src, p := comment + ("\n" + CallText()), |comment| + 1;
    var before := Spaces(|comment|) + "\n";
    SpacesBytes(|comment|);
    CallIsQuiet();
    BlankedComment(comment);
    CallIsUnwrapped(u, before);
    assert (before + CallText())[p] == CallText()[0] && (before + CallText())[..p] == before;
    BoundarySurvives(src, p);
    AsciiLength(before);
    AsciiLength(src[..|SourcePrefix(src, p)|]);
  }

  lemma {:induction false} ReportHolds(u: Unicode, src: string, name: string, p: nat, hi: nat)
    requires p < hi <= |Blanked(src)| && ReportAt(u, src, name, p) != []
    ensures Report(u, src, name, 0, hi) != []
    decreases hi
  {
    hide Blanked, ReportAt;
    if p < hi - 1 { ReportHolds(u, src, name, p, hi - 1); }
  }

  /** A comment with the marker directly above a call at column 0 does not keep it out of the report. */
  lemma MarkerMissedAtColumnZero(u: Unicode, comment: string)
    requires u.Valid() && !u.alnum('\n') && LineComment(comment) && Contains(comment, ALLOW_MARKER)
    ensures var src := comment + ("\n" + CallText());
            Marked(src, 0) && Report(u, src, "write", 0, |Blanked(src)|) != []
  {
    hide Blanked, UnwrappedCall, SourcePrefix, NthLine, Contains, Report, ReportAt, CallText, Newlines, Ascii;
    var src, p := comment + ("\n" + CallText()), |comment| + 1;
    FirstLine(comment, "\n" + CallText());
    CallBelowComment(u, comment);
    SuppressedIff(u, src, "write", p, Unwrap);
    OneNewline(comment);
    assert src[..p] == comment + "\n";
    ReportHolds(u, src, "write", p, |Blanked(src)|);
  }

  lemma OneNewline(line: string)
    requires LineComment(line)
    ensures Newlines(line + "\n") == 1
  {
    NewlinesConcat(line, "\n");
    NoNewlines(line);
    assert "\n"[1..] == "" && Newlines("\n") == 1 + Newlines("");
  }

  lemma {:induction false} NoNewlines(s: string)
    requires '\n' !in s
    ensures Newlines(s) == 0
  {
    if s == "" {
    } else {
      NoNewlines(s[1..]);
    }
  }

  /** The hypothesis of `MarkerMissedAtColumnZero` can be met: a comment of nothing but the marker. */
  lemma MarkerCommentExists()
    ensures var comment := "// " + ALLOW_MARKER; LineComment(comment) && Contains(comment, ALLOW_MARKER)
  {
    var comment := "// " + ALLOW_MARKER;
    assert comment[3..3 + |ALLOW_MARKER|] == ALLOW_MARKER;
    assert StartsAt(comment, 3, ALLOW_MARKER);
  }
}
