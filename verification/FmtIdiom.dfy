/** The call matcher of `xtask/src/fmt_idiom.rs`: every unwrapped `write!` / `writeln!` of a file.
    Positions are character positions in the blanked text, which `BoundarySurvives` ties back to
    the source. */
module FmtIdiom {
  import opened Options
  import opened FmtBlank
  import opened StringOrder

  /** The Unicode tests `char::is_alphanumeric` and `char::is_whitespace`. */
  datatype Unicode = Unicode(alnum: char -> bool, ws: char -> bool) {
    ghost predicate Valid() { !ws('(') && !ws('.') }
  }

  datatype Tail = Unwrap | Expect

  function TailText(t: Tail): string {
    match t case Unwrap => ".unwrap()" case Expect => ".expect("
  }

  datatype Violation = Violation(line: nat, macroName: string, tail: Tail)

  const ALLOW_MARKER := "xtask-allow(fmt-idiom)"

  // ---- Balanced groups ----

  /** Opening minus closing parentheses. */
  ghost function Depth(s: string): int {
    if s == "" then 0
    else Depth(s[..|s| - 1]) + (if s[|s| - 1] == '(' then 1 else if s[|s| - 1] == ')' then -1 else 0)
  }

  /** `end` is the first point after `open` where the running parenthesis count is back to zero. */
  ghost predicate Closes(code: string, open: nat, end: nat) {
    && open < end <= |code|
    && Depth(code[open..end]) == 0
    && forall e :: open < e < end ==> Depth(code[open..e]) > 0
  }

  lemma DepthStep(code: string, open: nat, i: nat)
    requires open <= i < |code|
    ensures Depth(code[open..i + 1])
         == Depth(code[open..i]) + (if code[i] == '(' then 1 else if code[i] == ')' then -1 else 0)
  {
    assert code[open..i + 1][..i - open] == code[open..i];
  }

  /** `close_paren`: the offset just past the `)` that closes the group opened at `open`. */
  method CloseParen(code: string, open: nat) returns (end: Option<nat>)
    requires open < |code| && code[open] == '('
    ensures end.Some? ==> Closes(code, open, end.value)
    ensures end.None? ==> forall e :: open < e <= |code| ==> Depth(code[open..e]) > 0
  {
    var depth: nat := 0;
    assert code[open..open] == "";
    for i := open to |code|
      invariant depth == Depth(code[open..i])
      invariant i == open || depth > 0
      invariant forall e :: open < e <= i ==> Depth(code[open..e]) > 0
    {
      DepthStep(code, open, i);
      if code[i] == '(' {
        depth := depth + 1;
      } else if code[i] == ')' {
        depth := depth - 1;
        if depth == 0 {
          return Some(i + 1);
        }
      }
    }
    return None;
  }

  // ---- What counts as an unwrapped call ----

  predicate StartsAt(code: string, p: nat, text: string) {
    p + |text| <= |code| && code[p..p + |text|] == text
  }

  /** White space from `i` up to `j`, and none at `j`. */
  ghost predicate BlankUpTo(u: Unicode, code: string, i: nat, j: nat) {
    i <= j <= |code| && (forall k :: i <= k < j ==> u.ws(code[k])) && (j < |code| ==> !u.ws(code[j]))
  }

  function Needle(name: string): string { name + "!" }

  predicate WholeToken(u: Unicode, code: string, name: string, p: nat) {
    StartsAt(code, p, Needle(name)) && (p > 0 ==> !(u.alnum(code[p - 1]) || code[p - 1] == '_'))
  }

  /** The name counts behind any text that does not end in a word character, and behind no other. */
  lemma NameStandsAlone(u: Unicode, before: string, name: string, after: string)
    ensures WholeToken(u, before + (Needle(name) + after), name, |before|)
       <==> before == "" || !(u.alnum(before[|before| - 1]) || before[|before| - 1] == '_')
  {
    var code := before + (Needle(name) + after);
    assert code[|before|..|before| + |Needle(name)|] == Needle(name);
  }

  /** The macro name, optional white space, a balanced group, optional white space, the tail. */
  ghost predicate HasParts(u: Unicode, code: string, name: string, p: nat, open: nat, end: nat, at: nat, tail: Tail) {
    && WholeToken(u, code, name, p)
    && BlankUpTo(u, code, p + |Needle(name)|, open) && open < |code| && code[open] == '('
    && Closes(code, open, end)
    && BlankUpTo(u, code, end, at)
    && StartsAt(code, at, TailText(tail))
  }

  ghost predicate UnwrappedCall(u: Unicode, code: string, name: string, p: nat, tail: Tail) {
    exists open: nat, end: nat, at: nat :: HasParts(u, code, name, p, open, end, at, tail)
  }

  lemma BlankEndIsUnique(u: Unicode, code: string, i: nat, j: nat, j': nat)
    requires BlankUpTo(u, code, i, j) && BlankUpTo(u, code, i, j')
    ensures j == j'
  {}

  /** All parts are determined by the position, so at most one tail applies. */
  lemma PartsAreUnique(u: Unicode, code: string, name: string, p: nat,
                       open: nat, end: nat, at: nat, tail: Tail, open': nat, end': nat, at': nat, tail': Tail)
    requires HasParts(u, code, name, p, open, end, at, tail)
    requires HasParts(u, code, name, p, open', end', at', tail')
    ensures open == open' && end == end' && at == at' && tail == tail'
  {
    hide WholeToken, StartsAt, TailText, Depth, Needle;
    BlankEndIsUnique(u, code, p + |Needle(name)|, open, open');
    BlankEndIsUnique(u, code, end, at, at');
    TailIsUnique(code, at, tail, tail');
  }

  lemma TailIsUnique(code: string, at: nat, tail: Tail, tail': Tail)
    requires StartsAt(code, at, TailText(tail)) && StartsAt(code, at, TailText(tail'))
    ensures tail == tail'
  {
    SecondOfTail(code, at, tail);
    SecondOfTail(code, at, tail');
    hide StartsAt;
  }

  lemma SecondOfTail(code: string, at: nat, tail: Tail)
    requires StartsAt(code, at, TailText(tail))
    ensures at + 1 < |code| && code[at + 1] == TailText(tail)[1]
  {
    assert code[at..at + |TailText(tail)|][1] == code[at + 1];
  }

  method SkipBlank(u: Unicode, code: string, i: nat) returns (j: nat)
    requires i <= |code|
    ensures BlankUpTo(u, code, i, j)
  {
    j := i;
    while j < |code| && u.ws(code[j])
      invariant i <= j <= |code| && forall k :: i <= k < j ==> u.ws(code[k])
    {
      j := j + 1;
    }
  }

  /** First `(` from `i` on. */
  method FindOpen(code: string, i: nat) returns (open: Option<nat>)
    requires i <= |code|
    ensures open.Some? ==> i <= open.value < |code| && code[open.value] == '('
                           && forall k :: i <= k < open.value ==> code[k] != '('
    ensures open.None? ==> forall k :: i <= k < |code| ==> code[k] != '('
  {
    for k := i to |code|
      invariant forall x :: i <= x < k ==> code[x] != '('
    {
      if code[k] == '(' {
        return Some(k);
      }
    }
    return None;
  }

  /** The tail of the call at `p`, if it is an unwrapped one. */
  method TailOf(u: Unicode, code: string, name: string, p: nat) returns (tail: Option<Tail>)
    requires u.Valid() && StartsAt(code, p, Needle(name))
    ensures forall t :: tail == Some(t) <==> UnwrappedCall(u, code, name, p, t)
  {
    if p > 0 && (u.alnum(code[p - 1]) || code[p - 1] == '_') {
      return None;
    }
    var from := p + |Needle(name)|;
    var open := FindOpen(code, from);
    if open.None? {
      return None;
    }
    var blank := SkipBlank(u, code, from);
    if blank < open.value {
      forall o: nat, e: nat, a: nat, t ensures !HasParts(u, code, name, p, o, e, a, t) {
        if BlankUpTo(u, code, from, o) { BlankEndIsUnique(u, code, from, o, blank); }
      }
      return None;
    }
    var end := CloseParen(code, open.value);
    assert BlankUpTo(u, code, from, open.value);
    if end.None? {
      forall o: nat, e: nat, a: nat, t ensures !HasParts(u, code, name, p, o, e, a, t) {
        if BlankUpTo(u, code, from, o) { BlankEndIsUnique(u, code, from, o, open.value); }
      }
      return None;
    }
    var at := SkipBlank(u, code, end.value);
    if StartsAt(code, at, TailText(Unwrap)) {
      tail := Some(Unwrap);
    } else if StartsAt(code, at, TailText(Expect)) {
      tail := Some(Expect);
    } else {
      tail := None;
    }
    TailIsExact(u, code, name, p, open.value, end.value, at, tail);
  }

  lemma TailIsExact(u: Unicode, code: string, name: string, p: nat, open: nat, end: nat, at: nat, tail: Option<Tail>)
    requires WholeToken(u, code, name, p)
    requires BlankUpTo(u, code, p + |Needle(name)|, open) && open < |code| && code[open] == '('
    requires Closes(code, open, end) && BlankUpTo(u, code, end, at)
    requires tail.Some? ==> StartsAt(code, at, TailText(tail.value))
    requires tail.None? ==> !StartsAt(code, at, TailText(Unwrap)) && !StartsAt(code, at, TailText(Expect))
    ensures forall t :: tail == Some(t) <==> UnwrappedCall(u, code, name, p, t)
  {
    hide WholeToken, StartsAt, TailText, Closes, BlankUpTo;
    if tail.Some? {
      assert HasParts(u, code, name, p, open, end, at, tail.value);
    }
    forall t | UnwrappedCall(u, code, name, p, t) ensures tail == Some(t) {
      var o: nat, e: nat, a: nat :| HasParts(u, code, name, p, o, e, a, t);
      SameParts(u, code, name, p, open, end, at, o, e, a, t);
      if tail.Some? {
        PartsAreUnique(u, code, name, p, o, e, a, t, open, end, at, tail.value);
      }
    }
  }

  lemma SameParts(u: Unicode, code: string, name: string, p: nat, open: nat, end: nat, at: nat,
                  o: nat, e: nat, a: nat, t: Tail)
    requires BlankUpTo(u, code, p + |Needle(name)|, open) && Closes(code, open, end) && BlankUpTo(u, code, end, at)
    requires HasParts(u, code, name, p, o, e, a, t)
    ensures at == a
    ensures StartsAt(code, at, TailText(t)) && (t == Unwrap || t == Expect)
  {
    BlankEndIsUnique(u, code, p + |Needle(name)|, open, o);
    BlankEndIsUnique(u, code, end, at, a);
  }

  // ---- Lines ----

  /** `str::lines().count()`. */
  function LineCount(s: string): nat {
    Newlines(s) + if s != "" && s[|s| - 1] != '\n' then 1 else 0
  }

  function NewlineAt(s: string): (k: nat)
    ensures k <= |s|
  {
    if s == "" || s[0] == '\n' then 0 else 1 + NewlineAt(s[1..])
  }

  /** `str::lines().nth(n)`. */
  function NthLine(s: string, n: nat): Option<string>
    decreases |s|
  {
    if s == "" then None
    else if n == 0 then Some(s[..NewlineAt(s)])
    else if NewlineAt(s) == |s| then None
    else NthLine(s[NewlineAt(s) + 1..], n - 1)
  }

  predicate Contains(s: string, text: string) {
    exists i :: 0 <= i <= |s| && StartsAt(s, i, text)
  }

  /** A text is contained wherever it stands. */
  lemma ContainsIff(s: string, text: string)
    ensures Contains(s, text) <==> exists a, b :: s == a + (text + b)
  {
    if Contains(s, text) {
      var i :| 0 <= i <= |s| && StartsAt(s, i, text);
      assert s == s[..i] + (text + s[i + |text|..]);
    }
    if a, b :| s == a + (text + b) {
      assert StartsAt(s, |a|, text);
    }
  }

  /** The opt-out test for a reported line number, which counts from 1. */
  predicate AllowedAt(src: string, line: nat) {
    line >= 2 && NthLine(src, line - 2).Some? && Contains(NthLine(src, line - 2).value, ALLOW_MARKER)
  }

  function ReportedLine(prefix: string): nat {
    if LineCount(prefix) > 1 then LineCount(prefix) else 1
  }

  function TrueLine(prefix: string): nat { 1 + Newlines(prefix) }

  lemma LastNewlineCounts(prefix: string)
    requires prefix != "" && prefix[|prefix| - 1] == '\n'
    ensures Newlines(prefix) >= 1
  {
    NewlinesConcat(prefix[..|prefix| - 1], ['\n']);
    assert prefix == prefix[..|prefix| - 1] + ['\n'] && ['\n'][1..] == "" && Newlines("") == 0;
    assert Newlines(['\n']) == 1;
  }

  /** The reported line is the macro's own, except at column 0 of a later line, where it is one less. */
  lemma ReportedLineIsTrueIff(prefix: string)
    ensures ReportedLine(prefix) == TrueLine(prefix) <==> prefix == "" || prefix[|prefix| - 1] != '\n'
    ensures ReportedLine(prefix) != TrueLine(prefix) ==> ReportedLine(prefix) == TrueLine(prefix) - 1
  {
    if prefix == "" {
    } else if prefix[|prefix| - 1] == '\n' {
      LastNewlineCounts(prefix);
    }
  }

  // ---- From positions in the blanked text back to the source ----

  /** The number of whole characters in the first `off` bytes. */
  function CharsBefore(s: string, off: nat): (k: nat)
    ensures k <= |s|
  {
    if s == "" || |Encode(s[0])| > off then 0 else 1 + CharsBefore(s[1..], off - |Encode(s[0])|)
  }

  /** `&src[..start]` for the byte offset of position `p` of the blanked text. */
  function SourcePrefix(src: string, p: nat): string
    requires p <= |Blanked(src)|
  {
    src[..CharsBefore(src, |Utf8(Blanked(src)[..p])|)]
  }

  /** A position whose character is not a space is a character boundary of the source, at the
      same byte offset and with the same character. */
  lemma {:induction false} MaskedBoundary(s: string, classes: seq<Class>, p: nat)
    requires |classes| == |s| && p < |Masked(s, classes)| && Masked(s, classes)[p] != ' '
    ensures AtBoundary(s, Masked(s, classes), p)
  {
    MaskedUnfolds(s, classes);
    hide Encode, Keeps, Masked, Utf8, Spaces, AtBoundary;
    var n := |Encode(s[0])|;
    var first := if Keeps(classes[0], s[0]) then [s[0]] else Spaces(n);
    var rest := Masked(s[1..], classes[1..]);
    SpacesBytes(n);
    OneChar(s[0]);
    if p < |first| {
      FirstBoundary(s, rest);
    } else {
      MaskedBoundary(s[1..], classes[1..], p - |first|);
      BoundaryFurther(s, first, rest, p - |first|);
    }
  }

  /** Position `p` of the text `t` is at a character boundary of `s`, in front of the same character. */
  predicate AtBoundary(s: string, t: string, p: nat) {
    p < |t|
    && var off := |Utf8(t[..p])|;
       var k := CharsBefore(s, off);
       k < |s| && s[k] == t[p] && |Utf8(s[..k])| == off
  }

  lemma FirstBoundary(s: string, rest: string)
    requires s != ""
    ensures AtBoundary(s, [s[0]] + rest, 0)
  {
    assert ([s[0]] + rest)[..0] == "" == s[..0];
    hide Encode;
  }

  lemma BoundaryFurther(s: string, first: string, rest: string, q: nat)
    requires s != "" && |Utf8(first)| == |Encode(s[0])| && AtBoundary(s[1..], rest, q)
    ensures AtBoundary(s, first + rest, |first| + q)
  {
    hide Encode, Utf8, CharsBefore;
    assert (first + rest)[..|first| + q] == first + rest[..q];
    Utf8Concat(first, rest[..q]);
    OneCharFurther(s, |Utf8(rest[..q])|);
  }

  lemma MaskedUnfolds(s: string, classes: seq<Class>)
    requires |classes| == |s| && Masked(s, classes) != ""
    ensures s != ""
    ensures Masked(s, classes)
         == (if Keeps(classes[0], s[0]) then [s[0]] else Spaces(|Encode(s[0])|)) + Masked(s[1..], classes[1..])
  {}

  lemma OneCharFurther(s: string, off: nat)
    requires s != ""
    ensures var k := CharsBefore(s[1..], off); var shifted := off + |Encode(s[0])|;
            CharsBefore(s, shifted) == k + 1 && |Utf8(s[..k + 1])| == |Utf8(s[1..][..k])| + |Encode(s[0])|
  {
    hide Encode, Utf8;
    var k := CharsBefore(s[1..], off);
    OneChar(s[0]);
    assert s[..k + 1] == [s[0]] + s[1..][..k];
    Utf8Concat([s[0]], s[1..][..k]);
  }

  lemma OneChar(c: char)
    ensures Utf8([c]) == Encode(c)
  {
    hide Encode;
    assert [c][1..] == "";
    assert Encode(c) + Utf8("") == Encode(c);
  }

  lemma BoundarySurvives(src: string, p: nat)
    requires p < |Blanked(src)| && Blanked(src)[p] != ' '
    ensures var k := |SourcePrefix(src, p)|;
            k < |src| && src[k] == Blanked(src)[p] && |Utf8(src[..k])| == |Utf8(Blanked(src)[..p])|
  {
    MaskedBoundary(src, Classes(src, 0, InCode), p);
  }

  // ---- The report ----

  /** What position `p` contributes. */
  ghost function ReportAt(u: Unicode, src: string, name: string, p: nat): seq<Violation>
    requires p <= |Blanked(src)|
  {
    var line := ReportedLine(SourcePrefix(src, p));
    if AllowedAt(src, line) then []
    else if UnwrappedCall(u, Blanked(src), name, p, Unwrap) then [Violation(line, name, Unwrap)]
    else if UnwrappedCall(u, Blanked(src), name, p, Expect) then [Violation(line, name, Expect)]
    else []
  }

  /** The contributions of positions `lo` to `hi`, in order. */
  ghost function Report(u: Unicode, src: string, name: string, lo: nat, hi: nat): seq<Violation>
    requires lo <= hi <= |Blanked(src)|
    decreases hi
  {
    if lo == hi then [] else Report(u, src, name, lo, hi - 1) + ReportAt(u, src, name, hi - 1)
  }

  lemma {:induction false} QuietStretch(u: Unicode, src: string, name: string, lo: nat, mid: nat, hi: nat)
    requires lo <= mid <= hi <= |Blanked(src)|
    requires forall p :: mid <= p < hi ==> !StartsAt(Blanked(src), p, Needle(name))
    ensures Report(u, src, name, lo, hi) == Report(u, src, name, lo, mid)
    decreases hi
  {
    hide Blanked, StartsAt, ReportAt, Needle;
    if mid < hi {
      QuietStretch(u, src, name, lo, mid, hi - 1);
      QuietPosition(u, src, name, hi - 1);
    }
  }

  lemma QuietPosition(u: Unicode, src: string, name: string, p: nat)
    requires p <= |Blanked(src)| && !StartsAt(Blanked(src), p, Needle(name))
    ensures ReportAt(u, src, name, p) == []
  {
    hide Blanked, StartsAt, AllowedAt, SourcePrefix, Needle;
  }

  /** `write!` and `writeln!` do not overlap themselves. */
  lemma NoSelfOverlap(code: string, name: string, p: nat, q: nat)
    requires name == "write" || name == "writeln"
    requires StartsAt(code, p, Needle(name)) && p < q < p + |Needle(name)|
    ensures !StartsAt(code, q, Needle(name))
  {
    NeedleLetters(name);
    hide Needle;
    var needle := Needle(name);
    assert code[p..p + |needle|][q - p] == code[q];
    FirstLetter(code, q, needle);
  }

  lemma FirstLetter(code: string, p: nat, text: string)
    requires text != ""
    ensures StartsAt(code, p, text) ==> p < |code| && code[p] == text[0]
  {
    if StartsAt(code, p, text) { assert code[p..p + |text|][0] == code[p]; }
  }

  /** The first letter does not come again. */
  lemma NeedleLetters(name: string)
    requires name == "write" || name == "writeln"
    ensures Needle(name) != "" && forall i :: 0 < i < |Needle(name)| ==> Needle(name)[i] != Needle(name)[0]
  {}

  /** First occurrence of the needle from `from` on. */
  method Find(code: string, from: nat, needle: string) returns (at: Option<nat>)
    requires from <= |code|
    ensures at.Some? ==> from <= at.value && StartsAt(code, at.value, needle)
                         && forall p :: from <= p < at.value ==> !StartsAt(code, p, needle)
    ensures at.None? ==> forall p :: from <= p < |code| ==> !StartsAt(code, p, needle)
  {
    for p := from to |code|
      invariant forall x :: from <= x < p ==> !StartsAt(code, x, needle)
    {
      if StartsAt(code, p, needle) {
        return Some(p);
      }
    }
    return None;
  }

  /** The scan for one macro name. */
  method ViolationsOf(u: Unicode, src: string, name: string) returns (out: seq<Violation>)
    requires u.Valid() && (name == "write" || name == "writeln")
    ensures out == Report(u, src, name, 0, |Blanked(src)|)
  {
    hide Blanked, UnwrappedCall, AllowedAt, SourcePrefix, StartsAt;
    var code, needle := Blanked(src), Needle(name);
    var from := 0;
    out := [];
    while true
      invariant from <= |code| && out == Report(u, src, name, 0, from)
      decreases |code| - from
    {
      var at := Find(code, from, needle);
      if at.None? {
        QuietStretch(u, src, name, 0, from, |code|);
        return;
      }
      var start := at.value;
      StartsInside(code, start, needle);
      QuietStretch(u, src, name, 0, from, start);
      from := start + |needle|;
      forall p | start + 1 <= p < from ensures !StartsAt(code, p, needle) {
        NoSelfOverlap(code, name, start, p);
      }
      QuietStretch(u, src, name, 0, start + 1, from);
      assert Report(u, src, name, 0, from) == out + ReportAt(u, src, name, start);
      var tail := TailOf(u, code, name, start);
      ReportAtFromTail(u, src, name, start, tail);
      if tail.None? {
        continue;
      }
      var line := ReportedLine(SourcePrefix(src, start));
      if AllowedAt(src, line) {
        continue;
      }
      out := out + [Violation(line, name, tail.value)];
    }
  }

  lemma StartsInside(code: string, p: nat, text: string)
    requires StartsAt(code, p, text)
    ensures p + |text| <= |code|
  {}

  /** The derived order of the violations of one file: line, macro name, tail. */
  predicate Precedes(v: Violation, w: Violation) {
    v.line < w.line
    || (v.line == w.line
        && (Less(v.macroName, w.macroName) || (v.macroName == w.macroName && (v.tail == w.tail || v.tail == Expect))))
  }

  lemma PrecedesIsTotalOrder(v: Violation, w: Violation, x: Violation)
    ensures Precedes(v, w) || Precedes(w, v)
    ensures Precedes(v, w) && Precedes(w, x) ==> Precedes(v, x)
    ensures Precedes(v, w) && Precedes(w, v) ==> v == w
  {
    LessIsStrict(v.macroName, w.macroName);
    if Less(v.macroName, w.macroName) && Less(w.macroName, x.macroName) {
      LessIsTransitive(v.macroName, w.macroName, x.macroName);
    }
    hide Less;
    match v.tail case Unwrap => case Expect =>
  }

  function Insert(v: Violation, vs: seq<Violation>): seq<Violation> {
    if vs == [] || Precedes(v, vs[0]) then [v] + vs else [vs[0]] + Insert(v, vs[1..])
  }

  function Sort(vs: seq<Violation>): seq<Violation> {
    if vs == [] then [] else Insert(vs[0], Sort(vs[1..]))
  }

  ghost predicate Ascending(vs: seq<Violation>) {
    forall i, j :: 0 <= i < j < |vs| ==> Precedes(vs[i], vs[j])
  }

  lemma {:induction false} InsertSorts(v: Violation, vs: seq<Violation>)
    requires Ascending(vs)
    ensures Ascending(Insert(v, vs)) && multiset(Insert(v, vs)) == multiset(vs) + multiset{v}
  {
    hide Precedes;
    if vs == [] {
    } else if Precedes(v, vs[0]) {
      forall i | 0 <= i < |vs| ensures Precedes(v, vs[i]) { PrecedesIsTotalOrder(v, vs[0], vs[i]); }
    } else {
      assert vs == [vs[0]] + vs[1..];
      InsertSorts(v, vs[1..]);
      PrecedesIsTotalOrder(vs[0], v, v);
      FirstStays(vs[0], v, vs[1..], Insert(v, vs[1..]));
    }
  }

  lemma FirstStays(first: Violation, v: Violation, rest: seq<Violation>, longer: seq<Violation>)
    requires Precedes(first, v) && Ascending(longer) && multiset(longer) == multiset(rest) + multiset{v}
    requires forall i :: 0 <= i < |rest| ==> Precedes(first, rest[i])
    ensures Ascending([first] + longer)
  {
    hide Precedes;
    forall i | 0 <= i < |longer| ensures Precedes(first, longer[i]) {
      assert longer[i] in multiset(longer);
      assert longer[i] == v || longer[i] in rest;
    }
  }

  lemma {:induction false} SortSorts(vs: seq<Violation>)
    ensures Ascending(Sort(vs)) && multiset(Sort(vs)) == multiset(vs)
  {
    if vs == [] {
    } else {
      SortSorts(vs[1..]);
      InsertSorts(vs[0], Sort(vs[1..]));
      assert vs == [vs[0]] + vs[1..];
    }
  }

  /** `violations_in` for one file: both reports together, as often as they say, in order. */
  method ViolationsIn(u: Unicode, src: string) returns (out: seq<Violation>)
    requires u.Valid()
    ensures multiset(out) == multiset(Report(u, src, "write", 0, |Blanked(src)|))
                             + multiset(Report(u, src, "writeln", 0, |Blanked(src)|))
    ensures Ascending(out)
    ensures forall i, j :: 0 <= i < j < |out| ==> out[i].line <= out[j].line
    ensures forall i, j :: 0 <= i < j < |out| && out[i].line == out[j].line ==>
              !Less(out[j].macroName, out[i].macroName)
              && (out[i].macroName == out[j].macroName && out[j].tail.Expect? ==> out[i].tail.Expect?)
  {
    hide Report, Blanked, Sort, Ascending, Less;
    var first := ViolationsOf(u, src, "write");
    var second := ViolationsOf(u, src, "writeln");
    SortSorts(first + second);
    ByLineThenName(Sort(first + second));
    return Sort(first + second);
  }

  /** In this order lines never decrease, and within a line neither do names, nor tails of one name. */
  lemma ByLineThenName(vs: seq<Violation>)
    requires Ascending(vs)
    ensures forall i, j :: 0 <= i < j < |vs| ==> vs[i].line <= vs[j].line
    ensures forall i, j :: 0 <= i < j < |vs| && vs[i].line == vs[j].line ==>
              !Less(vs[j].macroName, vs[i].macroName)
              && (vs[i].macroName == vs[j].macroName && vs[j].tail.Expect? ==> vs[i].tail.Expect?)
  {
    hide Less;
    forall i, j | 0 <= i < j < |vs| && vs[i].line == vs[j].line
      ensures !Less(vs[j].macroName, vs[i].macroName)
      ensures vs[i].macroName == vs[j].macroName && vs[j].tail.Expect? ==> vs[i].tail.Expect?
    {
      assert Precedes(vs[i], vs[j]);
      LessIsStrict(vs[i].macroName, vs[j].macroName);
    }
  }

  lemma ReportAtFromTail(u: Unicode, src: string, name: string, p: nat, tail: Option<Tail>)
    requires p <= |Blanked(src)|
    requires forall t :: tail == Some(t) <==> UnwrappedCall(u, Blanked(src), name, p, t)
    ensures var line := ReportedLine(SourcePrefix(src, p));
            ReportAt(u, src, name, p)
            == if tail.None? || AllowedAt(src, line) then [] else [Violation(line, name, tail.value)]
  {
    var code := Blanked(src);
    hide Blanked, UnwrappedCall, AllowedAt, SourcePrefix;
    assert tail == Some(Unwrap) <==> UnwrappedCall(u, code, name, p, Unwrap);
    assert tail == Some(Expect) <==> UnwrappedCall(u, code, name, p, Expect);
    if tail.Some? { match tail.value case Unwrap => case Expect => }
  }

  /** Position `p` holds the unwrapped, not opted-out call that `v` describes. */
  ghost predicate Describes(u: Unicode, src: string, name: string, v: Violation, p: nat) {
    && p < |Blanked(src)| && v.macroName == name
    && UnwrappedCall(u, Blanked(src), name, p, v.tail)
    && v.line == ReportedLine(SourcePrefix(src, p)) && !AllowedAt(src, v.line)
  }

  lemma InReportAt(u: Unicode, src: string, name: string, v: Violation, p: nat)
    requires p < |Blanked(src)|
    ensures v in ReportAt(u, src, name, p) <==> Describes(u, src, name, v, p)
  {
    AtMostOneTail(u, src, name, p);
    hide Blanked, UnwrappedCall, AllowedAt, SourcePrefix;
    match v.tail case Unwrap => case Expect =>
  }

  /** A violation is reported exactly for an unwrapped call that is not opted out. */
  lemma {:induction false} ReportedIffUnwrapped(u: Unicode, src: string, name: string, v: Violation, hi: nat)
    requires hi <= |Blanked(src)|
    ensures v in Report(u, src, name, 0, hi) <==> exists p :: 0 <= p < hi && Describes(u, src, name, v, p)
    decreases hi
  {
    hide Blanked, Describes, ReportAt;
    if hi == 0 {
    } else {
      ReportedIffUnwrapped(u, src, name, v, hi - 1);
      InReportAt(u, src, name, v, hi - 1);
      var before, here := Report(u, src, name, 0, hi - 1), ReportAt(u, src, name, hi - 1);
      assert Report(u, src, name, 0, hi) == before + here;
      hide Report;
      assert v in before + here <==> v in before || v in here;
    }
  }

  lemma AtMostOneTail(u: Unicode, src: string, name: string, p: nat)
    ensures !(UnwrappedCall(u, Blanked(src), name, p, Unwrap) && UnwrappedCall(u, Blanked(src), name, p, Expect))
  {
    var code := Blanked(src);
    hide Blanked;
    if UnwrappedCall(u, code, name, p, Unwrap) && UnwrappedCall(u, code, name, p, Expect) {
      var o: nat, e: nat, a: nat :| HasParts(u, code, name, p, o, e, a, Unwrap);
      var o': nat, e': nat, a': nat :| HasParts(u, code, name, p, o', e', a', Expect);
      PartsAreUnique(u, code, name, p, o, e, a, Unwrap, o', e', a', Expect);
    }
  }
}
