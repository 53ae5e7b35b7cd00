/** What the blanking scanner makes of source text, told from the syntax of the text: code, nested
    block comments, raw strings, strings and char literals, each by what closes it. */
module FmtSource {
  import opened ByteStrings
  import opened FmtBlank

  // ---- Scanning a text from the middle is scanning the rest of it ----

  lemma AdvanceShifts(a: string, b: string, i: nat, mode: Mode)
    requires i < |b|
    ensures Advance(a + b, |a| + i, mode) == Advance(b, i, mode)
  {
    var s := a + b;
    assert s[|a| + i] == b[i];
    forall k: nat, c ensures Is(s, |a| + k, c) == Is(b, k, c) {}
    HashesShift(a, b, i + 1);
    if mode.InRaw? { AllHashesShift(a, b, i + 1, mode.hashes); }
    hide Hashes, AllHashes, Same;
    assert s[|a| + i] == b[i];
    assert Is(s, |a| + i + 1, '/') == Is(b, i + 1, '/') && Is(s, |a| + i + 1, '*') == Is(b, i + 1, '*');
    assert Is(s, |a| + i + 1, '\\') == Is(b, i + 1, '\\') && Is(s, |a| + i + 2, '\'') == Is(b, i + 2, '\'');
  }

  lemma {:induction false} HashesShift(a: string, b: string, i: nat)
    ensures Hashes(a + b, |a| + i) == Hashes(b, i)
    decreases |b| - i
  {
    if i < |b| { HashesShift(a, b, i + 1); }
  }

  lemma AllHashesShift(a: string, b: string, i: nat, n: nat)
    ensures AllHashes(a + b, |a| + i, n) <==> AllHashes(b, i, n)
  {
    if AllHashes(a + b, |a| + i, n) {
      forall k | i <= k < i + n ensures Is(b, k, '#') { assert Is(a + b, |a| + k, '#'); }
    }
    if AllHashes(b, i, n) {
      forall k | |a| + i <= k < |a| + i + n ensures Is(a + b, k, '#') { assert Is(b, k - |a|, '#'); }
    }
  }

  lemma {:induction false} ClassesShift(a: string, b: string, i: nat, mode: Mode)
    requires i <= |b|
    ensures Classes(a + b, |a| + i, mode) == Classes(b, i, mode)
    decreases |b| - i
  {
    hide Advance;
    if i == |b| {
    } else {
      AdvanceShifts(a, b, i, mode);
      var m := Advance(b, i, mode);
      ClassesShift(a, b, i + |m.classes|, m.mode);
    }
  }

  /** A first move over exactly `a`. */
  lemma FirstMove(a: string, b: string, mode: Mode, m: Move)
    requires a != "" && Advance(a + b, 0, mode) == m && |m.classes| == |a|
    ensures Classes(a + b, 0, mode) == m.classes + Classes(b, 0, m.mode)
  {
    hide Advance;
    ClassesShift(a, b, 0, m.mode);
  }

  // ---- Block comments ----

  /** The inside of a block comment: text, and comments nested in it. */
  datatype Comment = Words(text: string) | Nested(text: string, inner: Comment, more: Comment)

  function Body(c: Comment): string {
    match c
    case Words(t) => t
    case Nested(t, inner, more) => t + ("/*" + (Body(inner) + ("*/" + Body(more))))
  }

  predicate Pair(x: char, y: char) { (x == '/' && y == '*') || (x == '*' && y == '/') }

  /** No comment opener and no closer starts in `t`, which `next` follows. */
  predicate Loose(t: string, next: char) {
    forall i :: 0 <= i < |t| ==> !Pair(t[i], Following(t, i, next))
  }

  function Following(t: string, i: nat, next: char): char { if i + 1 < |t| then t[i + 1] else next }

  predicate WellNested(c: Comment) {
    match c
    case Words(t) => Loose(t, '*')
    case Nested(t, inner, more) => Loose(t, '/') && WellNested(inner) && WellNested(more)
  }

  lemma {:induction false} LooseText(t: string, rest: string, depth: nat)
    requires rest != "" && Loose(t, rest[0])
    ensures Classes(t + rest, 0, InBlock(depth)) == Same(FmtBlank.Comment, |t|) + Classes(rest, 0, InBlock(depth))
  {
    if t == "" {
      assert t + rest == rest;
    } else {
      var u := t[1..];
      assert t + rest == [t[0]] + (u + rest);
      forall i | 0 <= i < |u| ensures !Pair(u[i], Following(u, i, rest[0])) {
        assert !Pair(t[i + 1], Following(t, i + 1, rest[0]));
      }
      assert !Pair(t[0], Following(t, 0, rest[0]));
      FirstMove([t[0]], u + rest, InBlock(depth), Move([FmtBlank.Comment], InBlock(depth)));
      LooseText(u, rest, depth);
    }
  }

  lemma Opened(rest: string, depth: nat)
    ensures Classes("/*" + rest, 0, InBlock(depth))
         == [FmtBlank.Comment, FmtBlank.Comment] + Classes(rest, 0, InBlock(depth + 1))
  {
    FirstMove("/*", rest, InBlock(depth), Move([FmtBlank.Comment, FmtBlank.Comment], InBlock(depth + 1)));
  }

  lemma Closed(rest: string, depth: nat)
    ensures Classes("*/" + rest, 0, InBlock(depth))
         == [FmtBlank.Comment, FmtBlank.Comment] + Classes(rest, 0, if depth <= 1 then InCode else InBlock(depth - 1))
  {
    FirstMove("*/", rest, InBlock(depth),
              Move([FmtBlank.Comment, FmtBlank.Comment], if depth <= 1 then InCode else InBlock(depth - 1)));
  }

  lemma {:induction false} BodyIsComment(c: Comment, rest: string, depth: nat)
    requires WellNested(c) && depth >= 1
    ensures Classes(Body(c) + ("*/" + rest), 0, InBlock(depth))
         == Same(FmtBlank.Comment, |Body(c)| + 2) + Classes(rest, 0, if depth <= 1 then InCode else InBlock(depth - 1))
    decreases c
  {
    hide Classes;
    var after := "*/" + rest;
    match c
    case Words(t) =>
      LooseText(t, after, depth);
      Closed(rest, depth);
    case Nested(t, inner, more) =>
      var behind := Body(more) + after;
      var inside := Body(inner) + ("*/" + behind);
      assert Body(c) + after == t + ("/*" + inside);
      LooseText(t, "/*" + inside, depth);
      Opened(inside, depth);
      BodyIsComment(inner, behind, depth + 1);
      BodyIsComment(more, rest, depth);
  }

  /** Block comments nest: the comment ends with the closer of its own opener, and the scan goes on
      in code behind it. */
  lemma BlockCommentsNest(c: Comment, rest: string)
    requires WellNested(c)
    ensures Classes("/*" + (Body(c) + ("*/" + rest)), 0, InCode)
         == Same(FmtBlank.Comment, |Body(c)| + 4) + Classes(rest, 0, InCode)
  {
    hide Classes, Advance, Body;
    var inside := Body(c) + ("*/" + rest);
    CommentStarts(inside);
    FirstMove("/*", inside, InCode, Move([FmtBlank.Comment, FmtBlank.Comment], InBlock(1)));
    BodyIsComment(c, rest, 1);
  }

  lemma CommentStarts(rest: string)
    ensures Advance("/*" + rest, 0, InCode) == Move([FmtBlank.Comment, FmtBlank.Comment], InBlock(1))
  {}

  // ---- Raw strings ----

  function HashMarks(n: nat): string { seq(n, _ => '#') }

  function RawOpener(n: nat): string { "r" + (HashMarks(n) + "\"") }

  function RawCloser(n: nat): string { "\"" + HashMarks(n) }

  /** No quote in `t`, which the closer follows, has `n` hashes behind it. */
  ghost predicate FreeOfCloser(t: string, n: nat) {
    forall i :: 0 <= i < |t| && t[i] == '"' ==> !Marked(t + RawCloser(n), i + 1, n)
  }

  ghost predicate Marked(s: string, i: nat, n: nat) {
    i + n <= |s| && forall k :: i <= k < i + n ==> s[k] == '#'
  }

  /** A raw string ends at the first quote with as many hashes behind it as it was opened with. */
  lemma RawStringsClose(n: nat, t: string, rest: string)
    requires FreeOfCloser(t, n)
    ensures Classes(RawOpener(n) + (t + (RawCloser(n) + rest)), 0, InCode)
         == (Same(RawText, n + 2) + Same(RawText, |t| + n + 1)) + Classes(rest, 0, InCode)
  {
    hide Classes, Advance, FreeOfCloser, RawOpener, RawCloser;
    var after := t + (RawCloser(n) + rest);
    RawOpens(n, after);
    FirstMove(RawOpener(n), after, InCode, Move(Same(RawText, n + 2), InRaw(n)));
    RawRuns(t, n, rest);
    assert Classes(after, 0, InRaw(n)) == Same(RawText, |t| + n + 1) + Classes(rest, 0, InCode);
  }

  lemma RawOpens(n: nat, after: string)
    ensures |RawOpener(n)| == n + 2
    ensures Advance(RawOpener(n) + after, 0, InCode) == Move(Same(RawText, n + 2), InRaw(n))
  {
    var s := RawOpener(n) + after;
    assert s[n + 1] == '"';
    HashRun(s, 1, n);
  }

  lemma {:induction false} HashRun(s: string, i: nat, n: nat)
    requires i + n < |s| && s[i + n] != '#' && forall k :: i <= k < i + n ==> s[k] == '#'
    ensures Hashes(s, i) == n
    decreases n
  {
    if n > 0 { HashRun(s, i + 1, n - 1); }
  }

  lemma {:induction false} RawRuns(t: string, n: nat, rest: string)
    requires FreeOfCloser(t, n)
    ensures Classes(t + (RawCloser(n) + rest), 0, InRaw(n))
         == Same(RawText, |t| + n + 1) + Classes(rest, 0, InCode)
  {
    hide Classes, Advance;
    var closer := RawCloser(n);
    if t == "" {
      assert t + (closer + rest) == closer + rest && |closer| == n + 1;
      RawEnds(n, rest);
      FirstMove(closer, rest, InRaw(n), Move(Same(RawText, n + 1), InCode));
    } else {
      var u, s := t[1..], t + (closer + rest);
      assert s == [t[0]] + (u + (closer + rest));
      RawGoesOn(t, n, rest);
      FirstMove([t[0]], u + (closer + rest), InRaw(n), Move([RawText], InRaw(n)));
      forall i | 0 <= i < |u| && u[i] == '"' ensures !Marked(u + closer, i + 1, n) {
        assert t + closer == [t[0]] + (u + closer);
        assert t[i + 1] == '"' && !Marked(t + closer, i + 2, n);
      }
      RawRuns(u, n, rest);
    }
  }

  lemma RawEnds(n: nat, rest: string)
    ensures Advance(RawCloser(n) + rest, 0, InRaw(n)) == Move(Same(RawText, n + 1), InCode)
  {
    assert AllHashes(RawCloser(n) + rest, 1, n);
  }

  lemma RawGoesOn(t: string, n: nat, rest: string)
    requires t != "" && FreeOfCloser(t, n)
    ensures Advance(t + (RawCloser(n) + rest), 0, InRaw(n)) == Move([RawText], InRaw(n))
  {
    var closer := RawCloser(n);
    var s := t + (closer + rest);
    if t[0] == '"' && AllHashes(s, 1, n) {
      forall k | 1 <= k < 1 + n ensures (t + closer)[k] == '#' {
        assert Is(s, k, '#');
        assert s == (t + closer) + rest;
      }
      assert Marked(t + closer, 1, n);
    }
  }

  // ---- Strings and char literals ----

  /** One item of a string: a character, or a backslash and what it escapes. */
  datatype Item = One(c: char) | Esc(c: char)

  function ItemText(x: Item): string { match x case One(c) => [c] case Esc(c) => ['\\', c] }

  function ItemsText(xs: seq<Item>): string {
    if xs == [] then "" else ItemText(xs[0]) + ItemsText(xs[1..])
  }

  /** The class of each character of the items: escaped ones apart. */
  function ItemsClasses(xs: seq<Item>, cls: Class): seq<Class> {
    if xs == [] then [] else (if xs[0].One? then [cls] else [cls, Escaped]) + ItemsClasses(xs[1..], cls)
  }

  /** No bare item is a backslash or the quote that closes. */
  predicate Closable(xs: seq<Item>, quote: char) {
    forall i :: 0 <= i < |xs| && xs[i].One? ==> xs[i].c != '\\' && xs[i].c != quote
  }

  /** The quote that closes, and the class of what it closes. */
  function Quote(mode: Mode): char { if mode == InStr then '"' else '\'' }

  function QuotedClass(mode: Mode): Class { if mode == InStr then StrText else CharText }

  lemma {:induction false} ItemsRun(xs: seq<Item>, rest: string, mode: Mode)
    requires mode in {InStr, InChar} && Closable(xs, Quote(mode))
    ensures Classes(ItemsText(xs) + rest, 0, mode) == ItemsClasses(xs, QuotedClass(mode)) + Classes(rest, 0, mode)
  {
    hide Classes, Advance, QuotedClass, Quote;
    if xs == [] {
      assert ItemsText(xs) + rest == rest;
    } else {
      var x, more := ItemText(xs[0]), ItemsText(xs[1..]) + rest;
      var first := if xs[0].One? then [QuotedClass(mode)] else [QuotedClass(mode), Escaped];
      assert ItemsText(xs) + rest == x + more;
      ItemMoves(xs[0], more, mode);
      FirstMove(x, more, mode, Move(first, mode));
      ItemsRun(xs[1..], rest, mode);
      Assoc(first, ItemsClasses(xs[1..], QuotedClass(mode)), Classes(rest, 0, mode));
    }
  }

  lemma Assoc(a: seq<Class>, b: seq<Class>, c: seq<Class>)
    ensures a + (b + c) == (a + b) + c
  {}

  lemma ItemMoves(x: Item, more: string, mode: Mode)
    requires mode in {InStr, InChar} && (x.One? ==> x.c != '\\' && x.c != Quote(mode))
    ensures Advance(ItemText(x) + more, 0, mode)
         == Move(if x.One? then [QuotedClass(mode)] else [QuotedClass(mode), Escaped], mode)
  {
    assert Same(Escaped, 1) == [Escaped];
  }

  lemma QuoteOpens(rest: string)
    ensures Advance("\"" + rest, 0, InCode) == Move([StrText], InStr)
  {}

  lemma TickOpens(xs: seq<Item>, rest: string)
    requires xs != [] && (xs[0].Esc? || |xs| == 1)
    ensures Advance("'" + (ItemsText(xs) + ("'" + rest)), 0, InCode) == Move([CharText], InChar)
  {
    var s := "'" + (ItemsText(xs) + ("'" + rest));
    assert xs[0].One? ==> xs[1..] == [] && ItemsText(xs) == [xs[0].c];
    assert s[0] == '\'' && (s[1] == '\\' || s[2] == '\'');
  }

  lemma QuoteCloses(rest: string, mode: Mode)
    requires mode in {InStr, InChar}
    ensures Advance([Quote(mode)] + rest, 0, mode) == Move([QuotedClass(mode)], InCode)
  {}

  /** What is opened ends at the first such quote that no backslash escapes. */
  lemma QuotedRuns(xs: seq<Item>, rest: string, mode: Mode)
    requires mode in {InStr, InChar} && Closable(xs, Quote(mode))
    ensures Classes(ItemsText(xs) + ([Quote(mode)] + rest), 0, mode)
         == ItemsClasses(xs, QuotedClass(mode)) + ([QuotedClass(mode)] + Classes(rest, 0, InCode))
  {
    hide Classes, Advance, QuotedClass, Quote;
    ItemsRun(xs, [Quote(mode)] + rest, mode);
    QuoteCloses(rest, mode);
    FirstMove([Quote(mode)], rest, mode, Move([QuotedClass(mode)], InCode));
  }

  /** A string ends at the first quote that no backslash escapes. */
  lemma StringsClose(xs: seq<Item>, rest: string)
    requires Closable(xs, '"')
    ensures Classes("\"" + (ItemsText(xs) + ("\"" + rest)), 0, InCode)
         == [StrText] + ItemsClasses(xs, StrText) + [StrText] + Classes(rest, 0, InCode)
  {
    hide Classes, Advance, ItemsText, ItemsClasses, Closable;
    var inside := ItemsText(xs) + ("\"" + rest);
    QuoteOpens(inside);
    FirstMove("\"", inside, InCode, Move([StrText], InStr));
    assert [Quote(InStr)] == "\"";
    QuotedRuns(xs, rest, InStr);
  }

  /** So does a char literal: one character, or an escape and what belongs to it. */
  lemma CharsClose(xs: seq<Item>, rest: string)
    requires Closable(xs, '\'') && xs != [] && (xs[0].Esc? || |xs| == 1)
    ensures Classes("'" + (ItemsText(xs) + ("'" + rest)), 0, InCode)
         == [CharText] + ItemsClasses(xs, CharText) + [CharText] + Classes(rest, 0, InCode)
  {
    TickOpens(xs, rest);
    hide Classes, Advance, ItemsText, ItemsClasses, Closable;
    FirstMove("'", ItemsText(xs) + ("'" + rest), InCode, Move([CharText], InChar));
    assert [Quote(InChar)] == "'";
    QuotedRuns(xs, rest, InChar);
  }

  // ---- Whole sources ----

  datatype Piece =
    | Code(text: string)
    | Line(text: string)
    | Block(comment: Comment)
    | Raw(hashes: nat, text: string)
    | Str(items: seq<Item>)
    | Chr(items: seq<Item>)

  function PieceText(p: Piece): string {
    match p
    case Code(t) => t
    case Line(t) => "//" + t
    case Block(c) => "/*" + (Body(c) + "*/")
    case Raw(n, t) => RawOpener(n) + (t + RawCloser(n))
    case Str(xs) => "\"" + (ItemsText(xs) + "\"")
    case Chr(xs) => "'" + (ItemsText(xs) + "'")
  }

  function SourceText(ps: seq<Piece>): string {
    if ps == [] then "" else PieceText(ps[0]) + SourceText(ps[1..])
  }

  /** What opens a literal or a comment at `i`: a quote, a comment opener, `r` with hashes and a quote, or
      a tick before an escape or a character and its closing tick. */
  ghost predicate Opens(s: string, i: nat)
    requires i < |s|
  {
    || s[i] == '"'
    || (s[i] == '/' && i + 1 < |s| && (s[i + 1] == '/' || s[i + 1] == '*'))
    || (s[i] == '\'' && ((i + 1 < |s| && s[i + 1] == '\\') || (i + 2 < |s| && s[i + 2] == '\'')))
    || (s[i] == 'r' && exists n: nat :: RawQuote(s, i, n))
  }

  /** `n` hashes and a quote stand behind `i`. */
  ghost predicate RawQuote(s: string, i: nat, n: nat) {
    Marked(s, i + 1, n) && i + 1 + n < |s| && s[i + 1 + n] == '"'
  }

  /** The piece is well formed in front of `rest`: it says what it closes, and nothing opens in code. */
  ghost predicate Fits(p: Piece, rest: string) {
    match p
    case Code(t) => forall i :: 0 <= i < |t| ==> !Opens(t + rest, i)
    case Line(t) => '\n' !in t && (rest == "" || rest[0] == '\n')
    case Block(c) => WellNested(c)
    case Raw(n, t) => FreeOfCloser(t, n)
    case Str(xs) => Closable(xs, '"')
    case Chr(xs) => Closable(xs, '\'') && xs != [] && (xs[0].Esc? || |xs| == 1)
  }

  ghost predicate AllFit(ps: seq<Piece>) {
    ps != [] ==> Fits(ps[0], SourceText(ps[1..])) && AllFit(ps[1..])
  }

  function PieceClasses(p: Piece): seq<Class> {
    match p
    case Code(t) => Same(Plain, |t|)
    case Line(t) => Same(FmtBlank.Comment, |t| + 2)
    case Block(c) => Same(FmtBlank.Comment, |Body(c)| + 4)
    case Raw(n, t) => Same(RawText, n + 2) + Same(RawText, |t| + n + 1)
    case Str(xs) => [StrText] + ItemsClasses(xs, StrText) + [StrText]
    case Chr(xs) => [CharText] + ItemsClasses(xs, CharText) + [CharText]
  }

  lemma {:induction false} CodeRuns(t: string, rest: string)
    requires forall i :: 0 <= i < |t| ==> !Opens(t + rest, i)
    ensures Classes(t + rest, 0, InCode) == Same(Plain, |t|) + Classes(rest, 0, InCode)
  {
    if t == "" {
      assert t + rest == rest;
    } else {
      var u := t[1..];
      assert t + rest == [t[0]] + (u + rest);
      NothingOpens(t + rest);
      forall i | 0 <= i < |u| ensures !Opens(u + rest, i) { OpensShifts([t[0]], u + rest, i); }
      hide Advance, Opens;
      FirstMove([t[0]], u + rest, InCode, Move([Plain], InCode));
      CodeRuns(u, rest);
    }
  }

  lemma NothingOpens(s: string)
    requires s != "" && !Opens(s, 0)
    ensures Advance(s, 0, InCode) == Move([Plain], InCode)
  {
    HashesAreHashes(s, 1);
    assert OpensRaw(s, 0) ==> RawQuote(s, 0, Hashes(s, 1));
  }

  lemma {:induction false} HashesAreHashes(s: string, i: nat)
    requires i <= |s|
    ensures forall k :: i <= k < i + Hashes(s, i) ==> s[k] == '#'
    decreases |s| - i
  {
    if i < |s| { HashesAreHashes(s, i + 1); }
  }

  lemma OpensShifts(a: string, b: string, i: nat)
    requires i < |b|
    ensures Opens(b, i) ==> Opens(a + b, |a| + i)
  {
    var s := a + b;
    if n: nat :| RawQuote(b, i, n) { assert RawQuote(s, |a| + i, n); }
  }

  lemma LineRuns(t: string, rest: string)
    requires '\n' !in t && (rest == "" || rest[0] == '\n')
    ensures Classes("//" + (t + rest), 0, InCode) == Same(FmtBlank.Comment, |t| + 2) + Classes(rest, 0, InCode)
  {
    hide Classes;
    var front := "//" + t;
    var s := front + rest;
    assert s == "//" + (t + rest);
    CommentOpens(s);
    CommentRuns(s, 1, |front|);
    ClassesShift(front, rest, 0, InLine);
    LineEnds(rest);
    Assoc([FmtBlank.Comment], Same(FmtBlank.Comment, |t| + 1), Classes(rest, 0, InCode));
  }

  lemma LineEnds(rest: string)
    requires rest == "" || rest[0] == '\n'
    ensures Classes(rest, 0, InLine) == Classes(rest, 0, InCode)
  {
    if rest != "" {
      CommentEnds(rest, 0);
      assert Advance(rest, 0, InCode) == Move([Plain], InCode);
    }
  }

  lemma RawLength(p: Piece)
    ensures p.Raw? ==> |PieceClasses(p)| == |PieceText(p)|
  {}

  lemma Regroups(a: string, b: string, c: string, rest: string)
    ensures (a + (b + c)) + rest == a + (b + (c + rest))
    ensures c == "" ==> (a + b) + rest == a + (b + rest)
  {}

  lemma PieceIsClassified(p: Piece, rest: string)
    requires Fits(p, rest)
    ensures |PieceClasses(p)| == |PieceText(p)|
    ensures Classes(PieceText(p) + rest, 0, InCode) == PieceClasses(p) + Classes(rest, 0, InCode)
  {
    hide Classes, Opens, FreeOfCloser, WellNested, Body, ItemsText, ItemsClasses, Closable, RawOpener, RawCloser;
    RawLength(p);
    match p
    case Code(t) => CodeRuns(t, rest);
    case Line(t) =>
      Regroups("//", t, "", rest);
      LineRuns(t, rest);
    case Block(c) =>
      Regroups("/*", Body(c), "*/", rest);
      BlockCommentsNest(c, rest);
    case Raw(n, t) =>
      Regroups(RawOpener(n), t, RawCloser(n), rest);
      RawStringsClose(n, t, rest);
    case Str(xs) =>
      Regroups("\"", ItemsText(xs), "\"", rest);
      StringsClose(xs, rest);
      ItemsLength(xs, StrText);
    case Chr(xs) =>
      Regroups("'", ItemsText(xs), "'", rest);
      CharsClose(xs, rest);
      ItemsLength(xs, CharText);
  }

  lemma {:induction false} ItemsLength(xs: seq<Item>, cls: Class)
    ensures |ItemsClasses(xs, cls)| == |ItemsText(xs)|
  {
    if xs == [] {
    } else {
      ItemsLength(xs[1..], cls);
    }
  }

  // ---- What is left of them ----

  /** Blanks of the same byte length, line breaks kept. */
  function Hidden(s: string): string {
    if s == "" then "" else (if s[0] == '\n' then "\n" else Spaces(|Encode(s[0])|)) + Hidden(s[1..])
  }

  /** Blanks of the same byte length. */
  function Erased(s: string): string {
    if s == "" then "" else Spaces(|Encode(s[0])|) + Erased(s[1..])
  }

  /** Line breaks of a string are kept where no backslash stands before them. */
  function HiddenItems(xs: seq<Item>): string {
    if xs == [] then ""
    else (if xs[0].One? then Hidden(ItemText(xs[0])) else Erased(ItemText(xs[0]))) + HiddenItems(xs[1..])
  }

  function PieceLeft(p: Piece): string {
    match p
    case Code(t) => t
    case Line(_) | Block(_) | Raw(_, _) => Hidden(PieceText(p))
    case Str(xs) => " " + (HiddenItems(xs) + " ")
    case Chr(_) => Erased(PieceText(p))
  }

  function SourceLeft(ps: seq<Piece>): string {
    if ps == [] then "" else PieceLeft(ps[0]) + SourceLeft(ps[1..])
  }

  lemma {:induction false} MaskedHidden(s: string, cls: Class)
    requires cls in {FmtBlank.Comment, RawText, StrText}
    ensures Masked(s, Same(cls, |s|)) == Hidden(s)
  {
    hide Encode;
    if s == "" {
    } else {
      assert Same(cls, |s|)[1..] == Same(cls, |s| - 1);
      MaskedHidden(s[1..], cls);
    }
  }

  lemma {:induction false} MaskedErased(s: string, classes: seq<Class>)
    requires |classes| == |s|
    requires forall k :: 0 <= k < |s| ==> !Keeps(classes[k], s[k])
    ensures Masked(s, classes) == Erased(s)
  {
    hide Encode, Keeps;
    if s == "" {
    } else {
      MaskedErased(s[1..], classes[1..]);
    }
  }

  lemma {:induction false} CharIsErased(xs: seq<Item>)
    ensures forall k :: 0 <= k < |ItemsClasses(xs, CharText)| ==> ItemsClasses(xs, CharText)[k] in {CharText, Escaped}
  {
    if xs == [] {
    } else {
      CharIsErased(xs[1..]);
    }
  }

  lemma OneItemLeft(x: Item)
    ensures Masked(ItemText(x), if x.One? then [StrText] else [StrText, Escaped])
         == if x.One? then Hidden(ItemText(x)) else Erased(ItemText(x))
    requires x.One? ==> x.c != '\\'
  {
    if x.One? {
      assert Same(StrText, 1) == [StrText];
      MaskedHidden([x.c], StrText);
    } else {
      MaskedErased(ItemText(x), [StrText, Escaped]);
    }
  }

  lemma {:induction false} ItemsLeft(xs: seq<Item>)
    requires Closable(xs, '"')
    ensures |ItemsClasses(xs, StrText)| == |ItemsText(xs)|
    ensures Masked(ItemsText(xs), ItemsClasses(xs, StrText)) == HiddenItems(xs)
  {
    hide Masked, Hidden, Erased;
    ItemsLength(xs, StrText);
    if xs == [] {
      assert Masked("", []) == "" by { EmptyMasked(); }
    } else {
      ItemsLength(xs[1..], StrText);
      ItemsLeft(xs[1..]);
      OneItemLeft(xs[0]);
      MaskedConcat(ItemText(xs[0]), ItemsText(xs[1..]), if xs[0].One? then [StrText] else [StrText, Escaped],
                   ItemsClasses(xs[1..], StrText));
    }
  }

  lemma EmptyMasked()
    ensures Masked("", []) == ""
  {}

  lemma QuoteIsErased()
    ensures Masked("\"", [StrText]) == " "
  {
    assert Encode('"') == [0x22];
    assert Spaces(1) == " " + Spaces(0);
    assert Masked("", []) == "";
  }

  lemma StringLeft(xs: seq<Item>)
    requires Closable(xs, '"')
    ensures |ItemsClasses(xs, StrText)| == |ItemsText(xs)|
    ensures Masked("\"" + (ItemsText(xs) + "\""), [StrText] + ItemsClasses(xs, StrText) + [StrText])
         == " " + (HiddenItems(xs) + " ")
  {
    hide Masked;
    ItemsLeft(xs);
    QuoteIsErased();
    MaskedConcat(ItemsText(xs), "\"", ItemsClasses(xs, StrText), [StrText]);
    MaskedConcat("\"", ItemsText(xs) + "\"", [StrText], ItemsClasses(xs, StrText) + [StrText]);
    assert [StrText] + ItemsClasses(xs, StrText) + [StrText] == [StrText] + (ItemsClasses(xs, StrText) + [StrText]);
  }

  lemma PieceIsBlanked(p: Piece, rest: string)
    requires Fits(p, rest)
    ensures |PieceClasses(p)| == |PieceText(p)|
    ensures Masked(PieceText(p), PieceClasses(p)) == PieceLeft(p)
  {
    hide Masked, Hidden, Erased, Opens, WellNested, FreeOfCloser;
    match p
    case Code(t) => PlainIsCopied(t);
    case Line(t) => MaskedHidden(PieceText(p), FmtBlank.Comment);
    case Block(c) => MaskedHidden(PieceText(p), FmtBlank.Comment);
    case Raw(n, t) =>
      assert PieceClasses(p) == Same(RawText, |PieceText(p)|);
      MaskedHidden(PieceText(p), RawText);
    case Str(xs) => StringLeft(xs);
    case Chr(xs) =>
      ItemsLength(xs, CharText);
      CharIsErased(xs);
      MaskedErased(PieceText(p), PieceClasses(p));
  }

  /** A source written as code, comments and literals is scanned as exactly these pieces, and
      blanking leaves the code, the line breaks that no char literal or escape holds, and spaces. */
  lemma {:induction false} SourceIsBlanked(ps: seq<Piece>)
    requires AllFit(ps)
    ensures Blanked(SourceText(ps)) == SourceLeft(ps)
  {
    hide Classes, Masked, Fits, PieceText, PieceLeft, PieceClasses;
    if ps == [] {
      EmptyMasked();
    } else {
      var rest := SourceText(ps[1..]);
      PieceIsClassified(ps[0], rest);
      PieceIsBlanked(ps[0], rest);
      SourceIsBlanked(ps[1..]);
      MaskedConcat(PieceText(ps[0]), rest, PieceClasses(ps[0]), Classes(rest, 0, InCode));
    }
  }
}
