/** The part of the LeekScript lexer that reads printed expressions: words, operators,
    parentheses and white space (`crates/frontend/leek-lexer/src/lib.rs`, `operators.rs`,
    `idents.rs`) in every language version. `None` means the text leaves that part. */
module Lexer {
  import opened Options
  import opened Tokens
  import W = LsWriter

  predicate IsIdentStart(c: char) {
    || 'a' <= c <= 'z' || 'A' <= c <= 'Z' || c == '_'
    || '\U{00C0}' <= c <= '\U{00D6}' || '\U{00D8}' <= c <= '\U{00DD}'
    || '\U{00E0}' <= c <= '\U{00F6}' || '\U{00F8}' <= c <= '\U{00FD}'
    || c == '\U{0152}' || c == '\U{0153}' || c == '\U{00FF}'
  }

  predicate IsIdentContinue(c: char) { IsIdentStart(c) || '0' <= c <= '9' }

  predicate IsSpace(c: char) { W.IsBlank(c) || c == '\U{00A0}' }

  // ---- Keywords ----

  datatype Version = V1 | V2 | V3 | V4

  function Number(v: Version): nat { match v case V1 => 1 case V2 => 2 case V3 => 3 case V4 => 4 }

  function Lower(s: string): string {
    if s == "" then "" else [if 'A' <= s[0] <= 'Z' then (s[0] as int + 32) as char else s[0]] + Lower(s[1..])
  }

  /** Up to version 2 keywords are recognised whatever the case of their ASCII letters. */
  function Folded(v: Version, word: string): string { if Number(v) >= 3 then word else Lower(word) }

  /** The reserved words of the table that are no operators, by the version that introduces them;
      `function` and `class` apart. */
  predicate Listed(v: Version, w: string) {
    || w in {"var", "global", "return", "if", "else", "while", "for", "do", "break", "continue", "null", "true",
             "false", "include", "as"}
    || (Number(v) >= 2
        && w in {"extends", "this", "super", "new", "static", "private", "public", "protected", "constructor"})
    || (Number(v) >= 3
        && w in {"switch", "case", "default", "abstract", "await", "import", "export", "goto", "catch", "finally",
                 "try", "throw", "throws", "typeof", "void", "interface", "let", "native", "package", "byte",
                 "char", "float", "double", "int", "long", "short", "transient", "volatile", "synchronized",
                 "enum", "eval", "final", "with", "yield", "implements", "const", "boolean"})
  }

  /** The case of `function` and `class` counts in every version. */
  function ReservedWord(v: Version, word: string): Option<string> {
    if word == "function" || (word == "class" && Number(v) >= 2) then Some(word)
    else if Listed(v, Folded(v, word)) then Some(Folded(v, word))
    else None
  }

  /** The words of the table that are operators. */
  function OperatorWord(v: Version, w: string): Option<Tok> {
    if w == "in" then Some(KwIn)
    else if w == "not" then Some(KwNot)
    else if w == "is" then Some(KwIs)
    else if w == "xor" then Some(KwXor)
    else if w == "instanceof" && Number(v) >= 3 then Some(KwInstanceof)
    else if w == "and" then Some(KwAnd)
    else if w == "or" then Some(KwOr)
    else None
  }

  /** `keyword_lookup`: operator keywords, other reserved words, identifiers. */
  function KeywordOf(v: Version, word: string): Tok {
    if OperatorWord(v, Folded(v, word)).Some? then OperatorWord(v, Folded(v, word)).value
    else if ReservedWord(v, word).Some? then Reserved(ReservedWord(v, word).value)
    else Word(word)
  }

  // ---- What the versions do to keywords ----

  lemma {:induction false} LowerKeeps(s: string)
    requires forall i :: 0 <= i < |s| ==> !('A' <= s[i] <= 'Z')
    ensures Lower(s) == s
  {
    if s == "" {
    } else {
      LowerKeeps(s[1..]);
    }
  }

  /** Folding turns each capital into its small letter and leaves the others. */
  lemma {:induction false} LowerFolds(s: string, i: nat)
    requires i < |s|
    ensures |Lower(s)| == |s|
    ensures if 'A' <= s[i] <= 'Z' then 'a' <= Lower(s)[i] <= 'z' && Lower(s)[i] - 'a' == s[i] - 'A'
             else Lower(s)[i] == s[i]
  {
    if |s| == 1 {
    } else {
      LowerFolds(s[1..], if i == 0 then 0 else i - 1);
    }
  }

  /** Up to version 2 only the letters of a word decide whether it is a keyword, and which, not their
      case, apart from the words that fold to `function` or `class`. */
  lemma CaseOfKeywords(v: Version, a: string, b: string)
    requires Number(v) <= 2 && Lower(a) == Lower(b) && Lower(a) != "function" && Lower(a) != "class"
    ensures KeywordOf(v, a) == KeywordOf(v, b) || (KeywordOf(v, a) == Word(a) && KeywordOf(v, b) == Word(b))
  {
    hide KeywordOf, Lower, Listed, OperatorWord;
    KeywordUnfolds(v, a);
    KeywordUnfolds(v, b);
  }

  lemma KeywordUnfolds(v: Version, word: string)
    requires Lower(word) != "function" && Lower(word) != "class"
    ensures KeywordOf(v, word)
         == if OperatorWord(v, Folded(v, word)).Some? then OperatorWord(v, Folded(v, word)).value
            else if Listed(v, Folded(v, word)) then Reserved(Folded(v, word))
            else Word(word)
  {
    hide Listed, OperatorWord, Folded, Lower, ReservedWord;
    ReservedUnfolds(v, word);
  }

  lemma ReservedUnfolds(v: Version, word: string)
    requires Lower(word) != "function" && Lower(word) != "class"
    ensures ReservedWord(v, word) == if Listed(v, Folded(v, word)) then Some(Folded(v, word)) else None
  {
    hide Listed, Folded, Lower;
    LowerKeeps("function");
    LowerKeeps("class");
  }

  /** Up to version 2 `class` and `function` are reserved in small letters only. */
  lemma CapitalClassIsFree(v: Version, word: string)
    requires Number(v) <= 2 && Lower(word) in {"function", "class"} && word != Lower(word)
    ensures KeywordOf(v, word) == Word(word)
  {
    hide Lower;
    NeverOperators(v);
    NotListed(v);
    hide Listed, OperatorWord;
    assert Folded(v, word) == Lower(word);
    hide Folded;
    LowerKeeps("function");
    LowerKeeps("class");
  }

  lemma NotListed(v: Version)
    ensures !Listed(v, "function") && !Listed(v, "class")
  {}

  /** Case counts from version 3 on, `class` is reserved from version 2 on, `instanceof` from version 3. */
  lemma KeywordsByVersion()
    ensures KeywordOf(V1, "VAR") == Reserved("var") && KeywordOf(V2, "VAR") == Reserved("var")
    ensures KeywordOf(V3, "VAR") == Word("VAR") && KeywordOf(V3, "var") == Reserved("var")
    ensures KeywordOf(V1, "class") == Word("class") && KeywordOf(V2, "class") == Reserved("class")
    ensures KeywordOf(V2, "instanceof") == Word("instanceof") && KeywordOf(V3, "instanceof") == KwInstanceof
  {
    FoldedExamples();
    hide Folded, Listed, OperatorWord;
    ListedExamples();
  }

  lemma FoldedExamples()
    ensures Folded(V1, "VAR") == "var" && Folded(V2, "VAR") == "var" && Folded(V3, "VAR") == "VAR"
    ensures Folded(V3, "var") == "var"
    ensures Folded(V1, "class") == "class" && Folded(V2, "class") == "class"
    ensures Folded(V2, "instanceof") == "instanceof" && Folded(V3, "instanceof") == "instanceof"
  {
    assert Lower("R") == "r" && Lower("AR") == "ar" && Lower("VAR") == "var";
    hide Lower;
    LowerKeeps("class");
    LowerKeeps("instanceof");
  }

  lemma ListedExamples()
    ensures Listed(V1, "var") && Listed(V2, "var") && Listed(V3, "var") && !Listed(V3, "VAR")
    ensures !Listed(V1, "class") && !Listed(V2, "class") && !Listed(V2, "instanceof")
    ensures OperatorWord(V1, "var").None? && OperatorWord(V2, "var").None? && OperatorWord(V3, "var").None?
    ensures OperatorWord(V3, "VAR").None? && OperatorWord(V1, "class").None? && OperatorWord(V2, "class").None?
    ensures OperatorWord(V2, "instanceof").None? && OperatorWord(V3, "instanceof") == Some(KwInstanceof)
  {}

  /** A word that is reserved in one version is reserved in every later one, as the same token, if it
      has no capitals. */
  lemma KeywordsStay(v: Version, later: Version, word: string)
    requires Number(v) <= Number(later) && Lower(word) == word && KeywordOf(v, word) != Word(word)
    ensures KeywordOf(later, word) == KeywordOf(v, word)
  {
    hide Lower, Listed, OperatorWord;
    OperatorWordsStay(v, later, word);
    if Listed(v, word) { ListedStays(v, later, word); }
    NeverOperators(later);
    assert ReservedWord(v, word).Some? ==> ReservedWord(later, word) == ReservedWord(v, word);
    hide ReservedWord;
  }

  lemma OperatorWordsStay(v: Version, later: Version, w: string)
    requires Number(v) <= Number(later)
    ensures OperatorWord(v, w).Some? ==> OperatorWord(later, w) == OperatorWord(v, w)
  {}

  lemma NeverOperators(v: Version)
    ensures OperatorWord(v, "function").None? && OperatorWord(v, "class").None?
  {}

  lemma ListedStays(v: Version, later: Version, w: string)
    requires Number(v) <= Number(later) && Listed(v, w)
    ensures Listed(later, w) && OperatorWord(later, w).None?
  {
    hide OperatorWord;
    assert Listed(later, w);
    ListedIsNoOperator(later, w);
  }

  lemma ListedIsNoOperator(v: Version, w: string)
    requires Listed(v, w)
    ensures OperatorWord(v, w).None?
  {
    OperatorWordsAre(v, w);
    hide OperatorWord;
  }

  lemma OperatorWordsAre(v: Version, w: string)
    ensures OperatorWord(v, w).Some? ==> w in {"in", "not", "is", "xor", "instanceof", "and", "or"}
  {}

  /** A lookahead character; past the end no operator pattern matches. */
  function Peek(s: string, k: nat): char { if k < |s| then s[k] else '\0' }

  /** The operator that starts with `c0`, decided on up to three further characters. */
  function OperatorAt(c0: char, c1: char, c2: char, c3: char): Option<(Tok, nat)> {
    match c0
    case '+' => if c1 == '+' then Some((PlusPlus, 2)) else if c1 == '=' then Some((PlusEq, 2)) else Some((Plus, 1))
    case '-' =>
      if c1 == '-' then Some((MinusMinus, 2)) else if c1 == '=' then Some((MinusEq, 2))
      else if c1 == '>' then Some((Arrow, 2)) else Some((Minus, 1))
    case '*' =>
      if c1 == '*' && c2 == '=' then Some((StarStarEq, 3)) else if c1 == '*' then Some((StarStar, 2))
      else if c1 == '=' then Some((StarEq, 2)) else Some((Star, 1))
    case '/' =>
      // `//` and `/*` open comments.
      if c1 == '/' || c1 == '*' then None else if c1 == '=' then Some((SlashEq, 2)) else Some((Slash, 1))
    case '\\' => if c1 == '=' then Some((BackslashEq, 2)) else Some((Backslash, 1))
    case '%' => if c1 == '=' then Some((PercentEq, 2)) else Some((Percent, 1))
    case '=' =>
      if c1 == '=' && c2 == '=' then Some((EqEqEq, 3)) else if c1 == '=' then Some((EqEq, 2))
      else if c1 == '>' then Some((FatArrow, 2)) else Some((Equal, 1))
    case '!' =>
      if c1 == '=' && c2 == '=' then Some((NotEqEq, 3)) else if c1 == '=' then Some((NotEq, 2)) else Some((Bang, 1))
    case '<' =>
      if c1 == '<' && c2 == '=' then Some((ShiftLeftEq, 3)) else if c1 == '<' then Some((ShiftLeft, 2))
      else if c1 == '=' then Some((LeTok, 2)) else Some((LtTok, 1))
    case '>' =>
      if c1 == '>' && c2 == '>' && c3 == '=' then Some((UShiftRightEq, 4))
      else if c1 == '>' && c2 == '>' then Some((UShiftRight, 3))
      else if c1 == '>' && c2 == '=' then Some((ShiftRightEq, 3))
      else if c1 == '>' then Some((ShiftRight, 2))
      else if c1 == '=' then Some((GeTok, 2)) else Some((GtTok, 1))
    case '&' => if c1 == '&' then Some((AmpAmp, 2)) else if c1 == '=' then Some((AmpEq, 2)) else Some((Amp, 1))
    case '|' => if c1 == '|' then Some((PipePipe, 2)) else if c1 == '=' then Some((PipeEq, 2)) else Some((Pipe, 1))
    case '^' => if c1 == '=' then Some((CaretEq, 2)) else Some((Caret, 1))
    case '?' =>
      if c1 == '?' && c2 == '=' then Some((QuestionQuestionEq, 3)) else if c1 == '?' then Some((QuestionQuestion, 2))
      else Some((Question, 1))
    case ':' => Some((Colon, 1))
    case '~' => Some((Tilde, 1))
    case '@' => Some((Tok.At, 1))
    case _ => None
  }

  function IdentLength(s: string): (n: nat)
    requires s != ""
    ensures 1 <= n <= |s|
  {
    if |s| > 1 && IsIdentContinue(s[1]) then 1 + IdentLength(s[1..]) else 1
  }

  /** The token (none for white space) and the number of characters at the front of `s`. */
  function NextToken(v: Version, s: string): (r: Option<(seq<Tok>, nat)>)
    requires s != ""
    ensures r.Some? ==> 1 <= r.value.1
  {
    if IsSpace(s[0]) then Some(([], 1))
    else if IsIdentStart(s[0]) then Some(([KeywordOf(v, s[..IdentLength(s)])], IdentLength(s)))
    else if s[0] == '(' then Some(([LParen], 1))
    else if s[0] == ')' then Some(([RParen], 1))
    else
      match OperatorAt(s[0], Peek(s, 1), Peek(s, 2), Peek(s, 3))
      case None => None
      case Some((t, n)) => Some(([t], n))
  }

  function Lex(v: Version, s: string): Option<seq<Tok>>
    decreases |s|
  {
    if s == "" then Some([])
    else
      match NextToken(v, s)
      case None => None
      case Some((t, n)) =>
        if n > |s| then None
        else
          match Lex(v, s[n..])
          case None => None
          case Some(rest) => Some(t + rest)
  }

  // ---- Separated texts lex independently ----

  /** The writer's word characters include the lexer's; parentheses are neither kind. */
  ghost predicate Lexical(cfg: W.Config) {
    cfg.Valid() && forall c :: IsIdentContinue(c) ==> cfg.IsWordChar(c)
  }

  /** It is so for every writer whose alphanumeric test covers the lexer's letters and digits. */
  lemma LexicalIff(cfg: W.Config)
    ensures Lexical(cfg) <==> cfg.Valid() && forall c :: IsIdentContinue(c) && c != '_' ==> cfg.alnum(c)
  {}

  /** An operator is decided before the first character that cannot continue it. */
  lemma OperatorStopsAt(c0: char, c1: char, c2: char, c3: char, d1: char, d2: char, d3: char)
    requires c1 == d1 || (!W.IsOpChar(c1) && !W.IsOpChar(d1))
    requires W.IsOpChar(c1) ==> c2 == d2 || (!W.IsOpChar(c2) && !W.IsOpChar(d2))
    requires W.IsOpChar(c1) && W.IsOpChar(c2) ==> c3 == d3 || (!W.IsOpChar(c3) && !W.IsOpChar(d3))
    ensures OperatorAt(c0, c1, c2, c3) == OperatorAt(c0, d1, d2, d3)
  {}

  lemma OperatorIsOpChar(c0: char, c1: char, c2: char, c3: char)
    ensures OperatorAt(c0, c1, c2, c3).Some? ==> W.IsOpChar(c0)
  {}

  lemma {:induction false} IdentLengthStops(cfg: W.Config, a: string, b: string)
    requires Lexical(cfg) && a != "" && IsIdentContinue(a[0]) && W.Separated(cfg, a, b)
    ensures IdentLength(a + b) == IdentLength(a)
    decreases |a|
  {
    var ab := a + b;
    if |a| > 1 {
      assert ab[1..] == a[1..] + b && ab[1] == a[1];
      if IsIdentContinue(a[1]) { IdentLengthStops(cfg, a[1..], b); }
    } else if b != "" {
      assert ab[1] == b[0] && cfg.IsWordChar(a[0]);
    }
  }

  lemma NextTokenStops(v: Version, cfg: W.Config, a: string, b: string)
    requires Lexical(cfg) && a != "" && W.Separated(cfg, a, b)
    requires NextToken(v, a).Some? && NextToken(v, a).value.1 <= |a|
    ensures NextToken(v, a + b) == NextToken(v, a)
  {
    var ab := a + b;
    assert ab[0] == a[0];
    if IsSpace(a[0]) {
    } else if IsIdentStart(a[0]) {
      IdentLengthStops(cfg, a, b);
      assert ab[..IdentLength(a)] == a[..IdentLength(a)];
    } else if a[0] != '(' && a[0] != ')' {
      OperatorIsOpChar(a[0], Peek(a, 1), Peek(a, 2), Peek(a, 3));
      OperatorStopsAt(a[0], Peek(a, 1), Peek(a, 2), Peek(a, 3), Peek(ab, 1), Peek(ab, 2), Peek(ab, 3));
    }
  }

  lemma {:induction false} LexConcat(v: Version, cfg: W.Config, a: string, b: string)
    requires Lexical(cfg) && W.Separated(cfg, a, b)
    requires Lex(v, a).Some? && Lex(v, b).Some?
    ensures Lex(v, a + b) == Some(Lex(v, a).value + Lex(v, b).value)
    decreases |a|
  {
    hide NextToken, W.IsOpChar, Lex;
    if a == "" {
      LexEmpty(v);
      assert a + b == b && [] + Lex(v, b).value == Lex(v, b).value;
    } else {
      LexFront(v, a);
      NextTokenStops(v, cfg, a, b);
      var n := NextToken(v, a).value.1;
      assert (a + b)[n..] == a[n..] + b;
      LexConcat(v, cfg, a[n..], b);
      LexFront(v, a + b);
      assert NextToken(v, a).value.0 + Lex(v, a[n..]).value + Lex(v, b).value
          == NextToken(v, a).value.0 + (Lex(v, a[n..]).value + Lex(v, b).value);
    }
  }

  lemma LexEmpty(v: Version)
    ensures Lex(v, "") == Some([])
  {}

  /** The front token, and the rest. */
  lemma LexFront(v: Version, s: string)
    requires s != ""
    ensures Lex(v, s).Some? ==>
              && NextToken(v, s).Some? && NextToken(v, s).value.1 <= |s|
              && Lex(v, s[NextToken(v, s).value.1..]).Some?
    ensures NextToken(v, s).Some? && NextToken(v, s).value.1 <= |s| && Lex(v, s[NextToken(v, s).value.1..]).Some? ==>
              Lex(v, s) == Some(NextToken(v, s).value.0 + Lex(v, s[NextToken(v, s).value.1..]).value)
  {
    hide NextToken;
  }

  lemma {:induction false} LexBlank(v: Version, gap: string)
    requires W.AllBlank(gap)
    ensures Lex(v, gap) == Some([])
  {
    if gap == "" {
    } else {
      LexBlank(v, gap[1..]);
      assert NextToken(v, gap) == Some(([], 1));
      assert [] + Lex(v, gap[1..]).value == [];
    }
  }

  // ---- Words ----

  predicate IsWord(s: string) {
    s != "" && IsIdentStart(s[0]) && forall i :: 0 <= i < |s| ==> IsIdentContinue(s[i])
  }

  lemma {:induction false} WholeWord(s: string)
    requires s != "" && forall i :: 0 <= i < |s| ==> IsIdentContinue(s[i])
    ensures IdentLength(s) == |s|
  {
    if |s| <= 1 {
    } else {
      WholeWord(s[1..]);
    }
  }

  lemma LexWord(v: Version, s: string)
    requires IsWord(s)
    ensures Lex(v, s) == Some([KeywordOf(v, s)])
  {
    WholeWord(s);
    assert s[..|s|] == s;
    LexOne(v, s, KeywordOf(v, s));
  }

  lemma LexOne(v: Version, s: string, t: Tok)
    requires s != "" && NextToken(v, s) == Some(([t], |s|))
    ensures Lex(v, s) == Some([t])
  {
    assert s[|s|..] == "";
    assert Lex(v, "") == Some([]);
    assert [t] + [] == [t];
  }

  lemma OpCharKind(c: char)
    requires W.IsOpChar(c)
    ensures !IsSpace(c) && !IsIdentStart(c) && c != '(' && c != ')'
  {}

  lemma LexOperator(v: Version, s: string)
    requires 1 <= |s| <= 4 && W.IsOpChar(s[0])
    requires OperatorAt(s[0], Peek(s, 1), Peek(s, 2), Peek(s, 3)).Some?
    requires OperatorAt(s[0], Peek(s, 1), Peek(s, 2), Peek(s, 3)).value.1 == |s|
    ensures Lex(v, s) == Some([OperatorAt(s[0], Peek(s, 1), Peek(s, 2), Peek(s, 3)).value.0])
  {
    hide OperatorAt, Lex, W.IsOpChar, IsSpace, IsIdentStart;
    OpCharKind(s[0]);
    assert NextToken(v, s) == Some(([OperatorAt(s[0], Peek(s, 1), Peek(s, 2), Peek(s, 3)).value.0], |s|));
    LexOne(v, s, OperatorAt(s[0], Peek(s, 1), Peek(s, 2), Peek(s, 3)).value.0);
  }
}
