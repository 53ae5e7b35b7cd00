/** The token kinds the expression grammar reads (a part of the parser's `SyntaxKind`). */
module Tokens {
  datatype Tok =
    | Word(id: string)
    | Reserved(word: string)
    | LParen | RParen | Question | Colon | Comma
    | Plus | Minus | Star | Slash | Percent | Backslash | StarStar
    | EqEq | NotEq | EqEqEq | NotEqEq | LtTok | LeTok | GtTok | GeTok
    | AmpAmp | PipePipe | Amp | Pipe | Caret | ShiftLeft | ShiftRight | UShiftRight
    | QuestionQuestion
    | Equal | PlusEq | MinusEq | StarEq | SlashEq | BackslashEq | PercentEq | StarStarEq
    | AmpEq | PipeEq | CaretEq | ShiftLeftEq | ShiftRightEq | UShiftRightEq | QuestionQuestionEq
    | PlusPlus | MinusMinus | Bang | Tilde | At
    | Arrow | FatArrow
    | KwIn | KwNot | KwIs | KwXor | KwInstanceof | KwAnd | KwOr
    | Eof

  /** The first token of a stream; past the end the parser sees `Eof`. */
  function Head(ts: seq<Tok>): Tok {
    if ts == [] then Eof else ts[0]
  }

  /** The deeper of two nestings. */
  function Max(x: nat, y: nat): nat { if x < y then y else x }

  /** Number of opening parentheses. */
  function Opens(ts: seq<Tok>): nat {
    if ts == [] then 0 else (if ts[0] == LParen then 1 else 0) + Opens(ts[1..])
  }

  /** Number of tokens other than parentheses. */
  function Load(ts: seq<Tok>): nat {
    if ts == [] then 0 else (if ts[0] == LParen || ts[0] == RParen then 0 else 1) + Load(ts[1..])
  }

  lemma {:induction false} OpensConcat(a: seq<Tok>, b: seq<Tok>)
    ensures Opens(a + b) == Opens(a) + Opens(b)
  {
    if a == [] { assert a + b == b; } else { assert (a + b)[1..] == a[1..] + b; OpensConcat(a[1..], b); }
  }

  lemma {:induction false} LoadConcat(a: seq<Tok>, b: seq<Tok>)
    ensures Load(a + b) == Load(a) + Load(b)
  {
    if a == [] { assert a + b == b; } else { assert (a + b)[1..] == a[1..] + b; LoadConcat(a[1..], b); }
  }
}
