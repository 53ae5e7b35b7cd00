/** Operators are matched as far as they go: the lexer's decision on up to four characters
    (`crates/frontend/leek-lexer/src/operators.rs`) against the spellings of the operator tokens. */
module Munch {
  import opened Options
  import opened Tokens
  import opened Lexer

  /** The characters of an operator token, filled up with `\0`; other tokens have none. */
  function Letters(t: Tok): (char, char, char, char) {
    match t
    case Plus => ('+', '\0', '\0', '\0')
    case PlusPlus => ('+', '+', '\0', '\0')
    case PlusEq => ('+', '=', '\0', '\0')
    case Minus => ('-', '\0', '\0', '\0')
    case MinusMinus => ('-', '-', '\0', '\0')
    case MinusEq => ('-', '=', '\0', '\0')
    case Arrow => ('-', '>', '\0', '\0')
    case Star => ('*', '\0', '\0', '\0')
    case StarStar => ('*', '*', '\0', '\0')
    case StarEq => ('*', '=', '\0', '\0')
    case StarStarEq => ('*', '*', '=', '\0')
    case Slash => ('/', '\0', '\0', '\0')
    case SlashEq => ('/', '=', '\0', '\0')
    case Backslash => ('\\', '\0', '\0', '\0')
    case BackslashEq => ('\\', '=', '\0', '\0')
    case Percent => ('%', '\0', '\0', '\0')
    case PercentEq => ('%', '=', '\0', '\0')
    case Equal => ('=', '\0', '\0', '\0')
    case EqEq => ('=', '=', '\0', '\0')
    case EqEqEq => ('=', '=', '=', '\0')
    case FatArrow => ('=', '>', '\0', '\0')
    case Bang => ('!', '\0', '\0', '\0')
    case NotEq => ('!', '=', '\0', '\0')
    case NotEqEq => ('!', '=', '=', '\0')
    case LtTok => ('<', '\0', '\0', '\0')
    case LeTok => ('<', '=', '\0', '\0')
    case ShiftLeft => ('<', '<', '\0', '\0')
    case ShiftLeftEq => ('<', '<', '=', '\0')
    case GtTok => ('>', '\0', '\0', '\0')
    case GeTok => ('>', '=', '\0', '\0')
    case ShiftRight => ('>', '>', '\0', '\0')
    case ShiftRightEq => ('>', '>', '=', '\0')
    case UShiftRight => ('>', '>', '>', '\0')
    case UShiftRightEq => ('>', '>', '>', '=')
    case Amp => ('&', '\0', '\0', '\0')
    case AmpAmp => ('&', '&', '\0', '\0')
    case AmpEq => ('&', '=', '\0', '\0')
    case Pipe => ('|', '\0', '\0', '\0')
    case PipePipe => ('|', '|', '\0', '\0')
    case PipeEq => ('|', '=', '\0', '\0')
    case Caret => ('^', '\0', '\0', '\0')
    case CaretEq => ('^', '=', '\0', '\0')
    case Question => ('?', '\0', '\0', '\0')
    case QuestionQuestion => ('?', '?', '\0', '\0')
    case QuestionQuestionEq => ('?', '?', '=', '\0')
    case Colon => (':', '\0', '\0', '\0')
    case Tilde => ('~', '\0', '\0', '\0')
    case At => ('@', '\0', '\0', '\0')
    case _ => ('\0', '\0', '\0', '\0')
  }

  function Width(t: Tok): nat {
    var l := Letters(t);
    if l.0 == '\0' then 0 else if l.1 == '\0' then 1 else if l.2 == '\0' then 2 else if l.3 == '\0' then 3 else 4
  }

  /** The operator stands at the front of these characters. */
  predicate Stands(t: Tok, c0: char, c1: char, c2: char, c3: char) {
    var l, n := Letters(t), Width(t);
    n >= 1 && l.0 == c0 && (n >= 2 ==> l.1 == c1) && (n >= 3 ==> l.2 == c2) && (n >= 4 ==> l.3 == c3)
  }

  /** What is matched there stands there, in its whole width. */
  predicate MatchStands(c0: char, c1: char, c2: char, c3: char) {
    var r := OperatorAt(c0, c1, c2, c3);
    r.Some? ==> Stands(r.value.0, c0, c1, c2, c3) && r.value.1 == Width(r.value.0)
  }

  /** What is matched there is at least as wide as `t`; nothing is matched only when a comment opens. */
  predicate MatchCovers(c0: char, c1: char, c2: char, c3: char, t: Tok) {
    var r := OperatorAt(c0, c1, c2, c3);
    if r.None? then c0 == '/' && (c1 == '/' || c1 == '*') else Width(t) <= r.value.1
  }

  lemma OperatorIsSpelled(c0: char, c1: char, c2: char, c3: char)
    ensures MatchStands(c0, c1, c2, c3)
  {
    hide MatchStands;
    if c0 in {'+', '-', '*'} {
      SumsAreSpelled(c0, c1, c2, c3);
    } else if c0 in {'/', '\\', '%', '^'} {
      QuotientsAreSpelled(c0, c1, c2, c3);
    } else if c0 in {'=', '!', '?'} {
      EqualitiesAreSpelled(c0, c1, c2, c3);
    } else if c0 in {'<', '>'} {
      ComparisonsAreSpelled(c0, c1, c2, c3);
    } else if c0 in {'&', '|'} {
      JunctionsAreSpelled(c0, c1, c2, c3);
    } else {
      OthersAreSpelled(c0, c1, c2, c3);
    }
  }

  lemma SumsAreSpelled(c0: char, c1: char, c2: char, c3: char)
    requires c0 in {'+', '-', '*'}
    ensures MatchStands(c0, c1, c2, c3)
  {}

  lemma QuotientsAreSpelled(c0: char, c1: char, c2: char, c3: char)
    requires c0 in {'/', '\\', '%', '^'}
    ensures MatchStands(c0, c1, c2, c3)
  {}

  lemma EqualitiesAreSpelled(c0: char, c1: char, c2: char, c3: char)
    requires c0 in {'=', '!', '?'}
    ensures MatchStands(c0, c1, c2, c3)
  {}

  lemma ComparisonsAreSpelled(c0: char, c1: char, c2: char, c3: char)
    requires c0 in {'<', '>'}
    ensures MatchStands(c0, c1, c2, c3)
  {}

  lemma JunctionsAreSpelled(c0: char, c1: char, c2: char, c3: char)
    requires c0 in {'&', '|'}
    ensures MatchStands(c0, c1, c2, c3)
  {}

  lemma OthersAreSpelled(c0: char, c1: char, c2: char, c3: char)
    requires c0 !in {'+', '-', '*', '/', '\\', '%', '^', '=', '!', '?', '<', '>', '&', '|'}
    ensures MatchStands(c0, c1, c2, c3)
  {}

  /** No operator that stands there is wider than the one matched. */
  lemma OperatorIsLongest(c0: char, c1: char, c2: char, c3: char, t: Tok)
    requires Stands(t, c0, c1, c2, c3)
    ensures MatchCovers(c0, c1, c2, c3, t)
  {
    SumLetter(t);
    QuotientLetter(t);
    SingleLetter(t);
    EqualityLetter(t);
    ComparisonLetter(t);
    JunctionLetter(t);
    SomeLetter(t);
    hide MatchCovers, Letters;
    if c0 in {'+', '-', '*'} {
      SumsAreLongest(c0, c1, c2, c3, t);
    } else if c0 in {'/', '\\', '%', '^'} {
      QuotientsAreLongest(c0, c1, c2, c3, t);
    } else if c0 in {'=', '!', '?'} {
      EqualitiesAreLongest(c0, c1, c2, c3, t);
    } else if c0 in {'<', '>'} {
      ComparisonsAreLongest(c0, c1, c2, c3, t);
    } else if c0 in {'&', '|'} {
      JunctionsAreLongest(c0, c1, c2, c3, t);
    } else {
      SinglesAreLongest(c0, c1, c2, c3, t);
    }
  }

  lemma SumLetter(t: Tok)
    ensures Letters(t).0 in {'+', '-', '*'} ==>
              t in {Plus, PlusPlus, PlusEq, Minus, MinusMinus, MinusEq, Arrow, Star, StarStar, StarEq, StarStarEq}
  {}

  lemma QuotientLetter(t: Tok)
    ensures Letters(t).0 in {'/', '\\', '%', '^'} ==>
              t in {Slash, SlashEq, Backslash, BackslashEq, Percent, PercentEq, Caret, CaretEq}
  {}

  lemma SingleLetter(t: Tok)
    ensures Letters(t).0 in {':', '~', '@'} ==> t in {Colon, Tilde, At}
  {}

  lemma EqualityLetter(t: Tok)
    ensures Letters(t).0 in {'=', '!', '?'} ==>
              t in {Equal, EqEq, EqEqEq, FatArrow, Bang, NotEq, NotEqEq, Question, QuestionQuestion,
                    QuestionQuestionEq}
  {}

  lemma ComparisonLetter(t: Tok)
    ensures Letters(t).0 in {'<', '>'} ==>
              t in {LtTok, LeTok, ShiftLeft, ShiftLeftEq, GtTok, GeTok, ShiftRight, ShiftRightEq,
                    UShiftRight, UShiftRightEq}
  {}

  lemma JunctionLetter(t: Tok)
    ensures Letters(t).0 in {'&', '|'} ==> t in {Amp, AmpAmp, AmpEq, Pipe, PipePipe, PipeEq}
  {}

  lemma SomeLetter(t: Tok)
    ensures Width(t) >= 1 ==>
              Letters(t).0 in {'+', '-', '*', '/', '\\', '%', '^', '=', '!', '?', '<', '>', '&', '|', ':', '~', '@'}
  {}

  lemma SumsAreLongest(c0: char, c1: char, c2: char, c3: char, t: Tok)
    requires Stands(t, c0, c1, c2, c3)
    requires t in {Plus, PlusPlus, PlusEq, Minus, MinusMinus, MinusEq, Arrow, Star, StarStar, StarEq, StarStarEq}
    ensures MatchCovers(c0, c1, c2, c3, t)
  {}

  lemma QuotientsAreLongest(c0: char, c1: char, c2: char, c3: char, t: Tok)
    requires Stands(t, c0, c1, c2, c3)
    requires t in {Slash, SlashEq, Backslash, BackslashEq, Percent, PercentEq, Caret, CaretEq}
    ensures MatchCovers(c0, c1, c2, c3, t)
  {}

  lemma EqualitiesAreLongest(c0: char, c1: char, c2: char, c3: char, t: Tok)
    requires Stands(t, c0, c1, c2, c3)
    requires t in {Equal, EqEq, EqEqEq, FatArrow, Bang,
                   NotEq, NotEqEq, Question, QuestionQuestion, QuestionQuestionEq}
    ensures MatchCovers(c0, c1, c2, c3, t)
  {}

  lemma ComparisonsAreLongest(c0: char, c1: char, c2: char, c3: char, t: Tok)
    requires Stands(t, c0, c1, c2, c3)
    requires t in {LtTok, LeTok, ShiftLeft, ShiftLeftEq, GtTok,
                   GeTok, ShiftRight, ShiftRightEq, UShiftRight, UShiftRightEq}
    ensures MatchCovers(c0, c1, c2, c3, t)
  {}

  lemma JunctionsAreLongest(c0: char, c1: char, c2: char, c3: char, t: Tok)
    requires Stands(t, c0, c1, c2, c3)
    requires t in {Amp, AmpAmp, AmpEq, Pipe, PipePipe, PipeEq}
    ensures MatchCovers(c0, c1, c2, c3, t)
  {}

  lemma SinglesAreLongest(c0: char, c1: char, c2: char, c3: char, t: Tok)
    requires Stands(t, c0, c1, c2, c3)
    requires t in {Colon, Tilde, At}
    ensures MatchCovers(c0, c1, c2, c3, t)
  {}

  /** So the operator at the front of a text lies inside the text. */
  lemma OperatorFitsText(s: string)
    requires s != ""
    ensures var r := OperatorAt(s[0], Peek(s, 1), Peek(s, 2), Peek(s, 3)); r.Some? ==> 1 <= r.value.1 <= |s|
  {
    OperatorIsSpelled(s[0], Peek(s, 1), Peek(s, 2), Peek(s, 3));
    hide OperatorAt, Letters;
  }
}
