/** The LeekScript expression parser, `crates/frontend/leek-parser/src/grammar/expr/mod.rs`
    and `atom.rs`, with the `is` / `is not` rewriting of the HIR lowering
    (`crates/middle/leek-hir/src/lower/expr.rs`). `Err` stands for a parse that reports a
    diagnostic, or that gives a tree with other nodes than those of `Expr`. */
module Pratt {
  import opened Options
  import opened Operators
  import opened Tokens
  import opened TypeGrammar

  datatype Parsed = Ok(e: Expr, rest: seq<Tok>) | Err

  const POSTFIX_BP := 90
  const PREFIX_BP := 85
  const TERNARY_BP_L := 7
  const TERNARY_BP_R := 6

  /** Left and right binding power of the tokens that open a binary expression. */
  function BinaryBp(t: Tok): Option<(nat, nat)> {
    match t
    case Equal | PlusEq | MinusEq | StarEq | SlashEq | PercentEq | BackslashEq | StarStarEq | AmpEq
      | PipeEq | CaretEq | ShiftLeftEq | ShiftRightEq | UShiftRightEq | QuestionQuestionEq => Some((5, 4))
    case PipePipe | QuestionQuestion | KwOr => Some((10, 11))
    case AmpAmp | KwXor | KwAnd => Some((20, 21))
    case Pipe => Some((22, 23))
    case Caret => Some((25, 26))
    case Amp => Some((28, 29))
    case EqEq | NotEq | EqEqEq | NotEqEq | KwIs => Some((30, 31))
    case LtTok | LeTok | GtTok | GeTok | KwIn => Some((40, 41))
    case ShiftLeft | ShiftRight | UShiftRight => Some((45, 46))
    case Plus | Minus => Some((50, 51))
    case Star | Slash | Percent | Backslash => Some((60, 61))
    case StarStar => Some((81, 80))
    case _ => None
  }

  /** The operator an infix token lowers to; `is` means `==`. */
  function BinaryOf(t: Tok): BinaryOp
    requires BinaryBp(t).Some?
  {
    match t
    case Plus => Add
    case Minus => Sub
    case Star => Mul
    case Slash => Div
    case Percent => Mod
    case Backslash => IntDiv
    case StarStar => Pow
    case EqEq | KwIs => Eq
    case NotEq => Ne
    case EqEqEq => IdentityEq
    case NotEqEq => IdentityNe
    case LtTok => Lt
    case LeTok => Le
    case GtTok => Gt
    case GeTok => Ge
    case AmpAmp | KwAnd => And
    case PipePipe | KwOr => Or
    case KwXor => Xor
    case Amp => BitAnd
    case Pipe => BitOr
    case Caret => BitXor
    case ShiftLeft => ShiftL
    case ShiftRight => ShiftR
    case UShiftRight => UShiftR
    case QuestionQuestion => NullCoalesce
    case KwIn => In
    case Equal => Assign
    case PlusEq => AddAssign
    case MinusEq => SubAssign
    case StarEq => MulAssign
    case SlashEq => DivAssign
    case BackslashEq => IntDivAssign
    case PercentEq => ModAssign
    case StarStarEq => PowAssign
    case AmpEq => BitAndAssign
    case PipeEq => BitOrAssign
    case CaretEq => BitXorAssign
    case ShiftLeftEq => ShiftLAssign
    case ShiftRightEq => ShiftRAssign
    case UShiftRightEq => UShiftRAssign
    case QuestionQuestionEq => NullCoalesceAssign
  }

  function UnaryOf(t: Tok): Option<UnaryOp> {
    match t
    case Minus => Some(Neg)
    case Plus => Some(Pos)
    case Bang | KwNot => Some(Not)
    case Tilde => Some(BitNot)
    case PlusPlus => Some(PreInc)
    case MinusMinus => Some(PreDec)
    case At => Some(Ref)
    case _ => None
  }

  function PostfixOf(t: Tok): Option<PostfixOp> {
    match t
    case PlusPlus => Some(PostInc)
    case MinusMinus => Some(PostDec)
    case Bang => Some(NonNull)
    case _ => None
  }

  /** Lowering of a binary node: `a is not b` is `a != b`. */
  function Combine(t: Tok, l: Expr, r: Expr): Expr
    requires BinaryBp(t).Some?
  {
    if t == KwIs && r.Unary? && r.uop == Not then Binary(Ne, l, r.operand) else Binary(BinaryOf(t), l, r)
  }

  /** `expr_bp`: the depth guard around one Pratt activation. */
  function ExprBp(ts: seq<Tok>, minBp: nat, depth: nat): (p: Parsed)
    ensures p.Ok? ==> |p.rest| < |ts|
    decreases |ts|, 3
  {
    if depth + 1 > MAX_RECURSION_DEPTH then Err else ExprBpInner(ts, minBp, depth + 1)
  }

  /** `expr_bp_inner`: an atom or prefix expression, then the operator loop. */
  function ExprBpInner(ts: seq<Tok>, minBp: nat, depth: nat): (p: Parsed)
    ensures p.Ok? ==> |p.rest| < |ts|
    decreases |ts|, 2
  {
    match AtomOrPrefix(ts, depth)
    case Err => Err
    case Ok(e, rest) => Loop(e, rest, minBp, depth)
  }

  function AtomOrPrefix(ts: seq<Tok>, depth: nat): (p: Parsed)
    ensures p.Ok? ==> |p.rest| < |ts|
    decreases |ts|, 1
  {
    if ts == [] then Err
    else if ts[0].Word? then Ok(Name(ts[0].id), ts[1..])
    else if ts[0] == LParen then
      match ExprBp(ts[1..], 0, depth)
      case Err => Err
      case Ok(e, rest) => if Head(rest) == RParen then Ok(e, rest[1..]) else Err
    else if UnaryOf(ts[0]).Some? then
      match ExprBp(ts[1..], PREFIX_BP, depth)
      case Err => Err
      case Ok(e, rest) => Ok(Unary(UnaryOf(ts[0]).value, e), rest)
    else Err
  }

  /** Fold in the operators whose left binding power is at least `minBp`. */
  function Loop(lhs: Expr, ts: seq<Tok>, minBp: nat, depth: nat): (p: Parsed)
    ensures p.Ok? ==> |p.rest| <= |ts|
    decreases |ts|, 1
  {
    if ts == [] then Ok(lhs, ts)
    // A call; printed text never puts `(` after an operand.
    else if ts[0] == LParen then Err
    else if POSTFIX_BP >= minBp && PostfixOf(ts[0]).Some? then
      Loop(Postfix(PostfixOf(ts[0]).value, lhs), ts[1..], minBp, depth)
    else if ts[0] == KwInstanceof then
      if 40 < minBp then Ok(lhs, ts) else InstanceofType(lhs, ts, minBp, depth)
    else if ts[0] == KwNot && Head(ts[1..]) == KwIn then
      if 40 < minBp then Ok(lhs, ts)
      else
        match ExprBp(ts[2..], 41, depth)
        case Err => Err
        case Ok(r, rest) => Loop(Binary(NotIn, lhs, r), rest, minBp, depth)
    else if ts[0] == Question && Head(ts[1..]) != Question && TERNARY_BP_L >= minBp then
      match ExprBp(ts[1..], 0, depth)
      case Err => Err
      case Ok(t, rest) =>
        if Head(rest) != Colon then Err
        else
          match ExprBp(rest[1..], TERNARY_BP_R, depth)
          case Err => Err
          case Ok(f, rest') => Loop(Ternary(lhs, t, f), rest', minBp, depth)
    else
      match BinaryBp(ts[0])
      case None => Ok(lhs, ts)
      case Some((lbp, rbp)) =>
        if lbp < minBp then Ok(lhs, ts)
        else
          match ExprBp(ts[1..], rbp, depth)
          case Err => Err
          case Ok(r, rest) => Loop(Combine(ts[0], lhs, r), rest, minBp, depth)
  }

  /** `instanceof T`: the right side is read by the type grammar; lowering keeps the first
      identifier that stands directly in the type, its head when it starts with a class name. */
  function InstanceofType(lhs: Expr, ts: seq<Tok>, minBp: nat, depth: nat): (p: Parsed)
    requires Head(ts) == KwInstanceof
    ensures p.Ok? ==> |p.rest| <= |ts|
    decreases |ts|, 0
  {
    match ParseType(ts[1..], false, depth)
    case TypeErr => Err
    // A type that starts with a keyword or an arrow has no head for lowering to name.
    case TypeOk(rest, _) =>
      if !Head(ts[1..]).Word? then Err else Loop(Binary(Instanceof, lhs, Name(ts[1].id)), rest, minBp, depth)
  }

  /** A whole expression whose enclosing productions already hold `depth` levels. */
  function Parse(ts: seq<Tok>, depth: nat): Option<Expr> {
    match ExprBp(ts, 0, depth)
    case Ok(e, rest) => if rest == [] then Some(e) else None
    case Err => None
  }
}
