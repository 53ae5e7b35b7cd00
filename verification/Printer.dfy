/** Expression emission: which parentheses and which tokens are written.
    `crates/backends/leek-backend-leekscript/src/emit/expr.rs`, `emit_expr` and `emit_kind`. */
module Printer {
  import opened Operators
  import opened Tokens

  /** What the emitter hands to the writer in one call. */
  datatype Symbol =
    | Ident(id: string)
    | BinarySym(op: BinaryOp)
    | UnarySym(uop: UnaryOp)
    | PostfixSym(pop: PostfixOp)
    | Open | Close | Mark | Separator

  datatype Call = Token(sym: Symbol) | Space

  /** The text of a symbol, one `token` call. */
  function Text(s: Symbol): string {
    match s
    case Ident(id) => id
    case BinarySym(op) => BinaryStr(op)
    case UnarySym(op) => UnaryStr(op)
    case PostfixSym(op) => PostfixStr(op)
    case Open => "("
    case Close => ")"
    case Mark => "?"
    case Separator => ":"
  }

  function EmitExpr(e: Expr, min: nat): seq<Call>
    decreases e, 1
  {
    if ExprPrec(e) < min then [Token(Open)] + EmitKind(e) + [Token(Close)] else EmitKind(e)
  }

  function EmitKind(e: Expr): seq<Call>
    decreases e, 0
  {
    match e
    case Name(id) => [Token(Ident(id))]
    case Binary(op, l, r) =>
      EmitExpr(l, LeftMin(op)) + [Space, Token(BinarySym(op)), Space] + EmitExpr(r, RightMin(op))
    case Unary(op, x) => [Token(UnarySym(op))] + EmitExpr(x, PREC_PREFIX)
    case Postfix(op, x) => EmitExpr(x, PREC_POSTFIX) + [Token(PostfixSym(op))]
    case Ternary(c, t, f) =>
      EmitExpr(c, PREC_TERNARY + 1) + [Space, Token(Mark), Space] + EmitExpr(t, 0)
      + [Space, Token(Separator), Space] + EmitExpr(f, PREC_TERNARY)
  }

  // ---- The tokens a call stands for ----

  function BinaryKind(op: BinaryOp): Tok {
    match op
    case Add => Plus
    case Sub => Minus
    case Mul => Star
    case Div => Slash
    case Mod => Percent
    case IntDiv => Backslash
    case Pow => StarStar
    case Eq => EqEq
    case Ne => NotEq
    case IdentityEq => EqEqEq
    case IdentityNe => NotEqEq
    case Lt => LtTok
    case Le => LeTok
    case Gt => GtTok
    case Ge => GeTok
    case And => AmpAmp
    case Or => PipePipe
    case Xor => KwXor
    case BitAnd => Amp
    case BitOr => Pipe
    case BitXor => Caret
    case ShiftL => ShiftLeft
    case ShiftR => ShiftRight
    case UShiftR => UShiftRight
    case NullCoalesce => QuestionQuestion
    case In => KwIn
    case NotIn => KwNot
    case Is => KwIs
    case Instanceof => KwInstanceof
    case Assign => Equal
    case AddAssign => PlusEq
    case SubAssign => MinusEq
    case MulAssign => StarEq
    case DivAssign => SlashEq
    case IntDivAssign => BackslashEq
    case ModAssign => PercentEq
    case PowAssign => StarStarEq
    case BitAndAssign => AmpEq
    case BitOrAssign => PipeEq
    case BitXorAssign => CaretEq
    case ShiftLAssign => ShiftLeftEq
    case ShiftRAssign => ShiftRightEq
    case UShiftRAssign => UShiftRightEq
    case NullCoalesceAssign => QuestionQuestionEq
  }

  function UnaryKind(op: UnaryOp): Tok {
    match op
    case Neg => Minus
    case Pos => Plus
    case Not => Bang
    case BitNot => Tilde
    case PreInc => PlusPlus
    case PreDec => MinusMinus
    case Ref => At
  }

  function PostfixKind(op: PostfixOp): Tok {
    match op
    case PostInc => PlusPlus
    case PostDec => MinusMinus
    case NonNull => Bang
  }

  function Kinds(s: Symbol): seq<Tok> {
    match s
    case Ident(id) => [Word(id)]
    case BinarySym(op) => if op == NotIn then [KwNot, KwIn] else [BinaryKind(op)]
    case UnarySym(op) => [UnaryKind(op)]
    case PostfixSym(op) => [PostfixKind(op)]
    case Open => [LParen]
    case Close => [RParen]
    case Mark => [Question]
    case Separator => [Colon]
  }

  /** The token stream a call sequence stands for. */
  function Toks(calls: seq<Call>): seq<Tok> {
    if calls == [] then []
    else (match calls[0] case Token(s) => Kinds(s) case Space => []) + Toks(calls[1..])
  }

  lemma {:induction false} ToksConcat(a: seq<Call>, b: seq<Call>)
    ensures Toks(a + b) == Toks(a) + Toks(b)
  {
    if a == [] {
      assert a + b == b;
    } else {
      assert (a + b)[1..] == a[1..] + b;
      ToksConcat(a[1..], b);
    }
  }

  /** The tokens of an expression printed under threshold `min`. */
  function Print(e: Expr, min: nat): seq<Tok>
    decreases e, 1
  {
    if ExprPrec(e) < min then [LParen] + PrintKind(e) + [RParen] else PrintKind(e)
  }

  function PrintKind(e: Expr): seq<Tok>
    decreases e, 0
  {
    match e
    case Name(id) => [Word(id)]
    case Binary(op, l, r) => Print(l, LeftMin(op)) + (Kinds(BinarySym(op)) + Print(r, RightMin(op)))
    case Unary(op, x) => [UnaryKind(op)] + Print(x, PREC_PREFIX)
    case Postfix(op, x) => Print(x, PREC_POSTFIX) + [PostfixKind(op)]
    case Ternary(c, t, f) =>
      Print(c, PREC_TERNARY + 1) + ([Question] + (Print(t, 0) + ([Colon] + Print(f, PREC_TERNARY))))
  }

  lemma ToksSpaced(s: Symbol)
    ensures Toks([Space, Token(s), Space]) == Kinds(s)
  {
    assert Toks([Space]) == [];
    assert [Token(s), Space][1..] == [Space];
    assert Toks([Token(s), Space]) == Kinds(s);
    assert [Space, Token(s), Space][1..] == [Token(s), Space];
  }

  /** The emitted calls stand for exactly these tokens. */
  lemma {:induction false} EmittedTokens(e: Expr, min: nat)
    ensures Toks(EmitExpr(e, min)) == Print(e, min)
    decreases e, 2
  {
    EmittedKindTokens(e);
    hide EmitKind, PrintKind;
    if ExprPrec(e) < min {
      ToksConcat([Token(Open)] + EmitKind(e), [Token(Close)]);
      ToksConcat([Token(Open)], EmitKind(e));
    }
  }

  lemma {:induction false} EmittedKindTokens(e: Expr)
    ensures Toks(EmitKind(e)) == PrintKind(e)
    decreases e, 1
  {
    hide EmitExpr, Print;
    match e
    case Name(_) =>
    case Binary(op, l, r) =>
      EmittedTokens(l, LeftMin(op));
      EmittedTokens(r, RightMin(op));
      Infix(EmitExpr(l, LeftMin(op)), BinarySym(op), EmitExpr(r, RightMin(op)));
    case Unary(op, x) =>
      ToksConcat([Token(UnarySym(op))], EmitExpr(x, PREC_PREFIX));
      EmittedTokens(x, PREC_PREFIX);
    case Postfix(op, x) =>
      ToksConcat(EmitExpr(x, PREC_POSTFIX), [Token(PostfixSym(op))]);
      EmittedTokens(x, PREC_POSTFIX);
    case Ternary(c, t, f) =>
      EmittedTokens(c, PREC_TERNARY + 1);
      EmittedTokens(t, 0);
      EmittedTokens(f, PREC_TERNARY);
      var first, second, third := EmitExpr(c, PREC_TERNARY + 1), EmitExpr(t, 0), EmitExpr(f, PREC_TERNARY);
      Infix(first + [Space, Token(Mark), Space] + second, Separator, third);
      Infix(first, Mark, second);
  }

  lemma Infix(a: seq<Call>, s: Symbol, b: seq<Call>)
    ensures Toks(a + [Space, Token(s), Space] + b) == Toks(a) + (Kinds(s) + Toks(b))
  {
    hide Kinds;
    ToksConcat(a + [Space, Token(s), Space], b);
    ToksConcat(a, [Space, Token(s), Space]);
    ToksSpaced(s);
    hide Toks;
  }
}
