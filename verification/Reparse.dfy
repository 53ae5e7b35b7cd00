/** Printing and parsing back as a whole: what is read back from every printed expression, and
    exactly when it is the printed tree. Where a type swallows an operator token, the tree that
    is read back (if any) stands for fewer tokens than were printed. */
module Reparse {
  import opened Options
  import opened Operators
  import opened Tokens
  import opened Printer
  import opened TypeGrammar
  import opened Pratt
  import opened ParseInverse
  import opened Turns

  // ---- The tokens a tree stands for ----

  /** Tokens other than parentheses in the printed form. */
  function Size(e: Expr): nat {
    match e
    case Name(_) => 1
    case Binary(op, l, r) => Size(l) + (if op == NotIn then 2 else 1) + Size(r)
    case Unary(_, x) => 1 + Size(x)
    case Postfix(_, x) => Size(x) + 1
    case Ternary(c, t, f) => Size(c) + 2 + Size(t) + Size(f)
  }

  lemma SingleLoad(t: Tok)
    ensures Load([t]) == if t == LParen || t == RParen then 0 else 1
  {
    assert [t][1..] == [];
  }

  lemma OperatorLoad(op: BinaryOp)
    ensures Load(Kinds(BinarySym(op))) == if op == NotIn then 2 else 1
  {
    if op == NotIn {
      assert [KwNot, KwIn][1..] == [KwIn];
      SingleLoad(KwIn);
    } else {
      SingleLoad(BinaryKind(op));
    }
  }

  lemma {:induction false} PrintedLoad(e: Expr, min: nat)
    ensures Load(Print(e, min)) == Size(e)
    decreases e, 1
  {
    hide PrintKind, Size, Load;
    PrintedKindLoad(e);
    if ExprPrec(e) < min {
      LoadConcat([LParen] + PrintKind(e), [RParen]);
      LoadConcat([LParen], PrintKind(e));
      SingleLoad(LParen);
      SingleLoad(RParen);
    }
  }

  lemma {:induction false} PrintedKindLoad(e: Expr)
    ensures Load(PrintKind(e)) == Size(e)
    decreases e, 0
  {
    hide Print, Load, Kinds;
    match e
    case Name(id) => SingleLoad(Word(id));
    case Binary(op, l, r) => PrintedBinaryLoad(op, l, r);
    case Unary(op, x) =>
      SingleLoad(UnaryKind(op));
      LoadConcat([UnaryKind(op)], Print(x, PREC_PREFIX));
      PrintedLoad(x, PREC_PREFIX);
    case Postfix(op, x) =>
      SingleLoad(PostfixKind(op));
      LoadConcat(Print(x, PREC_POSTFIX), [PostfixKind(op)]);
      PrintedLoad(x, PREC_POSTFIX);
    case Ternary(c, t, f) =>
      PrintedLoad(c, PREC_TERNARY + 1);
      PrintedLoad(t, 0);
      PrintedLoad(f, PREC_TERNARY);
      TernaryLoad(Print(c, PREC_TERNARY + 1), Print(t, 0), Print(f, PREC_TERNARY));
  }

  lemma TernaryLoad(x: seq<Tok>, y: seq<Tok>, z: seq<Tok>)
    ensures Load(x + ([Question] + (y + ([Colon] + z)))) == Load(x) + 2 + Load(y) + Load(z)
  {
    hide Load;
    SingleLoad(Question);
    SingleLoad(Colon);
    LoadConcat(x, [Question] + (y + ([Colon] + z)));
    LoadConcat([Question], y + ([Colon] + z));
    LoadConcat(y, [Colon] + z);
    LoadConcat([Colon], z);
  }

  lemma {:induction false} PrintedBinaryLoad(op: BinaryOp, l: Expr, r: Expr)
    ensures Load(PrintKind(Binary(op, l, r))) == Size(Binary(op, l, r))
    decreases Binary(op, l, r), 0, 0
  {
    hide Print, Load, Kinds, Prec, AssocOf;
    OperatorLoad(op);
    LoadConcat(Print(l, LeftMin(op)), Kinds(BinarySym(op)) + Print(r, RightMin(op)));
    LoadConcat(Kinds(BinarySym(op)), Print(r, RightMin(op)));
    PrintedLoad(l, LeftMin(op));
    PrintedLoad(r, RightMin(op));
  }

  lemma {:induction false} RelowerShrinks(e: Expr)
    ensures Size(Relowered(e)) <= Size(e)
  {
    match e
    case Name(_) =>
    case Binary(op, l, r) =>
      RelowerShrinks(l);
      RelowerShrinks(r);
      if r.Unary? { RelowerShrinks(r.operand); }
    case Unary(_, x) => RelowerShrinks(x);
    case Postfix(_, x) => RelowerShrinks(x);
    case Ternary(c, t, f) =>
      RelowerShrinks(c);
      RelowerShrinks(t);
      RelowerShrinks(f);
  }

  // ---- The parser never invents tokens ----

  /** A result and the input left over stand for at most `load` tokens. */
  ghost predicate Within(p: Parsed, load: int) { p.Ok? ==> Size(p.e) + Load(p.rest) <= load }

  lemma CombineShrinks(t: Tok, l: Expr, r: Expr)
    requires BinaryBp(t).Some?
    ensures Size(Combine(t, l, r)) <= Size(l) + 1 + Size(r)
  {
    BinaryOfToken(t);
    hide BinaryBp, BinaryOf;
  }

  lemma BinaryOfToken(t: Tok)
    requires BinaryBp(t).Some?
    ensures BinaryOf(t) != NotIn
  {}

  lemma {:induction false} ExprKeeps(ts: seq<Tok>, m: nat, d: nat)
    ensures Within(ExprBp(ts, m, d), Load(ts))
    decreases |ts|, 4
  {
    hide Loop, Load, Size, AtomOrPrefix;
    GuardStep(ts, m, d);
    if d + 1 <= MAX_RECURSION_DEPTH {
      AtomKeeps(ts, d + 1);
      var first := AtomOrPrefix(ts, d + 1);
      if first.Ok? { LoopKeeps(first.e, first.rest, m, d + 1); }
    }
  }

  lemma {:induction false} AtomKeeps(ts: seq<Tok>, d: nat)
    ensures Within(AtomOrPrefix(ts, d), Load(ts))
    decreases |ts|, 1
  {
    hide ExprBp;
    if ts == [] || ts[0].Word? {
    } else if ts[0] == LParen {
      ExprKeeps(ts[1..], 0, d);
    } else {
      ExprKeeps(ts[1..], PREFIX_BP, d);
    }
  }

  lemma {:induction false} LoopKeeps(lhs: Expr, ts: seq<Tok>, m: nat, d: nat)
    ensures Within(Loop(lhs, ts, m, d), Size(lhs) + Load(ts))
    decreases |ts|, 3
  {
    hide Loop, ExprBp, Combine, BinaryBp, PostfixOf, LeftPower, Load, ParseType, Size;
    if Loop(lhs, ts, m, d).Err? {
    } else if ts != [] && PostfixOf(ts[0]).Some? && m <= POSTFIX_BP {
      PostfixKeeps(lhs, ts, m, d);
    } else if ts != [] && ts[0] == KwInstanceof && m <= 40 {
      TypeKeeps(lhs, ts, m, d);
    } else if ts != [] && ts[0] == KwNot && Head(ts[1..]) == KwIn && m <= 40 {
      NotInKeeps(lhs, ts, m, d);
    } else if ts != [] && ts[0] == Question && Head(ts[1..]) != Question && m <= TERNARY_BP_L {
      BranchesKeep(lhs, ts, m, d);
    } else if ts != [] && BinaryBp(ts[0]).Some? && m <= BinaryBp(ts[0]).value.0 {
      InfixKeeps(lhs, ts, m, d);
    } else {
      LoopHasStopped(lhs, ts, m, d);
    }
  }

  lemma {:induction false} PostfixKeeps(lhs: Expr, ts: seq<Tok>, m: nat, d: nat)
    requires ts != [] && PostfixOf(ts[0]).Some? && m <= POSTFIX_BP
    ensures Within(Loop(lhs, ts, m, d), Size(lhs) + Load(ts))
    decreases |ts|, 2
  {
    hide Loop, LeftPower, Load;
    PostfixTurnReads(lhs, ts, m, d);
    LoopKeeps(Postfix(PostfixOf(ts[0]).value, lhs), ts[1..], m, d);
  }

  lemma {:induction false} TypeKeeps(lhs: Expr, ts: seq<Tok>, m: nat, d: nat)
    requires Loop(lhs, ts, m, d).Ok? && ts != [] && ts[0] == KwInstanceof && m <= 40
    ensures Within(Loop(lhs, ts, m, d), Size(lhs) + Load(ts))
    decreases |ts|, 2
  {
    hide Loop, LeftPower, Load, Opens, ParseType, Plain;
    InstanceofTurnReads(lhs, ts, m, d);
    LoopKeeps(Binary(Instanceof, lhs, Name(ts[1].id)), ParseType(ts[1..], false, d).rest, m, d);
  }

  lemma {:induction false} NotInKeeps(lhs: Expr, ts: seq<Tok>, m: nat, d: nat)
    requires Loop(lhs, ts, m, d).Ok? && ts != [] && ts[0] == KwNot && Head(ts[1..]) == KwIn && m <= 40
    ensures Within(Loop(lhs, ts, m, d), Size(lhs) + Load(ts))
    decreases |ts|, 2
  {
    hide Loop, ExprBp, LeftPower, Load;
    NotInTurnReads(lhs, ts, m, d);
    var right := ExprBp(ts[2..], 41, d);
    ExprKeeps(ts[2..], 41, d);
    LoopKeeps(Binary(NotIn, lhs, right.e), right.rest, m, d);
  }

  lemma {:induction false} BranchesKeep(lhs: Expr, ts: seq<Tok>, m: nat, d: nat)
    requires Loop(lhs, ts, m, d).Ok?
    requires ts != [] && ts[0] == Question && Head(ts[1..]) != Question && m <= TERNARY_BP_L
    ensures Within(Loop(lhs, ts, m, d), Size(lhs) + Load(ts))
    decreases |ts|, 2
  {
    hide Loop, ExprBp, LeftPower, Load, ParseType;
    TernaryTurnReads(lhs, ts, m, d);
    var first := ExprBp(ts[1..], 0, d);
    var second := ExprBp(first.rest[1..], TERNARY_BP_R, d);
    ExprKeeps(ts[1..], 0, d);
    ExprKeeps(first.rest[1..], TERNARY_BP_R, d);
    LoopKeeps(Ternary(lhs, first.e, second.e), second.rest, m, d);
  }

  lemma {:induction false} InfixKeeps(lhs: Expr, ts: seq<Tok>, m: nat, d: nat)
    requires Loop(lhs, ts, m, d).Ok?
    requires ts != [] && BinaryBp(ts[0]).Some? && m <= BinaryBp(ts[0]).value.0
    ensures Within(Loop(lhs, ts, m, d), Size(lhs) + Load(ts))
    decreases |ts|, 2
  {
    hide Loop, ExprBp, LeftPower, Load, ParseType, BinaryBp, BinaryOf, Combine, Size;
    InfixTurnReads(lhs, ts, m, d);
    var right := ExprBp(ts[1..], BinaryBp(ts[0]).value.1, d);
    ExprKeeps(ts[1..], BinaryBp(ts[0]).value.1, d);
    CombineShrinks(ts[0], lhs, right.e);
    LoopKeeps(Combine(ts[0], lhs, right.e), right.rest, m, d);
  }

  // ---- A clash loses tokens ----

  /** Reading `e` printed under `min` fails or yields a tree for fewer tokens than it was given. */
  ghost predicate Loses(e: Expr, min: nat, m: nat, d: nat, rest: seq<Tok>) {
    var ts := Print(e, min) + rest;
    Within(ExprBpInner(ts, m, d), Load(ts) - 1)
  }

  lemma {:induction false} ClashLoses(e: Expr, min: nat, m: nat, d: nat, rest: seq<Tok>)
    requires WellFormed(e) && Admissible(min, m, d, rest) && TypeClash(e, min, Head(rest))
    ensures Loses(e, min, m, d, rest)
    decreases e, if ExprPrec(e) < min then 1 else 0, 2
  {
    hide ExprBpInner, Loop, Print, TypeClash, Load, LeastLeft, LeastRight, Loses;
    if ExprPrec(e) < min {
      ParenthesisedLoses(e, min, m, d, rest);
    } else {
      match e
      case Name(id) => BareFits(e, min, d, Head(rest));
      case Binary(op, l, r) => BinaryLoses(op, l, r, min, m, d, rest);
      case Unary(op, x) => UnaryLoses(op, x, min, m, d, rest);
      case Postfix(op, x) => PostfixLoses(op, x, min, m, d, rest);
      case Ternary(c, t, f) => TernaryLoses(c, t, f, min, m, d, rest);
    }
  }

  lemma {:induction false} PostfixLoses(op: PostfixOp, x: Expr, min: nat, m: nat, d: nat, rest: seq<Tok>)
    requires WellFormed(x) && Admissible(min, m, d, rest) && min <= PREC_POSTFIX
    requires TypeClash(Postfix(op, x), min, Head(rest))
    ensures Loses(Postfix(op, x), min, m, d, rest)
    decreases Postfix(op, x), 0, 1
  {
    hide ExprBpInner, ExprBp, Loop, Print, TypeClash, Load, Size, LeftPower, LeastLeft, LeastRight, PostfixKind;
    PostfixRungs(min);
    PostfixPrint(op, x, min, rest);
    PostfixFits(op, x, min, d, Head(rest));
    PostfixBinds(op, rest);
    ClashLoses(x, PREC_POSTFIX, m, d, [PostfixKind(op)] + rest);
  }

  lemma PostfixRungs(min: nat)
    requires min <= PREC_POSTFIX
    ensures LeastLeft(min) <= LeastLeft(PREC_POSTFIX) && POSTFIX_BP < LeastRight(PREC_POSTFIX)
  {
    LadderIsMonotone(min, PREC_POSTFIX);
  }

  /** The same for an operand read by its own activation. */
  lemma {:induction false} OperandLoses(e: Expr, min: nat, m: nat, d: nat, rest: seq<Tok>)
    requires WellFormed(e) && Admissible(min, m, d, rest) && TypeClash(e, min, Head(rest))
    ensures Within(ExprBp(Print(e, min) + rest, m, d), Load(Print(e, min) + rest) - 1)
    decreases e, if ExprPrec(e) < min then 1 else 0, 3
  {
    hide ExprBpInner, ExprBp, Print, TypeClash, LeftPower, LeastRight, Load, Size;
    GuardStep(Print(e, min) + rest, m, d);
    if d + 1 <= MAX_RECURSION_DEPTH {
      ClashLoses(e, min, m, d + 1, rest);
    }
  }

  lemma {:induction false} ParenthesisedLoses(e: Expr, min: nat, m: nat, d: nat, rest: seq<Tok>)
    requires WellFormed(e) && Admissible(min, m, d, rest) && ExprPrec(e) < min && TypeClash(e, min, Head(rest))
    ensures Loses(e, min, m, d, rest)
    decreases e, 1, 1
  {
    hide ExprBpInner, ExprBp, Loop, Print, TypeClash, Size, Load, LeftPower;
    var inner := [RParen] + rest;
    assert inner[1..] == rest;
    CloserLoad(inner);
    CloserBinds(rest);
    ParenPrint(e, min, rest);
    ParenStep(Print(e, 0) + inner, m, d);
    ParenFits(e, min, d, Head(rest));
    OperandLoses(e, 0, 0, d, inner);
    PrintedLoad(e, 0);
    PrintedLoad(e, min);
    LoadConcat(Print(e, 0), inner);
    LoadConcat(Print(e, min), rest);
    var read := ExprBp(Print(e, 0) + inner, 0, d);
    if read.Ok? && Head(read.rest) == RParen {
      CloserLoad(read.rest);
      LoopKeeps(read.e, read.rest[1..], m, d);
    }
  }

  lemma CloserLoad(ts: seq<Tok>)
    requires Head(ts) == RParen
    ensures Load(ts) == Load(ts[1..])
  {}

  lemma {:induction false} UnaryLoses(op: UnaryOp, x: Expr, min: nat, m: nat, d: nat, rest: seq<Tok>)
    requires WellFormed(x) && Admissible(min, m, d, rest) && min <= PREC_PREFIX
    requires TypeClash(Unary(op, x), min, Head(rest))
    ensures Loses(Unary(op, x), min, m, d, rest)
    decreases Unary(op, x), 0, 1
  {
    hide ExprBpInner, ExprBp, Loop, Print, TypeClash, LeftPower, Load, Size;
    PrefixRungs(min);
    hide LeastLeft, LeastRight;
    UnaryPrint(op, x, min, rest);
    UnaryStep(op, Print(x, PREC_PREFIX) + rest, m, d);
    UnaryFits(op, x, min, d, Head(rest));
    var body := Print(x, PREC_PREFIX) + rest;
    OperandLoses(x, PREC_PREFIX, PREFIX_BP, d, rest);
    LoadConcat([UnaryKind(op)], body);
    SingleLoad(UnaryKind(op));
    var read := ExprBp(body, PREFIX_BP, d);
    if read.Ok? { FoldedUnary(op, read, m, d); }
  }

  lemma PrefixRungs(min: nat)
    requires min <= PREC_PREFIX
    ensures LeastRight(min) <= LeastRight(PREC_PREFIX) && PREFIX_BP <= LeastLeft(PREC_PREFIX)
  {
    LadderIsMonotone(min, PREC_PREFIX);
  }

  lemma FoldedUnary(op: UnaryOp, read: Parsed, m: nat, d: nat)
    requires read.Ok?
    ensures Within(Loop(Unary(op, read.e), read.rest, m, d), 1 + Size(read.e) + Load(read.rest))
  {
    hide Loop, Load;
    LoopKeeps(Unary(op, read.e), read.rest, m, d);
  }

  lemma {:induction false} TernaryLoses(c: Expr, t: Expr, f: Expr, min: nat, m: nat, d: nat, rest: seq<Tok>)
    requires WellFormed(c) && WellFormed(t) && WellFormed(f)
    requires Admissible(min, m, d, rest) && min <= PREC_TERNARY && TypeClash(Ternary(c, t, f), min, Head(rest))
    ensures Loses(Ternary(c, t, f), min, m, d, rest)
    decreases Ternary(c, t, f), 0, 1
  {
    hide ExprBpInner, ExprBp, Loop, Print, Shallow, TypeClash, BinaryBp, Load, Size, Relowered, LeftPower;
    LadderIsMonotone(min, PREC_TERNARY);
    var last := Print(f, PREC_TERNARY) + rest;
    var middle := [Colon] + last;
    var body := Print(t, 0) + middle;
    var tail := [Question] + body;
    PrintStarts(t, 0, middle);
    MarkBinds(body);
    TernaryPrint(c, t, f, min, rest);
    TernaryFits(c, t, f, min, d, Head(rest));
    if TypeClash(c, PREC_TERNARY + 1, Question) {
      ClashLoses(c, PREC_TERNARY + 1, m, d, tail);
    } else {
      ReadsPrinted(c, PREC_TERNARY + 1, m, d, tail);
      RelowerShrinks(c);
      BranchesLose(c, t, f, m, d, rest);
      PrintedLoad(c, PREC_TERNARY + 1);
      LoadConcat(Print(c, PREC_TERNARY + 1), tail);
    }
  }

  lemma {:induction false} BranchesLose(c: Expr, t: Expr, f: Expr, m: nat, d: nat, rest: seq<Tok>)
    requires WellFormed(t) && WellFormed(f)
    requires m <= TERNARY_BP_L && d <= MAX_RECURSION_DEPTH && LeftPower(rest) < LeastRight(PREC_TERNARY)
    requires TypeClash(t, 0, Colon) || TypeClash(f, PREC_TERNARY, Head(rest))
    ensures var tail := [Question] + (Print(t, 0) + ([Colon] + (Print(f, PREC_TERNARY) + rest)));
            Within(Loop(Relowered(c), tail, m, d), Size(Relowered(c)) + Load(tail) - 1)
    decreases Ternary(c, t, f), 0, 0
  {
    hide ExprBpInner, ExprBp, Loop, Print, Shallow, TypeClash, LeftPower, Load, Relowered, Size, AfterThen;
    var lhs := Relowered(c);
    var last := Print(f, PREC_TERNARY) + rest;
    var middle := [Colon] + last;
    var body := Print(t, 0) + middle;
    ColonBindsNothing(last);
    PrintStarts(t, 0, middle);
    TernaryStepsOn(lhs, body, m, d);
    BranchLoad([Question], body);
    AfterThenKeeps(lhs, ExprBp(body, 0, d), m, d);
    if TypeClash(t, 0, Colon) {
      OperandLoses(t, 0, 0, d, middle);
    } else {
      Operand(t, 0, 0, d, middle);
      OperandLoses(f, PREC_TERNARY, TERNARY_BP_R, d, rest);
      ElseLoses(lhs, Relowered(t), last, m, d);
      ThenLoad(t, middle);
    }
  }

  lemma ThenLoad(t: Expr, middle: seq<Tok>)
    ensures Size(Relowered(t)) + Load(middle) <= Load(Print(t, 0) + middle)
  {
    hide Load, Print, Size, Relowered;
    RelowerShrinks(t);
    LoadConcat(Print(t, 0), middle);
    PrintedLoad(t, 0);
  }

  /** The loop once the branch before the colon was tried. */
  function AfterThen(lhs: Expr, first: Parsed, m: nat, d: nat): Parsed {
    match first
    case Err => Err
    case Ok(t, rest) =>
      if Head(rest) != Colon then Err
      else match ExprBp(rest[1..], TERNARY_BP_R, d)
        case Err => Err
        case Ok(f, rest') => Loop(Ternary(lhs, t, f), rest', m, d)
  }

  lemma TernaryStepsOn(lhs: Expr, body: seq<Tok>, m: nat, d: nat)
    requires m <= TERNARY_BP_L && Head(body) != Question
    ensures Loop(lhs, [Question] + body, m, d) == AfterThen(lhs, ExprBp(body, 0, d), m, d)
  {
    hide Loop, ExprBp;
    TernaryStep(lhs, body, m, d);
  }

  lemma AfterThenKeeps(lhs: Expr, first: Parsed, m: nat, d: nat)
    ensures first.Err? ==> AfterThen(lhs, first, m, d) == Err
    ensures first.Ok? ==> Within(AfterThen(lhs, first, m, d), Size(lhs) + 1 + Size(first.e) + Load(first.rest))
  {
    hide Loop, ExprBp, Load, Size;
    if first.Ok? && Head(first.rest) == Colon {
      assert [Colon] + first.rest[1..] == first.rest;
      BranchLoad([Colon], first.rest[1..]);
      ExprKeeps(first.rest[1..], TERNARY_BP_R, d);
      var second := ExprBp(first.rest[1..], TERNARY_BP_R, d);
      if second.Ok? { FoldedTernary(lhs, first.e, second, m, d); }
    }
  }

  lemma ElseLoses(lhs: Expr, t: Expr, last: seq<Tok>, m: nat, d: nat)
    requires Within(ExprBp(last, TERNARY_BP_R, d), Load(last) - 1)
    ensures Within(AfterThen(lhs, Ok(t, [Colon] + last), m, d), Size(lhs) + Size(t) + Load([Colon] + last))
  {
    hide Loop, ExprBp, Load, Size;
    assert ([Colon] + last)[1..] == last;
    BranchLoad([Colon], last);
    var second := ExprBp(last, TERNARY_BP_R, d);
    if second.Ok? { FoldedTernary(lhs, t, second, m, d); }
  }

  lemma FoldedTernary(c: Expr, t: Expr, second: Parsed, m: nat, d: nat)
    requires second.Ok?
    ensures Within(Loop(Ternary(c, t, second.e), second.rest, m, d),
                   Size(c) + 2 + Size(t) + Size(second.e) + Load(second.rest))
  {
    hide Loop, Load;
    LoopKeeps(Ternary(c, t, second.e), second.rest, m, d);
  }

  lemma BranchLoad(mark: seq<Tok>, ts: seq<Tok>)
    requires mark == [Question] || mark == [Colon]
    ensures Load(mark + ts) == 1 + Load(ts)
  {
    LoadConcat(mark, ts);
    SingleLoad(mark[0]);
  }

  lemma {:induction false} BinaryLoses(op: BinaryOp, l: Expr, r: Expr, min: nat, m: nat, d: nat, rest: seq<Tok>)
    requires WellFormed(Binary(op, l, r)) && Admissible(min, m, d, rest) && min <= Prec(op)
    requires TypeClash(Binary(op, l, r), min, Head(rest))
    ensures Loses(Binary(op, l, r), min, m, d, rest)
    decreases Binary(op, l, r), 0, 1
  {
    hide ExprBpInner, ExprBp, Loop, Print, Shallow, TypeClash, Relowered, Prec, AssocOf, BinaryKind, BinaryBp, BinaryOf,
         LeastLeft, LeastRight, Powers, LeftPower, Load, Size, Kinds;
    LadderIsMonotone(min, Prec(op));
    ThresholdsAscend(op);
    LadderIsMonotone(Prec(op), LeftMin(op));
    PowersFitThresholds(op);
    var last := Print(r, RightMin(op)) + rest;
    var tail := Kinds(BinarySym(op)) + last;
    BinaryPrint(op, l, r, min, rest);
    BinaryFits(op, l, r, min, d, Head(rest));
    LeftPowerOfPrinted(op, last);
    if TypeClash(l, LeftMin(op), BinaryKind(op)) {
      ClashLoses(l, LeftMin(op), m, d, tail);
    } else {
      ReadsPrinted(l, LeftMin(op), m, d, tail);
      RelowerShrinks(l);
      TailLoses(op, Relowered(l), r, m, d, rest);
      PrintedLoad(l, LeftMin(op));
      LoadConcat(Print(l, LeftMin(op)), tail);
    }
  }

  /** From the operator on, when the clash is to the right of it. */
  lemma {:induction false} TailLoses(op: BinaryOp, lhs: Expr, r: Expr, m: nat, d: nat, rest: seq<Tok>)
    requires WellFormed(r) && (op == Instanceof ==> r.Name?)
    requires m <= Powers(Prec(op)).0 && d <= MAX_RECURSION_DEPTH && LeftPower(rest) < LeastRight(Prec(op))
    requires if op == Instanceof then ContinuesType(Head(rest)) else TypeClash(r, RightMin(op), Head(rest))
    ensures var tail := Kinds(BinarySym(op)) + (Print(r, RightMin(op)) + rest);
            Within(Loop(lhs, tail, m, d), Size(lhs) + Load(tail) - 1)
    decreases r, 2
  {
    hide ExprBpInner, ExprBp, Loop, Print, Shallow, TypeClash, Relowered, Prec, AssocOf, BinaryKind, BinaryBp, BinaryOf,
         LeastLeft, LeastRight, Powers, LeftPower, Load, Combine, Size;
    PowersFitThresholds(op);
    ThresholdsAscend(op);
    LadderIsMonotone(Prec(op), RightMin(op));
    var last := Print(r, RightMin(op)) + rest;
    if op == Instanceof {
      InstanceofTokens(r.id, rest);
      InstanceofLoses(lhs, r.id, m, d, rest);
    } else {
      OperandLoses(r, RightMin(op), Powers(Prec(op)).1, d, rest);
      FoldLoses(op, lhs, last, m, d);
    }
  }

  lemma NotInLoses(lhs: Expr, last: seq<Tok>, m: nat, d: nat)
    requires m <= Powers(Prec(NotIn)).0
    requires Within(ExprBp(last, Powers(Prec(NotIn)).1, d), Load(last) - 1)
    ensures Within(Loop(lhs, Kinds(BinarySym(NotIn)) + last, m, d), Size(lhs) + 1 + Load(last))
  {
    hide ExprBp, Loop, Load;
    var right := ExprBp(last, Powers(Prec(NotIn)).1, d);
    NotInFold(lhs, last, m, d);
    if right.Ok? { LoopKeeps(Binary(NotIn, lhs, right.e), right.rest, m, d); }
  }

  lemma FoldLoses(op: BinaryOp, lhs: Expr, last: seq<Tok>, m: nat, d: nat)
    requires op != Instanceof && m <= Powers(Prec(op)).0
    requires Within(ExprBp(last, Powers(Prec(op)).1, d), Load(last) - 1)
    ensures Within(Loop(lhs, Kinds(BinarySym(op)) + last, m, d), Size(lhs) + Load(Kinds(BinarySym(op)) + last) - 1)
  {
    hide ExprBp, Loop, Prec, BinaryKind, BinaryBp, BinaryOf, Powers, Load, Combine, Size;
    var right := ExprBp(last, Powers(Prec(op)).1, d);
    OperatorLoad(op);
    LoadConcat(Kinds(BinarySym(op)), last);
    if op == NotIn {
      NotInLoses(lhs, last, m, d);
    } else {
      OperatorOfKind(op);
      InfixStep(op, lhs, last, m, d);
      if right.Ok? {
        CombineShrinks(BinaryKind(op), lhs, right.e);
        LoopKeeps(Combine(BinaryKind(op), lhs, right.e), right.rest, m, d);
      }
    }
  }

  lemma NotInFold(lhs: Expr, last: seq<Tok>, m: nat, d: nat)
    requires m <= Powers(Prec(NotIn)).0
    ensures Loop(lhs, Kinds(BinarySym(NotIn)) + last, m, d)
         == match ExprBp(last, Powers(Prec(NotIn)).1, d)
            case Err => Err
            case Ok(r, rest) => Loop(Binary(NotIn, lhs, r), rest, m, d)
  {
    hide Loop, ExprBp;
    NotInStep(lhs, last, m, d);
  }

  /** The type takes at least one token that the printer wrote for something else. */
  lemma InstanceofLoses(lhs: Expr, id: string, m: nat, d: nat, rest: seq<Tok>)
    requires m <= 40 && ContinuesType(Head(rest))
    ensures Within(Loop(lhs, [KwInstanceof] + ([Word(id)] + rest), m, d), Size(lhs) + 1 + Load(rest))
  {
    hide Loop, ParseType, Load, LeftPower, Size;
    var ty := [Word(id)] + rest;
    var tail := [KwInstanceof] + ty;
    assert tail[0] == KwInstanceof && tail[1..] == ty && ty[0] == Word(id);
    if Loop(lhs, tail, m, d).Ok? {
      InstanceofTurnReads(lhs, tail, m, d);
      TypeTakesMore(id, rest, d);
      FoldedTest(lhs, id, ParseType(ty, false, d).rest, m, d);
    }
  }

  lemma FoldedTest(lhs: Expr, id: string, next: seq<Tok>, m: nat, d: nat)
    ensures Within(Loop(Binary(Instanceof, lhs, Name(id)), next, m, d), Size(lhs) + 2 + Load(next))
  {
    hide Loop, Load;
    LoopKeeps(Binary(Instanceof, lhs, Name(id)), next, m, d);
  }

  lemma InstanceofTokens(id: string, rest: seq<Tok>)
    ensures Kinds(BinarySym(Instanceof)) + (Print(Name(id), RightMin(Instanceof)) + rest)
         == [KwInstanceof] + ([Word(id)] + rest)
    ensures Load([KwInstanceof] + ([Word(id)] + rest)) == 2 + Load(rest)
    ensures Powers(Prec(Instanceof)).0 == 40
  {
    hide Print, Load;
    NamePrint(id, RightMin(Instanceof));
    LoadConcat([KwInstanceof], [Word(id)] + rest);
    LoadConcat([Word(id)], rest);
    SingleLoad(KwInstanceof);
    SingleLoad(Word(id));
  }

  // ---- The round trip ----

  lemma EmptyLoad()
    ensures Load([]) == 0
  {}

  /** A tree that clashes is never read back: the parse fails, or the result stands for strictly
      fewer tokens than were printed. */
  lemma ClashIsNeverReadBack(e: Expr, depth: nat)
    requires WellFormed(e) && TypeClash(e, 0, Eof)
    ensures var back := Parse(Print(e, 0), depth); back.Some? ==> Size(back.value) < Size(e)
  {
    hide Print, Load, ExprBp, LeftPower, TypeClash, Size;
    NothingBindsAtEof();
    EmptyLoad();
    assert Print(e, 0) + [] == Print(e, 0);
    PrintedLoad(e, 0);
    if depth <= MAX_RECURSION_DEPTH {
      OperandLoses(e, 0, 0, depth, []);
    } else {
      GuardStep(Print(e, 0), 0, depth);
    }
  }

  /** Parsing undoes printing exactly for the trees without the `is` operator, nested within
      the parser's depth limit, in which no `instanceof C` is followed by `<`, `|` or `=>`. */
  lemma RoundTrip(e: Expr, depth: nat)
    requires WellFormed(e)
    ensures Parse(Print(e, 0), depth) == Some(e)
       <==> !HasIs(e) && !TypeClash(e, 0, Eof) && Shallow(e, 0, depth + 1)
  {
    hide Parse, Print, TypeClash, Shallow;
    if TypeClash(e, 0, Eof) {
      ClashIsNeverReadBack(e, depth);
    } else {
      ReparseOfPrinted(e, depth);
      ReloweringKeepsExactlyIsFree(e);
    }
  }

  /** Two such trees that print alike are the same tree. */
  lemma PrintIsInjective(e: Expr, f: Expr)
    requires WellFormed(e) && !HasIs(e) && !TypeClash(e, 0, Eof) && Shallow(e, 0, 1)
    requires WellFormed(f) && !HasIs(f) && !TypeClash(f, 0, Eof) && Shallow(f, 0, 1)
    requires Print(e, 0) == Print(f, 0)
    ensures e == f
  {
    RoundTrip(e, 0);
    RoundTrip(f, 0);
  }

  // ---- Trees that clash ----

  /** `(l instanceof A) | b` is printed without the parentheses and read back, without any
      diagnostic, as `l instanceof A`. */
  lemma UnionSwallowsOperand(l: Expr, a: string, b: string, depth: nat)
    requires WellFormed(l) && !HasIs(l) && !TypeClash(l, LeftMin(Instanceof), KwInstanceof)
    requires Shallow(l, LeftMin(Instanceof), depth + 1) && depth + 2 <= MAX_RECURSION_DEPTH
    ensures var test := Binary(Instanceof, l, Name(a));
            Parse(Print(Binary(BitOr, test, Name(b)), 0), depth) == Some(test)
  {
    hide Print, Loop, Shallow, TypeClash, Relowered, ParseType, LeftMin, Parse;
    var test := Binary(Instanceof, l, Name(a));
    PrintsTest(l, a, BitOr, b);
    UnionType(a, b, [], depth + 1);
    ReadsTyped(l, a, [Pipe] + ([Word(b)] + []), [], depth);
    StopsAtEof(test, depth + 1);
  }

  /** `(l instanceof A) < b` is printed without the parentheses and fails to parse. */
  lemma ArgumentsStayOpen(l: Expr, a: string, b: string, depth: nat)
    requires WellFormed(l) && !TypeClash(l, LeftMin(Instanceof), KwInstanceof)
    ensures Parse(Print(Binary(Lt, Binary(Instanceof, l, Name(a)), Name(b)), 0), depth) == None
  {
    hide Print, Loop, Shallow, TypeClash, Relowered, ParseType, LeftMin, Parse;
    var ty := [Word(a)] + ([LtTok] + ([Word(b)] + []));
    assert [Word(b)] + [] == [Word(b)];
    PrintsTest(l, a, Lt, b);
    ReadsTest(l, [KwInstanceof] + ty, depth);
    OpenArgs(a, b, depth + 1);
    ReadsType(Relowered(l), ty, depth + 1);
  }

  /** `((l instanceof A) < b) > -x` is printed without parentheses and read back, without a diagnostic,
      as `(l instanceof A) - x`: the two comparisons become the arguments of the type. */
  lemma ArgumentsAreSwallowed(l: Expr, a: string, b: string, x: Expr, depth: nat)
    requires WellFormed(l) && !HasIs(l) && !TypeClash(l, LeftMin(Instanceof), KwInstanceof)
    requires WellFormed(x) && !HasIs(x) && !TypeClash(x, PREC_PREFIX, Eof)
    requires Shallow(l, LeftMin(Instanceof), depth + 1) && Shallow(x, PREC_PREFIX, depth + 2)
    requires depth + 3 <= MAX_RECURSION_DEPTH
    ensures var test := Binary(Instanceof, l, Name(a));
            Parse(Print(Binary(Gt, Binary(Lt, test, Name(b)), Unary(Neg, x)), 0), depth) == Some(Binary(Sub, test, x))
  {
    hide Print, Loop, Shallow, TypeClash, LeftMin, Parse, HasIs, WellFormed;
    PrintsArguments(l, a, b, x);
    ReadsArguments(l, a, b, Print(x, PREC_PREFIX) + [], depth);
    ReadsDifference(Binary(Instanceof, l, Name(a)), x, depth + 1);
  }

  lemma ReadsArguments(l: Expr, a: string, b: string, more: seq<Tok>, depth: nat)
    requires WellFormed(l) && !HasIs(l) && !TypeClash(l, LeftMin(Instanceof), KwInstanceof)
    requires Shallow(l, LeftMin(Instanceof), depth + 1) && depth + 3 <= MAX_RECURSION_DEPTH
    ensures Parse(Print(l, LeftMin(Instanceof))
                  + ([KwInstanceof] + ([Word(a)] + ([LtTok] + ([Word(b)] + ([GtTok] + ([Minus] + more)))))), depth)
         == match Loop(Binary(Instanceof, l, Name(a)), [Minus] + more, 0, depth + 1)
            case Ok(e, rest) => if rest == [] then Some(e) else None
            case Err => None
  {
    hide Print, Loop, Shallow, TypeClash, ParseType, LeftMin, Parse, HasIs, WellFormed;
    var last := [Minus] + more;
    assert last[0] == Minus;
    ClosedArgs(a, b, last, depth + 1);
    ReadsTyped(l, a, [LtTok] + ([Word(b)] + ([GtTok] + last)), last, depth);
  }

  /** A type behind a left side that is itself read back, whatever the type takes. */
  lemma ReadsTyped(l: Expr, a: string, more: seq<Tok>, rest: seq<Tok>, depth: nat)
    requires WellFormed(l) && !HasIs(l) && !TypeClash(l, LeftMin(Instanceof), KwInstanceof)
    requires Shallow(l, LeftMin(Instanceof), depth + 1) && depth + 1 <= MAX_RECURSION_DEPTH
    requires ParseType([Word(a)] + more, false, depth + 1) == TypeOk(rest, 0)
    ensures Parse(Print(l, LeftMin(Instanceof)) + ([KwInstanceof] + ([Word(a)] + more)), depth)
         == match Loop(Binary(Instanceof, l, Name(a)), rest, 0, depth + 1)
            case Ok(e, rest') => if rest' == [] then Some(e) else None
            case Err => None
  {
    hide Print, Loop, Shallow, TypeClash, Relowered, ParseType, LeftMin, Parse;
    var ty := [Word(a)] + more;
    assert ty[0] == Word(a);
    ReadsTest(l, [KwInstanceof] + ty, depth);
    ReadsType(Relowered(l), ty, depth + 1);
    ReloweringKeepsExactlyIsFree(l);
  }

  lemma ReadsDifference(lhs: Expr, x: Expr, d: nat)
    requires WellFormed(x) && !HasIs(x) && !TypeClash(x, PREC_PREFIX, Eof)
    requires Shallow(x, PREC_PREFIX, d + 1) && d <= MAX_RECURSION_DEPTH
    ensures Loop(lhs, [Minus] + (Print(x, PREC_PREFIX) + []), 0, d) == Ok(Binary(Sub, lhs, x), [])
  {
    hide Print, Loop, Shallow, TypeClash, Relowered, ExprBp, LeftPower;
    NothingBindsAtEof();
    InfixStep(Sub, lhs, Print(x, PREC_PREFIX) + [], 0, d);
    Operand(x, PREC_PREFIX, 51, d, []);
    ReloweringKeepsExactlyIsFree(x);
    StopsAtEof(Binary(Sub, lhs, x), d);
  }

  lemma PrintsArguments(l: Expr, a: string, b: string, x: Expr)
    ensures Print(Binary(Gt, Binary(Lt, Binary(Instanceof, l, Name(a)), Name(b)), Unary(Neg, x)), 0)
         == Print(l, LeftMin(Instanceof))
            + ([KwInstanceof]
               + ([Word(a)] + ([LtTok] + ([Word(b)] + ([GtTok] + ([Minus] + (Print(x, PREC_PREFIX) + [])))))))
  {
    hide Print;
    var test, right := Binary(Instanceof, l, Name(a)), Unary(Neg, x);
    var less := Binary(Lt, test, Name(b));
    BinaryPrint(Gt, less, right, 0, []);
    UnaryPrint(Neg, x, RightMin(Gt), []);
    var tail := Kinds(BinarySym(Gt)) + (Print(right, RightMin(Gt)) + []);
    BinaryPrint(Lt, test, Name(b), LeftMin(Gt), tail);
    NamePrint(b, RightMin(Lt));
    var tail' := Kinds(BinarySym(Lt)) + (Print(Name(b), RightMin(Lt)) + tail);
    BinaryPrint(Instanceof, l, Name(a), LeftMin(Lt), tail');
    NamePrint(a, RightMin(Instanceof));
    var whole := Print(Binary(Gt, less, right), 0);
    assert whole + [] == whole;
  }

  lemma PrintsTest(l: Expr, a: string, op: BinaryOp, b: string)
    requires op == BitOr || op == Lt
    ensures Print(Binary(op, Binary(Instanceof, l, Name(a)), Name(b)), 0)
         == Print(l, LeftMin(Instanceof)) + ([KwInstanceof] + ([Word(a)] + ([BinaryKind(op)] + ([Word(b)] + []))))
  {
    hide Print;
    var test := Binary(Instanceof, l, Name(a));
    BinaryPrint(op, test, Name(b), 0, []);
    var tail := Kinds(BinarySym(op)) + (Print(Name(b), RightMin(op)) + []);
    BinaryPrint(Instanceof, l, Name(a), LeftMin(op), tail);
    NamePrint(b, RightMin(op));
    NamePrint(a, RightMin(Instanceof));
    var whole := Print(Binary(op, test, Name(b)), 0);
    assert whole + [] == whole;
  }

  lemma ReadsTest(l: Expr, tail: seq<Tok>, depth: nat)
    requires WellFormed(l) && !TypeClash(l, LeftMin(Instanceof), KwInstanceof)
    requires tail != [] && tail[0] == KwInstanceof
    ensures Parse(Print(l, LeftMin(Instanceof)) + tail, depth)
         == if depth + 1 <= MAX_RECURSION_DEPTH && Shallow(l, LeftMin(Instanceof), depth + 1)
            then match Loop(Relowered(l), tail, 0, depth + 1)
                 case Ok(e, rest) => if rest == [] then Some(e) else None
                 case Err => None
            else None
  {
    hide Print, Loop, Shallow, TypeClash, Relowered, ExprBpInner;
    GuardStep(Print(l, LeftMin(Instanceof)) + tail, 0, depth);
    if depth + 1 <= MAX_RECURSION_DEPTH {
      ReadsPrinted(l, LeftMin(Instanceof), 0, depth + 1, tail);
    }
  }

  lemma ReadsType(lhs: Expr, ty: seq<Tok>, d: nat)
    requires ty != [] && ty[0].Word?
    ensures Loop(lhs, [KwInstanceof] + ty, 0, d)
         == match ParseType(ty, false, d)
            case TypeErr => Err
            case TypeOk(rest, _) => Loop(Binary(Instanceof, lhs, Name(ty[0].id)), rest, 0, d)
  {
    hide ParseType, ExprBp;
    var ts := [KwInstanceof] + ty;
    assert ts[0] == KwInstanceof && ts[1..] == ty;
  }

  lemma StopsAtEof(e: Expr, d: nat)
    ensures Loop(e, [], 0, d) == Ok(e, [])
  {}

  // ---- Trees that are nested too deep ----

  /** `n` minus signs in front of a name. */
  function MinusChain(n: nat, id: string): Expr {
    if n == 0 then Name(id) else Unary(Neg, MinusChain(n - 1, id))
  }

  lemma {:induction false} ChainShape(n: nat, id: string)
    ensures WellFormed(MinusChain(n, id)) && !HasIs(MinusChain(n, id))
    ensures ExprPrec(MinusChain(n, id)) >= PREC_PREFIX && KindNesting(MinusChain(n, id)) == n
    ensures !KindClash(MinusChain(n, id), Eof)
  {
    if n == 0 {
    } else {
      ChainShape(n - 1, id);
    }
  }

  /** The depth limit is reached by real trees: 255 prefix operators reparse, 256 do not. */
  lemma DeepChains(n: nat, id: string)
    ensures Parse(Print(MinusChain(n, id), 0), 0) == Some(MinusChain(n, id)) <==> n <= 255
  {
    ChainShape(n, id);
    RoundTrip(MinusChain(n, id), 0);
    BareFits(MinusChain(n, id), 0, 1, Eof);
  }
}
