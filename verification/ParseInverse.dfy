/** Parsing undoes printing. The printer's thresholds (`prec.rs`) and the parser's binding
    powers (`grammar/expr/mod.rs`) are two independent tables; the theorem says what the
    parser builds from every printed expression tree in which no type swallows an operator. */
module ParseInverse {
  import opened Options
  import opened Operators
  import opened Tokens
  import opened Printer
  import opened TypeGrammar
  import opened Pratt

  // ---- What decides the outcome ----

  /** The HIR shape of `instanceof`: its right operand is a class name. */
  predicate WellFormed(e: Expr) {
    match e
    case Name(_) => true
    case Binary(op, l, r) => WellFormed(l) && WellFormed(r) && (op == Instanceof ==> r.Name?)
    case Unary(_, x) => WellFormed(x)
    case Postfix(_, x) => WellFormed(x)
    case Ternary(c, t, f) => WellFormed(c) && WellFormed(t) && WellFormed(f)
  }

  /** Parser activations nested inside the one that starts reading the printed `e`. */
  function Nesting(e: Expr, min: nat): nat
    decreases e, 1
  {
    if ExprPrec(e) < min then 1 + KindNesting(e) else KindNesting(e)
  }

  function KindNesting(e: Expr): nat
    decreases e, 0
  {
    match e
    case Name(_) => 0
    case Binary(op, l, r) => Max(Nesting(l, LeftMin(op)), 1 + if op == Instanceof then 0 else Nesting(r, RightMin(op)))
    case Unary(_, x) => 1 + Nesting(x, PREC_PREFIX)
    case Postfix(_, x) => Nesting(x, PREC_POSTFIX)
    case Ternary(c, t, f) =>
      Max(Nesting(c, PREC_TERNARY + 1), Max(1 + Nesting(t, 0), 1 + Nesting(f, PREC_TERNARY)))
  }

  /** Printed under `min` and followed by `next`, the class name of some `instanceof`
      inside `e` is directly followed by `<`, `|` or `=>`. */
  predicate TypeClash(e: Expr, min: nat, next: Tok)
    decreases e, 1
  {
    KindClash(e, if ExprPrec(e) < min then RParen else next)
  }

  predicate KindClash(e: Expr, next: Tok)
    decreases e, 0
  {
    match e
    case Name(_) => false
    case Binary(op, l, r) =>
      || TypeClash(l, LeftMin(op), BinaryKind(op))
      || (if op == Instanceof then ContinuesType(next) else TypeClash(r, RightMin(op), next))
    case Unary(_, x) => TypeClash(x, PREC_PREFIX, next)
    case Postfix(op, x) => TypeClash(x, PREC_POSTFIX, PostfixKind(op))
    case Ternary(c, t, f) =>
      TypeClash(c, PREC_TERNARY + 1, Question) || TypeClash(t, 0, Colon) || TypeClash(f, PREC_TERNARY, next)
  }

  /** Printed under `min` inside `depth` open productions, `e` stays within the parser's limit. */
  predicate Shallow(e: Expr, min: nat, depth: nat) { depth + Nesting(e, min) <= MAX_RECURSION_DEPTH }

  /** What lowering makes of the reparsed tree: `is` becomes `==`, `is !x` becomes `!= x`. */
  function Relowered(e: Expr): Expr {
    match e
    case Name(_) => e
    case Binary(op, l, r) =>
      if op == Is && r.Unary? && r.uop == Not then Binary(Ne, Relowered(l), Relowered(r.operand))
      else Binary(if op == Is then Eq else op, Relowered(l), Relowered(r))
    case Unary(op, x) => Unary(op, Relowered(x))
    case Postfix(op, x) => Postfix(op, Relowered(x))
    case Ternary(c, t, f) => Ternary(Relowered(c), Relowered(t), Relowered(f))
  }

  predicate HasIs(e: Expr) {
    match e
    case Name(_) => false
    case Binary(op, l, r) => op == Is || HasIs(l) || HasIs(r)
    case Unary(_, x) => HasIs(x)
    case Postfix(_, x) => HasIs(x)
    case Ternary(c, t, f) => HasIs(c) || HasIs(t) || HasIs(f)
  }

  lemma {:induction false} ReloweringKeepsExactlyIsFree(e: Expr)
    ensures !HasIs(Relowered(e))
    ensures Relowered(e) == e <==> !HasIs(e)
  {
    match e
    case Name(_) =>
    case Binary(op, l, r) =>
      ReloweringKeepsExactlyIsFree(l);
      ReloweringKeepsExactlyIsFree(r);
      if r.Unary? { ReloweringKeepsExactlyIsFree(r.operand); }
    case Unary(_, x) => ReloweringKeepsExactlyIsFree(x);
    case Postfix(_, x) => ReloweringKeepsExactlyIsFree(x);
    case Ternary(c, t, f) =>
      ReloweringKeepsExactlyIsFree(c);
      ReloweringKeepsExactlyIsFree(t);
      ReloweringKeepsExactlyIsFree(f);
  }

  // ---- How the two tables meet ----

  /** The least left binding power an operator of precedence `min` or tighter has. */
  function LeastLeft(min: nat): nat {
    match min
    case 0 | 1 => 5
    case 2 => 7
    case 3 => 10
    case 4 => 20
    case 5 => 22
    case 6 => 25
    case 7 => 28
    case 8 => 30
    case 9 => 40
    case 10 => 45
    case 11 => 50
    case 12 => 60
    case 13 => 81
    case _ => 90
  }

  /** The least power at which an expression of precedence `min` or tighter reads its right edge. */
  function LeastRight(min: nat): nat {
    match min
    case 0 | 1 => 4
    case 2 => 6
    case 3 => 11
    case 4 => 21
    case 5 => 23
    case 6 => 26
    case 7 => 29
    case 8 => 31
    case 9 => 41
    case 10 => 46
    case 11 => 51
    case 12 => 61
    case 13 => 80
    case 14 => 85
    case _ => 255
  }

  lemma LadderIsMonotone(x: nat, y: nat)
    requires x <= y
    ensures LeastLeft(x) <= LeastLeft(y) && LeastRight(x) <= LeastRight(y)
  {}

  /** The parser's binding powers, listed by the printer's precedence levels. */
  function Powers(prec: nat): (nat, nat) {
    match prec
    case 1 => (5, 4)
    case 3 => (10, 11)
    case 4 => (20, 21)
    case 5 => (22, 23)
    case 6 => (25, 26)
    case 7 => (28, 29)
    case 8 => (30, 31)
    case 9 => (40, 41)
    case 10 => (45, 46)
    case 11 => (50, 51)
    case 12 => (60, 61)
    case _ => (81, 80)
  }

  /** One row of the correspondence: all operators of a level share powers and associativity. */
  lemma TablesAgree(op: BinaryOp)
    ensures op != NotIn && op != Instanceof ==> BinaryBp(BinaryKind(op)) == Some(Powers(Prec(op)))
    ensures Prec(op) in {1, 3, 4, 5, 6, 7, 8, 9, 10, 11, 12, 13}
    ensures AssocOf(op) == Right <==> Prec(op) in {1, 13}
    ensures op == NotIn || op == Instanceof ==> Prec(op) == 9
  {
    if op != NotIn && op != Instanceof { KindHasPowers(op); }
    Levels(op);
    hide BinaryBp, BinaryKind, Powers, AssocOf;
  }

  lemma KindHasPowers(op: BinaryOp)
    requires op != NotIn && op != Instanceof
    ensures BinaryBp(BinaryKind(op)) == Some(Powers(Prec(op)))
  {
    if Prec(op) == 1 {
      AssignPowers(op);
    } else if Prec(op) <= 8 {
      LogicPowers(op);
    } else {
      ArithmeticPowers(op);
    }
    hide BinaryBp, BinaryKind, Powers;
  }

  lemma AssignPowers(op: BinaryOp)
    requires Prec(op) == 1
    ensures BinaryBp(BinaryKind(op)) == Some(Powers(1))
  {}

  lemma LogicPowers(op: BinaryOp)
    requires 1 < Prec(op) <= 8
    ensures BinaryBp(BinaryKind(op)) == Some(Powers(Prec(op)))
  {}

  lemma ArithmeticPowers(op: BinaryOp)
    requires 8 < Prec(op) && op != NotIn && op != Instanceof
    ensures BinaryBp(BinaryKind(op)) == Some(Powers(Prec(op)))
  {}

  lemma Levels(op: BinaryOp)
    ensures Prec(op) in {1, 3, 4, 5, 6, 7, 8, 9, 10, 11, 12, 13}
    ensures AssocOf(op) == Right <==> Prec(op) in {1, 13}
  {}

  /** Thresholds on the printer's side against powers on the parser's. */
  lemma PowersFitThresholds(op: BinaryOp)
    ensures LeastLeft(Prec(op)) <= Powers(Prec(op)).0 < LeastRight(LeftMin(op))
    ensures LeastRight(Prec(op)) <= Powers(Prec(op)).1 <= LeastLeft(RightMin(op))
    ensures Powers(Prec(op)).1 <= POSTFIX_BP
  {
    TablesAgree(op);
    hide Prec, AssocOf;
  }

  /** Left binding power of what follows an operand; -1 when nothing can bind. */
  function LeftPower(ts: seq<Tok>): int {
    var t := Head(ts);
    if t == LParen then 255
    else if PostfixOf(t).Some? then POSTFIX_BP
    else if t == KwInstanceof then 40
    else if t == KwNot then (if Head(ts[1..]) == KwIn then 40 else -1)
    else if t == Question then (if Head(ts[1..]) == Question then -1 else TERNARY_BP_L)
    else if BinaryBp(t).Some? then BinaryBp(t).value.0
    else -1
  }

  lemma LoopStops(lhs: Expr, ts: seq<Tok>, m: nat, d: nat)
    requires m <= POSTFIX_BP
    requires LeftPower(ts) < m || Head(ts) in {RParen, Colon, Eof}
    ensures Loop(lhs, ts, m, d) == Ok(lhs, ts)
  {
    ClosersBindNothing();
    hide ExprBp, InstanceofType, BinaryOf, Combine, BinaryBp, PostfixOf;
  }

  lemma ClosersBindNothing()
    ensures forall t :: t in {RParen, Colon, Eof, KwNot, Question} ==> BinaryBp(t).None? && PostfixOf(t).None?
  {}

  // ---- What follows an operand in printed text ----

  lemma CloserBinds(rest: seq<Tok>)
    ensures Head([RParen] + rest) == RParen && LeftPower([RParen] + rest) == -1
  {}

  lemma PostfixBinds(op: PostfixOp, rest: seq<Tok>)
    ensures var tail := [PostfixKind(op)] + rest;
            Head(tail) == PostfixKind(op) && LeftPower(tail) == POSTFIX_BP && !ContinuesType(Head(tail))
  {}

  lemma MarkBinds(body: seq<Tok>)
    requires Head(body) != Question
    ensures Head([Question] + body) == Question && LeftPower([Question] + body) == TERNARY_BP_L
  {
    assert ([Question] + body)[1..] == body;
  }

  lemma ColonBindsNothing(last: seq<Tok>)
    ensures Head([Colon] + last) == Colon && LeftPower([Colon] + last) == -1
  {}

  // ---- The generalised Pratt invariant ----

  /** Reading `e` printed under `min` and continued by `rest` brings the activation to its
      operator loop with the whole of `e` as its left side, or fails when `e` is nested too deep. */
  ghost predicate Reads(e: Expr, min: nat, m: nat, d: nat, rest: seq<Tok>) {
    ExprBpInner(Print(e, min) + rest, m, d)
    == if Shallow(e, min, d) then Loop(Relowered(e), rest, m, d) else Err
  }

  /** The same one activation further down, where the loop then stops in front of `rest`. */
  ghost predicate ReadsOperand(e: Expr, min: nat, m: nat, d: nat, rest: seq<Tok>) {
    ExprBp(Print(e, min) + rest, m, d)
    == if Shallow(e, min, d + 1) then Ok(Relowered(e), rest) else Err
  }

  /** Threshold, power and continuation fit together. */
  ghost predicate Admissible(min: nat, m: nat, d: nat, rest: seq<Tok>) {
    m <= LeastLeft(min) && d <= MAX_RECURSION_DEPTH && LeftPower(rest) < LeastRight(min)
  }

  // ---- Single steps of the parser, the nesting and the clashes, one per shape ----

  lemma NameStep(id: string, min: nat, m: nat, d: nat, rest: seq<Tok>)
    requires d <= MAX_RECURSION_DEPTH && min <= PREC_ATOM
    ensures Reads(Name(id), min, m, d, rest)
  {
    assert KindNesting(Name(id)) == 0 && !KindClash(Name(id), Head(rest));
    var ts := [Word(id)] + rest;
    assert Print(Name(id), min) == PrintKind(Name(id)) == [Word(id)];
    assert ts[1..] == rest;
    assert AtomOrPrefix(ts, d) == Ok(Name(id), rest);
    BareFits(Name(id), min, d, Head(rest));
    assert Reads(Name(id), min, m, d, rest) by { hide Loop, Shallow; }
  }

  lemma NamePrint(id: string, min: nat)
    requires min <= PREC_ATOM
    ensures Print(Name(id), min) == [Word(id)]
  {}

  lemma GuardStep(ts: seq<Tok>, m: nat, d: nat)
    ensures ExprBp(ts, m, d) == if d + 1 > MAX_RECURSION_DEPTH then Err else ExprBpInner(ts, m, d + 1)
  {}

  lemma ParenStep(body: seq<Tok>, m: nat, d: nat)
    ensures ExprBpInner([LParen] + body, m, d)
         == match ExprBp(body, 0, d)
            case Err => Err
            case Ok(e, rest) => if Head(rest) == RParen then Loop(e, rest[1..], m, d) else Err
  {
    hide Loop, ExprBp;
    var ts := [LParen] + body;
    assert ts[0] == LParen && ts[1..] == body;
  }

  lemma ParenPrint(e: Expr, min: nat, rest: seq<Tok>)
    requires ExprPrec(e) < min
    ensures Print(e, min) + rest == [LParen] + (Print(e, 0) + ([RParen] + rest))
  {
    hide PrintKind;
  }

  lemma ParenFits(e: Expr, min: nat, d: nat, next: Tok)
    requires ExprPrec(e) < min
    ensures Shallow(e, min, d) <==> Shallow(e, 0, d + 1)
    ensures TypeClash(e, min, next) <==> TypeClash(e, 0, RParen)
  {}

  lemma UnaryStep(op: UnaryOp, body: seq<Tok>, m: nat, d: nat)
    ensures ExprBpInner([UnaryKind(op)] + body, m, d)
         == match ExprBp(body, PREFIX_BP, d)
            case Err => Err
            case Ok(e, rest) => Loop(Unary(op, e), rest, m, d)
  {
    hide Loop, ExprBp;
    var ts := [UnaryKind(op)] + body;
    assert ts[0] == UnaryKind(op) && ts[1..] == body;
    UnaryTokenReads(op);
  }

  lemma UnaryTokenReads(op: UnaryOp)
    ensures UnaryKind(op) != LParen && !UnaryKind(op).Word? && UnaryOf(UnaryKind(op)) == Some(op)
  {}

  lemma UnaryPrint(op: UnaryOp, x: Expr, min: nat, rest: seq<Tok>)
    requires min <= PREC_PREFIX
    ensures Print(Unary(op, x), min) + rest == [UnaryKind(op)] + (Print(x, PREC_PREFIX) + rest)
  {
    assert Print(Unary(op, x), min) == [UnaryKind(op)] + Print(x, PREC_PREFIX);
  }

  lemma UnaryFits(op: UnaryOp, x: Expr, min: nat, d: nat, next: Tok)
    requires min <= PREC_PREFIX
    ensures Shallow(Unary(op, x), min, d) <==> Shallow(x, PREC_PREFIX, d + 1)
    ensures TypeClash(Unary(op, x), min, next) <==> TypeClash(x, PREC_PREFIX, next)
  {
    BareFits(Unary(op, x), min, d, next);
    hide Nesting, TypeClash;
  }

  /** Without parentheses everything is decided by the node itself. */
  lemma BareFits(e: Expr, min: nat, d: nat, next: Tok)
    requires min <= ExprPrec(e)
    ensures Shallow(e, min, d) <==> d + KindNesting(e) <= MAX_RECURSION_DEPTH
    ensures TypeClash(e, min, next) <==> KindClash(e, next)
  {}

  /** One turn of the operator loop at a printed infix operator. */
  lemma InfixStep(op: BinaryOp, lhs: Expr, last: seq<Tok>, m: nat, d: nat)
    requires op != Instanceof && op != NotIn && m <= Powers(Prec(op)).0
    requires BinaryBp(BinaryKind(op)).Some?
    ensures Loop(lhs, [BinaryKind(op)] + last, m, d)
         == match ExprBp(last, Powers(Prec(op)).1, d)
            case Err => Err
            case Ok(r, rest) => Loop(Combine(BinaryKind(op), lhs, r), rest, m, d)
  {
    hide Prec, ExprBp, BinaryOf, Combine, InstanceofType;
    TablesAgree(op);
    var ts := [BinaryKind(op)] + last;
    assert ts[0] == BinaryKind(op) && ts[1..] == last;
    InfixTokensStayInfix(op);
  }

  lemma InfixTokensStayInfix(op: BinaryOp)
    requires op != Instanceof && op != NotIn
    ensures BinaryKind(op) !in {LParen, KwInstanceof, KwNot, Question} && PostfixOf(BinaryKind(op)).None?
  {}

  lemma NotInStep(lhs: Expr, last: seq<Tok>, m: nat, d: nat)
    requires m <= 40
    ensures Loop(lhs, [KwNot, KwIn] + last, m, d)
         == match ExprBp(last, 41, d)
            case Err => Err
            case Ok(r, rest) => Loop(Binary(NotIn, lhs, r), rest, m, d)
  {
    hide ExprBp, InstanceofType, Combine, BinaryOf;
    var ts := [KwNot, KwIn] + last;
    assert ts[0] == KwNot && ts[1..] == [KwIn] + last && ts[2..] == last;
  }

  lemma InstanceofStep(lhs: Expr, id: string, m: nat, d: nat, rest: seq<Tok>)
    requires m <= 40 && !ContinuesType(Head(rest))
    ensures Loop(lhs, [KwInstanceof] + ([Word(id)] + rest), m, d)
         == if d + 1 <= MAX_RECURSION_DEPTH then Loop(Binary(Instanceof, lhs, Name(id)), rest, m, d) else Err
  {
    hide ParseType, ExprBp;
    var ty := [Word(id)] + rest;
    var ts := [KwInstanceof] + ty;
    assert ts[0] == KwInstanceof && ts[1..] == ty && ty[0] == Word(id);
    PlainType(id, rest, false, d);
  }

  lemma BinaryPrint(op: BinaryOp, l: Expr, r: Expr, min: nat, rest: seq<Tok>)
    requires min <= Prec(op)
    ensures Print(Binary(op, l, r), min) + rest
         == Print(l, LeftMin(op)) + (Kinds(BinarySym(op)) + (Print(r, RightMin(op)) + rest))
  {
    var x, y, z := Print(l, LeftMin(op)), Kinds(BinarySym(op)), Print(r, RightMin(op));
    assert Print(Binary(op, l, r), min) == PrintKind(Binary(op, l, r)) == x + (y + z);
    hide *;
    Assoc3(x, y, z, rest);
  }

  lemma Assoc3(x: seq<Tok>, y: seq<Tok>, z: seq<Tok>, w: seq<Tok>)
    ensures (x + (y + z)) + w == x + (y + (z + w))
  {}

  lemma BinaryFits(op: BinaryOp, l: Expr, r: Expr, min: nat, d: nat, next: Tok)
    requires min <= Prec(op)
    ensures Shallow(Binary(op, l, r), min, d)
       <==> && Shallow(l, LeftMin(op), d)
            && if op == Instanceof then d + 1 <= MAX_RECURSION_DEPTH else Shallow(r, RightMin(op), d + 1)
    ensures TypeClash(Binary(op, l, r), min, next)
       <==> || TypeClash(l, LeftMin(op), BinaryKind(op))
            || if op == Instanceof then ContinuesType(next) else TypeClash(r, RightMin(op), next)
  {
    hide Nesting, TypeClash, LeftMin, RightMin, BinaryKind, Prec;
    BareFits(Binary(op, l, r), min, d, next);
  }

  lemma PostfixStep(op: PostfixOp, lhs: Expr, rest: seq<Tok>, m: nat, d: nat)
    requires m <= POSTFIX_BP
    ensures Loop(lhs, [PostfixKind(op)] + rest, m, d) == Loop(Postfix(op, lhs), rest, m, d)
  {
    var ts := [PostfixKind(op)] + rest;
    assert ts[0] == PostfixKind(op) && ts[1..] == rest;
  }

  lemma PostfixPrint(op: PostfixOp, x: Expr, min: nat, rest: seq<Tok>)
    requires min <= PREC_POSTFIX
    ensures Print(Postfix(op, x), min) + rest == Print(x, PREC_POSTFIX) + ([PostfixKind(op)] + rest)
  {
    assert Print(Postfix(op, x), min) == Print(x, PREC_POSTFIX) + [PostfixKind(op)];
  }

  lemma PostfixFits(op: PostfixOp, x: Expr, min: nat, d: nat, next: Tok)
    requires min <= PREC_POSTFIX
    ensures Shallow(Postfix(op, x), min, d) <==> Shallow(x, PREC_POSTFIX, d)
    ensures TypeClash(Postfix(op, x), min, next) <==> TypeClash(x, PREC_POSTFIX, PostfixKind(op))
  {
    BareFits(Postfix(op, x), min, d, next);
    hide Nesting, TypeClash;
  }

  lemma TernaryStep(lhs: Expr, body: seq<Tok>, m: nat, d: nat)
    requires m <= TERNARY_BP_L && Head(body) != Question
    ensures Loop(lhs, [Question] + body, m, d)
         == match ExprBp(body, 0, d)
            case Err => Err
            case Ok(t, rest) =>
              if Head(rest) != Colon then Err
              else match ExprBp(rest[1..], TERNARY_BP_R, d)
                case Err => Err
                case Ok(f, rest') => Loop(Ternary(lhs, t, f), rest', m, d)
  {
    var ts := [Question] + body;
    assert ts[0] == Question && ts[1..] == body;
  }

  lemma TernaryPrint(c: Expr, t: Expr, f: Expr, min: nat, rest: seq<Tok>)
    requires min <= PREC_TERNARY
    ensures Print(Ternary(c, t, f), min) + rest
         == Print(c, PREC_TERNARY + 1) + ([Question] + (Print(t, 0) + ([Colon] + (Print(f, PREC_TERNARY) + rest))))
  {
    var x, y, z := Print(c, PREC_TERNARY + 1), Print(t, 0), Print(f, PREC_TERNARY);
    assert Print(Ternary(c, t, f), min) == PrintKind(Ternary(c, t, f)) == x + ([Question] + (y + ([Colon] + z)));
    hide *;
    Assoc3(x, [Question], y + ([Colon] + z), rest);
    Assoc3(y, [Colon], z, rest);
  }

  lemma TernaryFits(c: Expr, t: Expr, f: Expr, min: nat, d: nat, next: Tok)
    requires min <= PREC_TERNARY
    ensures Shallow(Ternary(c, t, f), min, d)
       <==> Shallow(c, PREC_TERNARY + 1, d) && Shallow(t, 0, d + 1) && Shallow(f, PREC_TERNARY, d + 1)
    ensures TypeClash(Ternary(c, t, f), min, next)
       <==> TypeClash(c, PREC_TERNARY + 1, Question) || TypeClash(t, 0, Colon) || TypeClash(f, PREC_TERNARY, next)
  {
    BareFits(Ternary(c, t, f), min, d, next);
    hide Nesting, TypeClash;
  }

  lemma {:induction false} ReadsPrinted(e: Expr, min: nat, m: nat, d: nat, rest: seq<Tok>)
    requires WellFormed(e) && Admissible(min, m, d, rest) && !TypeClash(e, min, Head(rest))
    ensures Reads(e, min, m, d, rest)
    decreases e, if ExprPrec(e) < min then 1 else 0, 2
  {
    hide ExprBpInner, Loop, Print, Shallow, Relowered, TypeClash;
    if ExprPrec(e) < min {
      ReadsParenthesised(e, min, m, d, rest);
    } else {
      match e
      case Name(id) => NameStep(id, min, m, d, rest);
      case Binary(op, l, r) => ReadsBinary(op, l, r, min, m, d, rest);
      case Unary(op, x) => ReadsUnary(op, x, min, m, d, rest);
      case Postfix(op, x) => ReadsPostfix(op, x, min, m, d, rest);
      case Ternary(c, t, f) => ReadsTernary(c, t, f, min, m, d, rest);
    }
  }

  /** An operand at its own activation: the depth guard, then the invariant, then the stop. */
  lemma {:induction false} Operand(e: Expr, min: nat, m: nat, d: nat, rest: seq<Tok>)
    requires WellFormed(e) && m <= LeastLeft(min) && d <= MAX_RECURSION_DEPTH
    requires LeftPower(rest) < LeastRight(min) && !TypeClash(e, min, Head(rest))
    requires LeftPower(rest) < m || Head(rest) in {RParen, Colon, Eof}
    ensures ReadsOperand(e, min, m, d, rest)
    decreases e, if ExprPrec(e) < min then 1 else 0, 3
  {
    hide ExprBpInner, ExprBp, Loop, Print, Nesting, TypeClash, Relowered, LeftPower, LeastRight;
    GuardStep(Print(e, min) + rest, m, d);
    if d + 1 <= MAX_RECURSION_DEPTH {
      ReadsPrinted(e, min, m, d + 1, rest);
      LoopStops(Relowered(e), rest, m, d + 1);
    }
  }

  lemma {:induction false} ReadsParenthesised(e: Expr, min: nat, m: nat, d: nat, rest: seq<Tok>)
    requires WellFormed(e) && Admissible(min, m, d, rest) && ExprPrec(e) < min && !TypeClash(e, min, Head(rest))
    ensures Reads(e, min, m, d, rest)
    decreases e, 1, 1
  {
    hide ExprBpInner, ExprBp, Loop, Print, Nesting, TypeClash, Relowered;
    var inner := [RParen] + rest;
    ParenPrint(e, min, rest);
    ParenStep(Print(e, 0) + inner, m, d);
    ParenFits(e, min, d, Head(rest));
    Operand(e, 0, 0, d, inner);
  }

  lemma {:induction false} ReadsUnary(op: UnaryOp, x: Expr, min: nat, m: nat, d: nat, rest: seq<Tok>)
    requires WellFormed(x) && Admissible(min, m, d, rest) && min <= PREC_PREFIX
    requires !TypeClash(Unary(op, x), min, Head(rest))
    ensures Reads(Unary(op, x), min, m, d, rest)
    decreases Unary(op, x), 0, 1
  {
    hide ExprBpInner, ExprBp, Loop, Print, Shallow, TypeClash, LeftPower;
    LadderIsMonotone(min, PREC_PREFIX);
    UnaryPrint(op, x, min, rest);
    UnaryStep(op, Print(x, PREC_PREFIX) + rest, m, d);
    UnaryFits(op, x, min, d, Head(rest));
    Operand(x, PREC_PREFIX, PREFIX_BP, d, rest);
  }

  lemma {:induction false} ReadsPostfix(op: PostfixOp, x: Expr, min: nat, m: nat, d: nat, rest: seq<Tok>)
    requires WellFormed(x) && Admissible(min, m, d, rest) && min <= PREC_POSTFIX
    requires !TypeClash(Postfix(op, x), min, Head(rest))
    ensures Reads(Postfix(op, x), min, m, d, rest)
    decreases Postfix(op, x), 0, 1
  {
    hide ExprBpInner, ExprBp, Loop, Print, Shallow, TypeClash, LeftPower;
    LadderIsMonotone(min, PREC_POSTFIX);
    var tail := [PostfixKind(op)] + rest;
    PostfixBinds(op, rest);
    PostfixPrint(op, x, min, rest);
    PostfixFits(op, x, min, d, Head(rest));
    PostfixStep(op, Relowered(x), rest, m, d);
    ReadsPrinted(x, PREC_POSTFIX, m, d, tail);
  }

  lemma TernaryRungs(min: nat)
    requires min <= PREC_TERNARY
    ensures LeastLeft(min) <= TERNARY_BP_L && LeastLeft(min) <= LeastLeft(PREC_TERNARY + 1)
    ensures LeastRight(min) <= LeastRight(PREC_TERNARY) && TERNARY_BP_L < LeastRight(PREC_TERNARY + 1)
  {
    LadderIsMonotone(min, PREC_TERNARY);
  }

  lemma {:induction false} ReadsTernary(c: Expr, t: Expr, f: Expr, min: nat, m: nat, d: nat, rest: seq<Tok>)
    requires WellFormed(c) && WellFormed(t) && WellFormed(f)
    requires Admissible(min, m, d, rest) && min <= PREC_TERNARY && !TypeClash(Ternary(c, t, f), min, Head(rest))
    ensures Reads(Ternary(c, t, f), min, m, d, rest)
    decreases Ternary(c, t, f), 0, 1
  {
    hide ExprBpInner, ExprBp, Loop, Print, Shallow, TypeClash, BinaryBp, LeftPower, LeastLeft, LeastRight;
    TernaryRungs(min);
    var last := Print(f, PREC_TERNARY) + rest;
    var middle := [Colon] + last;
    var body := Print(t, 0) + middle;
    var tail := [Question] + body;
    PrintStarts(t, 0, middle);
    MarkBinds(body);
    TernaryPrint(c, t, f, min, rest);
    TernaryFits(c, t, f, min, d, Head(rest));
    ReadsPrinted(c, PREC_TERNARY + 1, m, d, tail);
    BranchesRead(c, t, f, m, d, rest);
  }

  /** From the `?` on: both branches are read and folded in. */
  lemma {:induction false} BranchesRead(c: Expr, t: Expr, f: Expr, m: nat, d: nat, rest: seq<Tok>)
    requires WellFormed(t) && WellFormed(f)
    requires m <= TERNARY_BP_L && d <= MAX_RECURSION_DEPTH && LeftPower(rest) < LeastRight(PREC_TERNARY)
    requires !TypeClash(t, 0, Colon) && !TypeClash(f, PREC_TERNARY, Head(rest))
    ensures Loop(Relowered(c), [Question] + (Print(t, 0) + ([Colon] + (Print(f, PREC_TERNARY) + rest))), m, d)
         == if Shallow(t, 0, d + 1) && Shallow(f, PREC_TERNARY, d + 1)
            then Loop(Relowered(Ternary(c, t, f)), rest, m, d) else Err
    decreases Ternary(c, t, f), 0, 0
  {
    hide ExprBpInner, ExprBp, Loop, Print, Shallow, TypeClash, LeftPower;
    var last := Print(f, PREC_TERNARY) + rest;
    var middle := [Colon] + last;
    ColonBindsNothing(last);
    PrintStarts(t, 0, middle);
    TernaryStep(Relowered(c), Print(t, 0) + middle, m, d);
    Operand(t, 0, 0, d, middle);
    assert middle[1..] == last;
    Operand(f, PREC_TERNARY, TERNARY_BP_R, d, rest);
  }

  lemma {:induction false} ReadsBinary(op: BinaryOp, l: Expr, r: Expr, min: nat, m: nat, d: nat, rest: seq<Tok>)
    requires WellFormed(Binary(op, l, r)) && Admissible(min, m, d, rest) && min <= Prec(op)
    requires !TypeClash(Binary(op, l, r), min, Head(rest))
    ensures Reads(Binary(op, l, r), min, m, d, rest)
    decreases Binary(op, l, r), 0, 1
  {
    hide ExprBpInner, ExprBp, Loop, Print, Shallow, TypeClash, Relowered, Prec, AssocOf, BinaryKind, BinaryBp,
         BinaryOf, LeastLeft, LeastRight, Powers;
    LadderIsMonotone(min, Prec(op));
    ThresholdsAscend(op);
    LadderIsMonotone(Prec(op), LeftMin(op));
    LadderIsMonotone(Prec(op), RightMin(op));
    PowersFitThresholds(op);
    var last := Print(r, RightMin(op)) + rest;
    var tail := Kinds(BinarySym(op)) + last;
    BinaryPrint(op, l, r, min, rest);
    BinaryFits(op, l, r, min, d, Head(rest));
    LeftPowerOfPrinted(op, last);
    ReadsPrinted(l, LeftMin(op), m, d, tail);
    if Shallow(l, LeftMin(op), d) {
      TailReads(op, Relowered(l), l, r, m, d, rest);
    }
  }

  lemma ThresholdsAscend(op: BinaryOp)
    ensures Prec(op) <= LeftMin(op) && Prec(op) <= RightMin(op)
  {}

  lemma LeftPowerOfPrinted(op: BinaryOp, last: seq<Tok>)
    ensures Head(Kinds(BinarySym(op)) + last) == BinaryKind(op)
    ensures LeftPower(Kinds(BinarySym(op)) + last) == Powers(Prec(op)).0
  {
    TablesAgree(op);
    hide Prec;
    var ts := Kinds(BinarySym(op)) + last;
    if op == NotIn {
      assert ts[0] == KwNot && ts[1..] == [KwIn] + last;
    } else {
      assert ts[0] == BinaryKind(op);
      if op != Instanceof { InfixTokensStayInfix(op); }
    }
  }

  /** From the operator on: the right operand is read and folded in. */
  lemma {:induction false} TailReads(op: BinaryOp, lhs: Expr, l: Expr, r: Expr, m: nat, d: nat, rest: seq<Tok>)
    requires WellFormed(r) && (op == Instanceof ==> r.Name?) && lhs == Relowered(l)
    requires m <= Powers(Prec(op)).0 && d <= MAX_RECURSION_DEPTH && LeftPower(rest) < LeastRight(Prec(op))
    requires if op == Instanceof then !ContinuesType(Head(rest)) else !TypeClash(r, RightMin(op), Head(rest))
    ensures Loop(lhs, Kinds(BinarySym(op)) + (Print(r, RightMin(op)) + rest), m, d)
         == if (if op == Instanceof then d + 1 <= MAX_RECURSION_DEPTH else Shallow(r, RightMin(op), d + 1))
            then Loop(Relowered(Binary(op, l, r)), rest, m, d) else Err
    decreases r, 2
  {
    hide ExprBpInner, ExprBp, Loop, Print, Shallow, TypeClash, Relowered, Prec, AssocOf, BinaryKind, BinaryBp,
         BinaryOf, LeastLeft, LeastRight, Powers, LeftPower;
    PowersFitThresholds(op);
    ThresholdsAscend(op);
    LadderIsMonotone(Prec(op), RightMin(op));
    var last := Print(r, RightMin(op)) + rest;
    if op == Instanceof {
      InstanceofTail(lhs, l, r, m, d, rest);
    } else {
      Operand(r, RightMin(op), Powers(Prec(op)).1, d, rest);
      if op == NotIn {
        NotInTail(lhs, l, r, last, m, d);
      } else {
        RelowersByToken(op, l, r);
        InfixStep(op, lhs, last, m, d);
      }
    }
  }

  lemma InstanceofTail(lhs: Expr, l: Expr, r: Expr, m: nat, d: nat, rest: seq<Tok>)
    requires r.Name? && lhs == Relowered(l) && m <= Powers(Prec(Instanceof)).0 && !ContinuesType(Head(rest))
    ensures Loop(lhs, Kinds(BinarySym(Instanceof)) + (Print(r, RightMin(Instanceof)) + rest), m, d)
         == if d + 1 <= MAX_RECURSION_DEPTH then Loop(Relowered(Binary(Instanceof, l, r)), rest, m, d) else Err
  {
    hide Print, Loop;
    NamePrint(r.id, RightMin(Instanceof));
    assert Relowered(Binary(Instanceof, l, r)) == Binary(Instanceof, lhs, r);
    hide Relowered;
    InstanceofStep(lhs, r.id, m, d, rest);
  }

  lemma NotInTail(lhs: Expr, l: Expr, r: Expr, last: seq<Tok>, m: nat, d: nat)
    requires lhs == Relowered(l) && m <= Powers(Prec(NotIn)).0
    ensures Loop(lhs, Kinds(BinarySym(NotIn)) + last, m, d)
         == match ExprBp(last, Powers(Prec(NotIn)).1, d)
            case Err => Err
            case Ok(r', rest) => Loop(Binary(NotIn, lhs, r'), rest, m, d)
    ensures Relowered(Binary(NotIn, l, r)) == Binary(NotIn, lhs, Relowered(r))
  {
    hide Loop, ExprBp;
    NotInStep(lhs, last, m, d);
  }

  lemma RelowersByToken(op: BinaryOp, l: Expr, r: Expr)
    requires op != Instanceof && op != NotIn
    ensures BinaryBp(BinaryKind(op)).Some?
    ensures Combine(BinaryKind(op), Relowered(l), Relowered(r)) == Relowered(Binary(op, l, r))
  {
    OperatorOfKind(op);
    ShapeIsKept(r);
    hide BinaryBp, BinaryOf, BinaryKind;
  }

  lemma ShapeIsKept(r: Expr)
    ensures Relowered(r).Unary? <==> r.Unary?
    ensures r.Unary? ==> Relowered(r) == Unary(r.uop, Relowered(r.operand))
  {}

  lemma OperatorOfKind(op: BinaryOp)
    requires op != Instanceof && op != NotIn
    ensures BinaryBp(BinaryKind(op)).Some?
    ensures BinaryOf(BinaryKind(op)) == if op == Is then Eq else op
    ensures BinaryKind(op) == KwIs <==> op == Is
  {
    TablesAgree(op);
    if op in {BitAndAssign, BitOrAssign, BitXorAssign} {
      BitAssignLowersBack(op);
    } else if op in {ShiftLAssign, ShiftRAssign, UShiftRAssign} {
      ShiftAssignLowersBack(op);
    } else if Prec(op) == 1 {
      AssignLowersBack(op);
    } else if Prec(op) <= 7 {
      LogicLowersBack(op);
    } else if Prec(op) == 8 {
      EqualityLowersBack(op);
    } else if Prec(op) == 9 {
      RelationLowersBack(op);
    } else {
      ArithmeticLowersBack(op);
    }
    hide BinaryBp, BinaryOf, Prec;
  }

  lemma BitAssignLowersBack(op: BinaryOp)
    requires op in {BitAndAssign, BitOrAssign, BitXorAssign} && BinaryBp(BinaryKind(op)).Some?
    ensures BinaryOf(BinaryKind(op)) == op
  {
    hide BinaryBp;
  }

  lemma ShiftAssignLowersBack(op: BinaryOp)
    requires op in {ShiftLAssign, ShiftRAssign, UShiftRAssign} && BinaryBp(BinaryKind(op)).Some?
    ensures BinaryOf(BinaryKind(op)) == op
  {
    hide BinaryBp;
  }

  lemma AssignLowersBack(op: BinaryOp)
    requires op in {Assign, AddAssign, SubAssign, MulAssign, DivAssign, IntDivAssign, ModAssign, PowAssign,
                    NullCoalesceAssign}
    requires BinaryBp(BinaryKind(op)).Some?
    ensures BinaryOf(BinaryKind(op)) == op
  {
    hide BinaryBp;
  }

  lemma LogicLowersBack(op: BinaryOp)
    requires 1 < Prec(op) <= 7 && BinaryBp(BinaryKind(op)).Some?
    ensures BinaryOf(BinaryKind(op)) == op
  {
    hide BinaryBp;
  }

  lemma RelationLowersBack(op: BinaryOp)
    requires Prec(op) == 9 && op != Instanceof && op != NotIn && BinaryBp(BinaryKind(op)).Some?
    ensures BinaryOf(BinaryKind(op)) == op
  {
    hide BinaryBp;
  }

  lemma EqualityLowersBack(op: BinaryOp)
    requires Prec(op) == 8 && BinaryBp(BinaryKind(op)).Some?
    ensures BinaryOf(BinaryKind(op)) == if op == Is then Eq else op
  {
    hide BinaryBp;
  }

  lemma ArithmeticLowersBack(op: BinaryOp)
    requires 9 < Prec(op) && BinaryBp(BinaryKind(op)).Some?
    ensures BinaryOf(BinaryKind(op)) == op
  {
    hide BinaryBp;
  }

  /** No printed expression starts with `?`, so a printed `?` is never half of `??`. */
  lemma {:induction false} PrintStarts(e: Expr, min: nat, rest: seq<Tok>)
    ensures Print(e, min) != []
    ensures Head(Print(e, min) + rest) != Question
    decreases e, if ExprPrec(e) < min then 1 else 0
  {
    if ExprPrec(e) < min {
    } else {
      match e
      case Name(_) =>
      case Binary(op, l, r) => PrintStarts(l, LeftMin(op), rest);
      case Unary(op, x) =>
      case Postfix(op, x) => PrintStarts(x, PREC_POSTFIX, rest);
      case Ternary(c, t, f) => PrintStarts(c, PREC_TERNARY + 1, rest);
    }
  }

  // ---- Whole expressions ----

  lemma NothingBindsAtEof()
    ensures LeftPower([]) == -1
  {}

  /** What reparsing a printed expression gives when no type swallows an operator, for every
      enclosing depth. */
  lemma ReparseOfPrinted(e: Expr, depth: nat)
    requires WellFormed(e) && !TypeClash(e, 0, Eof)
    ensures Parse(Print(e, 0), depth) == if Shallow(e, 0, depth + 1) then Some(Relowered(e)) else None
  {
    NothingBindsAtEof();
    hide Print, Loop, LeftPower, Relowered, TypeClash;
    assert Print(e, 0) + [] == Print(e, 0);
    if depth <= MAX_RECURSION_DEPTH {
      Operand(e, 0, 0, depth, []);
    }
  }
}
