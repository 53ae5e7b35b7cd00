/** The least number of parentheses is attained: a text with exactly `Least(e, 0, 0)` of them is
    parsed as `e`. With `SourcesNeedLeast` this says exactly which printed forms are minimal. */
module Sparing {
  import opened Options
  import opened Operators
  import opened Tokens
  import opened Printer
  import opened TypeGrammar
  import opened Pratt
  import opened ParseInverse
  import opened MinimalParens

  // ---- The sparing text ----

  function Spare(e: Expr, left: nat, right: nat): seq<Tok>
    decreases e, 1
  {
    if Wraps(e, left, right) then [LParen] + (SpareKind(e, 0) + [RParen]) else SpareKind(e, left)
  }

  function SpareKind(e: Expr, left: nat): seq<Tok>
    decreases e, 0
  {
    match e
    case Name(id) => [Word(id)]
    case Binary(op, l, r) =>
      Spare(l, left, LeftMin(op))
      + (Kinds(BinarySym(op)) + if op == Instanceof then Print(r, RightMin(op)) else Spare(r, RightMin(op), 0))
    case Unary(op, x) => [UnaryKind(op)] + Spare(x, PREC_PREFIX, 0)
    case Postfix(op, x) => Spare(x, left, PREC_POSTFIX) + [PostfixKind(op)]
    case Ternary(c, t, f) =>
      Spare(c, left, PREC_TERNARY + 1) + ([Question] + (Spare(t, 0, 0) + ([Colon] + Spare(f, PREC_TERNARY, 0))))
  }

  lemma {:induction false} SpareOpens(e: Expr, left: nat, right: nat)
    requires WellFormed(e)
    ensures Opens(Spare(e, left, right)) == Least(e, left, right)
    decreases e, 1
  {
    hide SpareKind, KindLeast, Opens;
    if Wraps(e, left, right) {
      SpareKindOpens(e, 0);
      OpensConcat([LParen], SpareKind(e, 0) + [RParen]);
      OpensConcat(SpareKind(e, 0), [RParen]);
      SingleOpens(LParen);
      SingleOpens(RParen);
    } else {
      SpareKindOpens(e, left);
    }
  }

  lemma {:induction false} SpareKindOpens(e: Expr, left: nat)
    requires WellFormed(e)
    ensures Opens(SpareKind(e, left)) == KindLeast(e, left)
    decreases e, 0
  {
    hide Spare, Least, Opens, Kinds, Print;
    match e
    case Name(id) => SingleOpens(Word(id));
    case Binary(op, l, r) => SpareBinaryOpens(op, l, r, left);
    case Unary(op, x) =>
      UnaryOpensNothing(op);
      OpensConcat([UnaryKind(op)], Spare(x, PREC_PREFIX, 0));
      SpareOpens(x, PREC_PREFIX, 0);
    case Postfix(op, x) =>
      PostfixOpensNothing(op);
      OpensConcat(Spare(x, left, PREC_POSTFIX), [PostfixKind(op)]);
      SpareOpens(x, left, PREC_POSTFIX);
    case Ternary(c, t, f) =>
      SingleOpens(Question);
      SingleOpens(Colon);
      var last := [Colon] + Spare(f, PREC_TERNARY, 0);
      OpensConcat(Spare(c, left, PREC_TERNARY + 1), [Question] + (Spare(t, 0, 0) + last));
      OpensConcat([Question], Spare(t, 0, 0) + last);
      OpensConcat(Spare(t, 0, 0), last);
      OpensConcat([Colon], Spare(f, PREC_TERNARY, 0));
      SpareOpens(c, left, PREC_TERNARY + 1);
      SpareOpens(t, 0, 0);
      SpareOpens(f, PREC_TERNARY, 0);
  }

  lemma {:induction false} SpareBinaryOpens(op: BinaryOp, l: Expr, r: Expr, left: nat)
    requires WellFormed(Binary(op, l, r))
    ensures Opens(SpareKind(Binary(op, l, r), left)) == KindLeast(Binary(op, l, r), left)
    decreases Binary(op, l, r), 0, 0
  {
    hide Spare, Least, Opens, Kinds, Print, Prec, AssocOf;
    var x := Spare(l, left, LeftMin(op));
    var y := if op == Instanceof then Print(r, RightMin(op)) else Spare(r, RightMin(op), 0);
    OperatorsOpenNothing(BinarySym(op));
    OpensConcat(x, Kinds(BinarySym(op)) + y);
    OpensConcat(Kinds(BinarySym(op)), y);
    SpareOpens(l, left, LeftMin(op));
    TightOperators(op);
    if op == Instanceof {
      NamePrint(r.id, RightMin(op));
      SingleOpens(Word(r.id));
    } else {
      SpareOpens(r, RightMin(op), 0);
    }
  }

  // ---- The sparing text is read back ----

  /** Both thresholds, the power and the continuation fit together, the printed form is shallow
      enough and no type swallows an operator. */
  ghost predicate Fitting(e: Expr, left: nat, right: nat, m: nat, d: nat, rest: seq<Tok>) {
    var min := Max(left, right);
    && WellFormed(e) && m <= LeastLeft(left) && left <= PREC_POSTFIX && right <= PREC_POSTFIX
    && LeftPower(rest) < LeastRight(min)
    && Shallow(e, min, d) && !TypeClash(e, min, Head(rest))
    && (right > Prec(Instanceof) ==> !ContinuesType(Head(rest)))
  }

  ghost predicate SpareReads(e: Expr, left: nat, right: nat, m: nat, d: nat, rest: seq<Tok>) {
    ExprBpInner(Spare(e, left, right) + rest, m, d) == Loop(Relowered(e), rest, m, d)
  }

  lemma {:induction false} ReadsSpare(e: Expr, left: nat, right: nat, m: nat, d: nat, rest: seq<Tok>)
    requires Fitting(e, left, right, m, d, rest)
    ensures SpareReads(e, left, right, m, d, rest)
    decreases e, if Wraps(e, left, right) then 1 else 0, 2
  {
    hide ExprBpInner, Loop, Spare, Relowered, LeftPower, Shallow, TypeClash;
    if Wraps(e, left, right) {
      ReadsWrapped(e, left, right, m, d, rest);
    } else {
      match e
      case Name(id) => ReadsName(id, left, right, m, d, rest);
      case Binary(op, l, r) => ReadsBareBinary(op, l, r, left, right, m, d, rest);
      case Unary(op, x) => ReadsBareUnary(op, x, left, right, m, d, rest);
      case Postfix(op, x) => ReadsBarePostfix(op, x, left, right, m, d, rest);
      case Ternary(c, t, f) => ReadsBareTernary(c, t, f, left, right, m, d, rest);
    }
  }

  /** The same for an operand read by its own activation. */
  lemma {:induction false} SpareOperand(e: Expr, left: nat, m: nat, d: nat, rest: seq<Tok>)
    requires Fitting(e, left, 0, m, d + 1, rest) && m <= POSTFIX_BP
    requires LeftPower(rest) < m || Head(rest) in {RParen, Colon, Eof}
    ensures ExprBp(Spare(e, left, 0) + rest, m, d) == Ok(Relowered(e), rest)
    decreases e, if Wraps(e, left, 0) then 1 else 0, 3
  {
    hide ExprBpInner, ExprBp, Loop, Spare, Relowered, LeftPower, TypeClash;
    GuardStep(Spare(e, left, 0) + rest, m, d);
    ReadsSpare(e, left, 0, m, d + 1, rest);
    LoopStops(Relowered(e), rest, m, d + 1);
  }

  lemma ReadsName(id: string, left: nat, right: nat, m: nat, d: nat, rest: seq<Tok>)
    requires left <= PREC_POSTFIX && right <= PREC_POSTFIX
    ensures SpareReads(Name(id), left, right, m, d, rest)
  {
    var ts := [Word(id)] + rest;
    assert Spare(Name(id), left, right) == [Word(id)];
    assert ts[0] == Word(id) && ts[1..] == rest;
    assert AtomOrPrefix(ts, d) == Ok(Name(id), rest) && Relowered(Name(id)) == Name(id);
    assert ts == Spare(Name(id), left, right) + rest;
    hide Loop, AtomOrPrefix, Spare;
  }

  lemma {:induction false} ReadsWrapped(e: Expr, left: nat, right: nat, m: nat, d: nat, rest: seq<Tok>)
    requires Fitting(e, left, right, m, d, rest) && Wraps(e, left, right)
    ensures SpareReads(e, left, right, m, d, rest)
    decreases e, 1, 1
  {
    hide ExprBpInner, ExprBp, Loop, SpareKind, Shallow, TypeClash, Relowered, LeftPower;
    var inner := [RParen] + rest;
    assert inner[1..] == rest;
    CloserBinds(rest);
    UnwrappedSpare(e, left, right, rest);
    ParenStep(Spare(e, 0, 0) + inner, m, d);
    ParenFits(e, Max(left, right), d, Head(rest));
    SpareOperand(e, 0, 0, d, inner);
  }

  lemma UnwrappedSpare(e: Expr, left: nat, right: nat, rest: seq<Tok>)
    requires Wraps(e, left, right)
    ensures Spare(e, left, right) + rest == [LParen] + (Spare(e, 0, 0) + ([RParen] + rest))
    ensures !Wraps(e, 0, 0)
  {
    hide SpareKind;
    assert Spare(e, 0, 0) == SpareKind(e, 0);
  }

  lemma {:induction false} ReadsBareUnary(op: UnaryOp, x: Expr, left: nat, right: nat, m: nat, d: nat, rest: seq<Tok>)
    requires Fitting(Unary(op, x), left, right, m, d, rest) && !Wraps(Unary(op, x), left, right)
    ensures SpareReads(Unary(op, x), left, right, m, d, rest)
    decreases Unary(op, x), 0, 1
  {
    hide ExprBpInner, ExprBp, Loop, Spare, Shallow, TypeClash, LeftPower;
    LadderIsMonotone(Max(left, right), PREC_PREFIX);
    UnaryFits(op, x, Max(left, right), d, Head(rest));
    UnarySpare(op, x, left, right, rest);
    UnaryStep(op, Spare(x, PREC_PREFIX, 0) + rest, m, d);
    SpareOperand(x, PREC_PREFIX, PREFIX_BP, d, rest);
  }

  lemma UnarySpare(op: UnaryOp, x: Expr, left: nat, right: nat, rest: seq<Tok>)
    requires !Wraps(Unary(op, x), left, right)
    ensures Spare(Unary(op, x), left, right) + rest == [UnaryKind(op)] + (Spare(x, PREC_PREFIX, 0) + rest)
  {
    assert Spare(Unary(op, x), left, right) == [UnaryKind(op)] + Spare(x, PREC_PREFIX, 0);
  }

  lemma {:induction false} ReadsBarePostfix(op: PostfixOp, x: Expr, left: nat, right: nat, m: nat, d: nat,
                                            rest: seq<Tok>)
    requires Fitting(Postfix(op, x), left, right, m, d, rest) && !Wraps(Postfix(op, x), left, right)
    ensures SpareReads(Postfix(op, x), left, right, m, d, rest)
    decreases Postfix(op, x), 0, 1
  {
    hide ExprBpInner, ExprBp, Loop, Spare, Shallow, TypeClash, LeftPower;
    LadderIsMonotone(left, PREC_POSTFIX);
    var tail := [PostfixKind(op)] + rest;
    PostfixBinds(op, rest);
    PostfixFits(op, x, Max(left, right), d, Head(rest));
    PostfixSpare(op, x, left, right, rest);
    PostfixStep(op, Relowered(x), rest, m, d);
    ReadsSpare(x, left, PREC_POSTFIX, m, d, tail);
  }

  lemma PostfixSpare(op: PostfixOp, x: Expr, left: nat, right: nat, rest: seq<Tok>)
    requires !Wraps(Postfix(op, x), left, right)
    ensures Spare(Postfix(op, x), left, right) + rest == Spare(x, left, PREC_POSTFIX) + ([PostfixKind(op)] + rest)
  {
    assert Spare(Postfix(op, x), left, right) == Spare(x, left, PREC_POSTFIX) + [PostfixKind(op)];
  }

  lemma {:induction false} ReadsBareTernary(c: Expr, t: Expr, f: Expr, left: nat, right: nat, m: nat, d: nat,
                                            rest: seq<Tok>)
    requires Fitting(Ternary(c, t, f), left, right, m, d, rest) && !Wraps(Ternary(c, t, f), left, right)
    ensures SpareReads(Ternary(c, t, f), left, right, m, d, rest)
    decreases Ternary(c, t, f), 0, 1
  {
    hide ExprBpInner, ExprBp, Loop, Spare, Shallow, TypeClash, LeftPower;
    LadderIsMonotone(left, PREC_TERNARY);
    LadderIsMonotone(Max(left, right), PREC_TERNARY);
    var last := Spare(f, PREC_TERNARY, 0) + rest;
    var middle := [Colon] + last;
    var body := Spare(t, 0, 0) + middle;
    var tail := [Question] + body;
    assert middle[1..] == last;
    ColonBindsNothing(last);
    SpareStarts(t, 0, 0, middle);
    MarkBinds(body);
    TernaryFits(c, t, f, Max(left, right), d, Head(rest));
    TernarySpare(c, t, f, left, right, rest);
    ReadsSpare(c, left, PREC_TERNARY + 1, m, d, tail);
    TernaryStep(Relowered(c), body, m, d);
    SpareOperand(t, 0, 0, d, middle);
    SpareOperand(f, PREC_TERNARY, TERNARY_BP_R, d, rest);
  }

  lemma TernarySpare(c: Expr, t: Expr, f: Expr, left: nat, right: nat, rest: seq<Tok>)
    requires !Wraps(Ternary(c, t, f), left, right)
    ensures Spare(Ternary(c, t, f), left, right) + rest
         == Spare(c, left, PREC_TERNARY + 1)
            + ([Question] + (Spare(t, 0, 0) + ([Colon] + (Spare(f, PREC_TERNARY, 0) + rest))))
  {
    var x, y, z := Spare(c, left, PREC_TERNARY + 1), Spare(t, 0, 0), Spare(f, PREC_TERNARY, 0);
    assert Spare(Ternary(c, t, f), left, right) == x + ([Question] + (y + ([Colon] + z)));
    hide *;
    Assoc3(x, [Question], y + ([Colon] + z), rest);
    Assoc3(y, [Colon], z, rest);
  }

  lemma {:induction false} SpareStarts(e: Expr, left: nat, right: nat, rest: seq<Tok>)
    ensures Spare(e, left, right) != [] && Head(Spare(e, left, right) + rest) != Question
    decreases e
  {
    if !Wraps(e, left, right) {
      match e
      case Name(_) =>
      case Binary(op, l, r) => SpareStarts(l, left, LeftMin(op), rest);
      case Unary(op, x) =>
      case Postfix(op, x) => SpareStarts(x, left, PREC_POSTFIX, rest);
      case Ternary(c, t, f) => SpareStarts(c, left, PREC_TERNARY + 1, rest);
    }
  }

  lemma {:induction false} ReadsBareBinary(op: BinaryOp, l: Expr, r: Expr, left: nat, right: nat, m: nat, d: nat,
                                           rest: seq<Tok>)
    requires Fitting(Binary(op, l, r), left, right, m, d, rest) && !Wraps(Binary(op, l, r), left, right)
    ensures SpareReads(Binary(op, l, r), left, right, m, d, rest)
    decreases Binary(op, l, r), 0, 1
  {
    hide ExprBpInner, ExprBp, Loop, Spare, Shallow, TypeClash, Relowered, Prec, AssocOf, BinaryKind, BinaryBp, BinaryOf,
         LeastLeft, LeastRight, Powers, LeftPower, Kinds;
    LadderIsMonotone(left, Prec(op));
    ThresholdsAscend(op);
    LadderIsMonotone(Prec(op), LeftMin(op));
    PowersFitThresholds(op);
    var last := (if op == Instanceof then Print(r, RightMin(op)) else Spare(r, RightMin(op), 0)) + rest;
    var tail := Kinds(BinarySym(op)) + last;
    BinarySpare(op, l, r, left, right, rest);
    BareBinaryFits(op, l, r, left, right, d, Head(rest));
    LeftPowerOfPrinted(op, last);
    TightOperators(op);
    if op != Instanceof { LadderIsMonotone(Max(left, right), Prec(op)); }
    ReadsSpare(l, left, LeftMin(op), m, d, tail);
    ReadsSpareTail(op, Relowered(l), l, r, right, m, d, rest);
  }

  lemma BinarySpare(op: BinaryOp, l: Expr, r: Expr, left: nat, right: nat, rest: seq<Tok>)
    requires !Wraps(Binary(op, l, r), left, right)
    ensures Spare(Binary(op, l, r), left, right) + rest
         == Spare(l, left, LeftMin(op))
            + (Kinds(BinarySym(op))
               + ((if op == Instanceof then Print(r, RightMin(op)) else Spare(r, RightMin(op), 0)) + rest))
  {
    var x, y := Spare(l, left, LeftMin(op)), Kinds(BinarySym(op));
    var z := if op == Instanceof then Print(r, RightMin(op)) else Spare(r, RightMin(op), 0);
    assert Spare(Binary(op, l, r), left, right) == x + (y + z);
    hide *;
    Assoc3(x, y, z, rest);
  }

  /** A bare node is shallow and free of clashes when its printed form is, even where the printer
      wraps it. */
  lemma BareBinaryFits(op: BinaryOp, l: Expr, r: Expr, left: nat, right: nat, d: nat, next: Tok)
    requires !Wraps(Binary(op, l, r), left, right)
    requires Shallow(Binary(op, l, r), Max(left, right), d) && !TypeClash(Binary(op, l, r), Max(left, right), next)
    requires right > Prec(Instanceof) ==> !ContinuesType(next)
    ensures Shallow(l, LeftMin(op), d) && !TypeClash(l, LeftMin(op), BinaryKind(op))
    ensures if op == Instanceof then d + 1 <= MAX_RECURSION_DEPTH && !ContinuesType(next)
            else Prec(op) >= Max(left, right) && Shallow(r, RightMin(op), d + 1) && !TypeClash(r, RightMin(op), next)
    ensures left <= Prec(op)
  {
    var e := Binary(op, l, r);
    if ExprPrec(e) < Max(left, right) {
      ParenFits(e, Max(left, right), d, next);
      BinaryFits(op, l, r, 0, d + 1, RParen);
      DeeperFits(l, LeftMin(op), d);
    } else {
      BinaryFits(op, l, r, Max(left, right), d, next);
    }
    hide Shallow, TypeClash;
  }

  lemma DeeperFits(e: Expr, min: nat, d: nat)
    requires Shallow(e, min, d + 1)
    ensures Shallow(e, min, d)
  {}

  /** Operators that bind tighter than `instanceof` continue no type. */
  lemma TightOperators(op: BinaryOp)
    ensures LeftMin(op) > Prec(Instanceof) ==> !ContinuesType(BinaryKind(op))
    ensures LeftMin(op) <= PREC_POSTFIX && RightMin(op) <= PREC_POSTFIX
  {
    Continuers(op);
    Levels(op);
    assert Prec(Lt) == Prec(Instanceof) == 9 && AssocOf(Lt) == Left && Prec(BitOr) == 5 && AssocOf(BitOr) == Left;
    hide Prec, AssocOf, BinaryKind;
  }

  lemma Continuers(op: BinaryOp)
    ensures ContinuesType(BinaryKind(op)) ==> op == Lt || op == BitOr
  {}

  lemma {:induction false} ReadsSpareTail(op: BinaryOp, lhs: Expr, l: Expr, r: Expr, right: nat, m: nat, d: nat,
                                          rest: seq<Tok>)
    requires WellFormed(r) && (op == Instanceof ==> r.Name?) && lhs == Relowered(l)
    requires m <= Powers(Prec(op)).0
    requires if op == Instanceof then d + 1 <= MAX_RECURSION_DEPTH && !ContinuesType(Head(rest))
             else LeftPower(rest) < LeastRight(Prec(op)) && Shallow(r, RightMin(op), d + 1)
                  && !TypeClash(r, RightMin(op), Head(rest))
    ensures Loop(lhs, Kinds(BinarySym(op))
                      + ((if op == Instanceof then Print(r, RightMin(op)) else Spare(r, RightMin(op), 0)) + rest), m, d)
         == Loop(Relowered(Binary(op, l, r)), rest, m, d)
    decreases r, 2
  {
    hide ExprBpInner, ExprBp, Loop, Spare, Print, Shallow, TypeClash, Relowered, Prec, AssocOf, BinaryKind, BinaryBp,
         BinaryOf, LeastLeft, LeastRight, Powers, LeftPower, Combine;
    PowersFitThresholds(op);
    ThresholdsAscend(op);
    TightOperators(op);
    LadderIsMonotone(Prec(op), RightMin(op));
    if op == Instanceof {
      InstanceofTail(lhs, l, r, m, d, rest);
    } else {
      var last := Spare(r, RightMin(op), 0) + rest;
      SpareOperand(r, RightMin(op), Powers(Prec(op)).1, d, rest);
      if op == NotIn {
        NotInTail(lhs, l, r, last, m, d);
      } else {
        RelowersByToken(op, l, r);
        InfixStep(op, lhs, last, m, d);
      }
    }
  }

  // ---- Exactly which printed forms are minimal ----

  /** The fewest parentheses are attained. */
  lemma LeastIsAttained(e: Expr, depth: nat)
    requires WellFormed(e) && !HasIs(e) && !TypeClash(e, 0, Eof) && Shallow(e, 0, depth + 1)
    ensures Parse(Spare(e, 0, 0), depth) == Some(e) && Opens(Spare(e, 0, 0)) == Least(e, 0, 0)
  {
    hide Spare, Least, LeftPower, Relowered, TypeClash, Opens;
    NothingBindsAtEof();
    assert Spare(e, 0, 0) + [] == Spare(e, 0, 0);
    SpareOpens(e, 0, 0);
    SpareOperand(e, 0, 0, depth, []);
    ReloweringKeepsExactlyIsFree(e);
  }

  /** The printer wraps an `instanceof` that could stand without parentheses: it is the left
      operand of a tighter operator, and the activation that reads it is one for `instanceof`. */
  predicate Excess(e: Expr, left: nat, right: nat)
    decreases e, 1
  {
    if Wraps(e, left, right) then KindExcess(e, 0)
    else ExprPrec(e) < right || KindExcess(e, left)
  }

  predicate KindExcess(e: Expr, left: nat)
    decreases e, 0
  {
    match e
    case Name(_) => false
    case Binary(op, l, r) => Excess(l, left, LeftMin(op)) || (op != Instanceof && Excess(r, RightMin(op), 0))
    case Unary(_, x) => Excess(x, PREC_PREFIX, 0)
    case Postfix(_, x) => Excess(x, left, PREC_POSTFIX)
    case Ternary(c, t, f) => Excess(c, left, PREC_TERNARY + 1) || Excess(t, 0, 0) || Excess(f, PREC_TERNARY, 0)
  }

  lemma {:induction false} ExcessIsTheDifference(e: Expr, left: nat, right: nat)
    requires WellFormed(e)
    ensures Least(e, left, right) <= Parens(e, Max(left, right))
    ensures Least(e, left, right) == Parens(e, Max(left, right)) <==> !Excess(e, left, right)
    decreases e, 1
  {
    hide KindLeast, KindParens, KindExcess;
    KindExcessIsTheDifference(e, if Wraps(e, left, right) then 0 else left);
  }

  lemma {:induction false} KindExcessIsTheDifference(e: Expr, left: nat)
    requires WellFormed(e) && left <= ExprPrec(e)
    ensures KindLeast(e, left) <= KindParens(e)
    ensures KindLeast(e, left) == KindParens(e) <==> !KindExcess(e, left)
    decreases e, 0
  {
    hide Least, Parens, Excess;
    match e
    case Name(_) =>
    case Binary(op, l, r) =>
      ThresholdsAscend(op);
      ExcessIsTheDifference(l, left, LeftMin(op));
      if op == Instanceof { NamePaysNothing(r.id, RightMin(op)); } else { ExcessIsTheDifference(r, RightMin(op), 0); }
    case Unary(_, x) => ExcessIsTheDifference(x, PREC_PREFIX, 0);
    case Postfix(_, x) => ExcessIsTheDifference(x, left, PREC_POSTFIX);
    case Ternary(c, t, f) =>
      ExcessIsTheDifference(c, left, PREC_TERNARY + 1);
      ExcessIsTheDifference(t, 0, 0);
      ExcessIsTheDifference(f, PREC_TERNARY, 0);
  }

  lemma NamePaysNothing(id: string, min: nat)
    requires min <= PREC_POSTFIX
    ensures Parens(Name(id), min) == 0
  {}

  /** The printed form has the fewest parentheses among all token strings that are parsed as `e`
      exactly when the printer wraps no `instanceof` in excess. */
  lemma PrintIsMinimalIff(e: Expr, depth: nat)
    requires WellFormed(e) && !HasIs(e) && !TypeClash(e, 0, Eof) && Shallow(e, 0, depth + 1)
    ensures (forall ts, d: nat :: Parse(ts, d) == Some(e) ==> Opens(Print(e, 0)) <= Opens(ts)) <==> !Excess(e, 0, 0)
  {
    hide Parse, Print, Opens, Least, Parens, Excess, Spare;
    ParensArePrinted(e, 0);
    ExcessIsTheDifference(e, 0, 0);
    LeastIsAttained(e, depth);
    forall ts, d: nat | Parse(ts, d) == Some(e) ensures Least(e, 0, 0) <= Opens(ts) {
      SourcesNeedLeast(ts, d, e);
    }
  }

  /** The excess is real: `x instanceof C * y` is read as `(x instanceof C) * y`, which is printed
      with the parentheses. */
  lemma InstanceofIsOverParenthesised(x: string, c: string, y: string)
    ensures var e := Binary(Mul, Binary(Instanceof, Name(x), Name(c)), Name(y));
            var ts := [Word(x)] + ([KwInstanceof] + ([Word(c)] + ([Star] + ([Word(y)] + []))));
            Excess(e, 0, 0) && Parse(ts, 0) == Some(e) && Opens(ts) == 0 && Opens(Print(e, 0)) == 1
  {
    hide Parse, Print, Opens, Excess;
    ReadsProduct(x, c, y);
    FiveTokens(Word(x), KwInstanceof, Word(c), Star, Word(y));
    ProductIsWrapped(x, c, y);
    ProductIsExcess(x, c, y);
  }

  lemma ProductIsExcess(x: string, c: string, y: string)
    ensures Excess(Binary(Mul, Binary(Instanceof, Name(x), Name(c)), Name(y)), 0, 0)
  {
    assert Excess(Binary(Instanceof, Name(x), Name(c)), 0, LeftMin(Mul));
  }

  lemma ProductIsWrapped(x: string, c: string, y: string)
    ensures Opens(Print(Binary(Mul, Binary(Instanceof, Name(x), Name(c)), Name(y)), 0)) == 1
  {
    var test := Binary(Instanceof, Name(x), Name(c));
    ParensArePrinted(Binary(Mul, test, Name(y)), 0);
    hide Print, Opens;
    NamePaysNothing(x, LeftMin(Instanceof));
    NamePaysNothing(c, RightMin(Instanceof));
    NamePaysNothing(y, RightMin(Mul));
    assert KindParens(test) == 0;
    assert Parens(test, LeftMin(Mul)) == 1 && Parens(Name(y), RightMin(Mul)) == 0;
    assert KindParens(Binary(Mul, test, Name(y))) == 1;
  }

  lemma FiveTokens(a: Tok, b: Tok, c: Tok, d: Tok, e: Tok)
    requires LParen !in [a, b, c, d, e]
    ensures Opens([a] + ([b] + ([c] + ([d] + ([e] + []))))) == 0
  {
    hide Opens;
    assert [e] + [] == [e];
    SingleOpens(a);
    SingleOpens(b);
    SingleOpens(c);
    SingleOpens(d);
    SingleOpens(e);
    OpensConcat([d], [e]);
    OpensConcat([c], [d] + [e]);
    OpensConcat([b], [c] + ([d] + [e]));
    OpensConcat([a], [b] + ([c] + ([d] + [e])));
  }

  lemma ReadsProduct(x: string, c: string, y: string)
    ensures Parse([Word(x)] + ([KwInstanceof] + ([Word(c)] + ([Star] + ([Word(y)] + [])))), 0)
         == Some(Binary(Mul, Binary(Instanceof, Name(x), Name(c)), Name(y)))
  {
    hide Loop, ExprBp;
    var test := Binary(Instanceof, Name(x), Name(c));
    var tail := [Star] + ([Word(y)] + []);
    assert Head(tail) == Star;
    NameReads(x, [KwInstanceof] + ([Word(c)] + tail), 0, 0);
    InstanceofStep(Name(x), c, 0, 1, tail);
    InfixStep(Mul, test, [Word(y)] + [], 0, 1);
    NameReads(y, [], 61, 1);
    EndsAtEof(Name(y), 61, 2);
    EndsAtEof(Binary(Mul, test, Name(y)), 0, 1);
  }

  lemma NameReads(id: string, rest: seq<Tok>, m: nat, d: nat)
    requires d + 1 <= MAX_RECURSION_DEPTH
    ensures ExprBp([Word(id)] + rest, m, d) == Loop(Name(id), rest, m, d + 1)
  {
    hide Loop;
    var ts := [Word(id)] + rest;
    assert ts[0] == Word(id) && ts[1..] == rest;
    assert AtomOrPrefix(ts, d + 1) == Ok(Name(id), rest);
  }

  lemma EndsAtEof(e: Expr, m: nat, d: nat)
    ensures Loop(e, [], m, d) == Ok(e, [])
  {}
}
