/** The printer restores no parenthesis too many: among all token strings the parser reads as a
    given tree, the printed one has the fewest parentheses. The one exception is `instanceof`,
    whose right side the parser reads as a type. */
module MinimalParens {
  import opened Options
  import opened Operators
  import opened Tokens
  import opened Printer
  import opened TypeGrammar
  import opened Pratt
  import PI = ParseInverse
  import opened Turns

  /** Parentheses the printer writes for `e` under threshold `min`. */
  function Parens(e: Expr, min: nat): nat
    decreases e, 1
  {
    KindParens(e) + if ExprPrec(e) < min then 1 else 0
  }

  function KindParens(e: Expr): nat
    decreases e, 0
  {
    match e
    case Name(_) => 0
    case Binary(op, l, r) => Parens(l, LeftMin(op)) + Parens(r, RightMin(op))
    case Unary(_, x) => Parens(x, PREC_PREFIX)
    case Postfix(_, x) => Parens(x, PREC_POSTFIX)
    case Ternary(c, t, f) => Parens(c, PREC_TERNARY + 1) + Parens(t, 0) + Parens(f, PREC_TERNARY)
  }

  lemma {:induction false} ParensArePrinted(e: Expr, min: nat)
    ensures Opens(Print(e, min)) == Parens(e, min)
    decreases e, 1
  {
    hide PrintKind, KindParens, Opens;
    KindParensArePrinted(e);
    if ExprPrec(e) < min {
      OpensConcat([LParen] + PrintKind(e), [RParen]);
      OpensConcat([LParen], PrintKind(e));
      SingleOpens(LParen);
      SingleOpens(RParen);
    }
  }

  lemma SingleOpens(t: Tok)
    ensures Opens([t]) == if t == LParen then 1 else 0
  {
    assert [t][1..] == [];
  }

  lemma OperatorsOpenNothing(s: Symbol)
    requires s.BinarySym? || s.UnarySym? || s.PostfixSym?
    ensures Opens(Kinds(s)) == 0
  {
    if s == BinarySym(NotIn) {
      assert [KwNot, KwIn][1..] == [KwIn];
      SingleOpens(KwIn);
    } else {
      SingleOpens(Kinds(s)[0]);
    }
  }

  lemma {:induction false} KindParensArePrinted(e: Expr)
    ensures Opens(PrintKind(e)) == KindParens(e)
    decreases e, 0
  {
    hide Print, Parens, Opens, Kinds;
    match e
    case Name(id) => SingleOpens(Word(id));
    case Binary(op, l, r) =>
      OperatorsOpenNothing(BinarySym(op));
      OpensConcat(Print(l, LeftMin(op)), Kinds(BinarySym(op)) + Print(r, RightMin(op)));
      OpensConcat(Kinds(BinarySym(op)), Print(r, RightMin(op)));
      ParensArePrinted(l, LeftMin(op));
      ParensArePrinted(r, RightMin(op));
    case Unary(op, x) =>
      UnaryOpensNothing(op);
      OpensConcat([UnaryKind(op)], Print(x, PREC_PREFIX));
      ParensArePrinted(x, PREC_PREFIX);
    case Postfix(op, x) =>
      PostfixOpensNothing(op);
      OpensConcat(Print(x, PREC_POSTFIX), [PostfixKind(op)]);
      ParensArePrinted(x, PREC_POSTFIX);
    case Ternary(c, t, f) =>
      SingleOpens(Question);
      SingleOpens(Colon);
      var last := [Colon] + Print(f, PREC_TERNARY);
      var middle := [Question] + (Print(t, 0) + last);
      OpensConcat(Print(c, PREC_TERNARY + 1), middle);
      OpensConcat([Question], Print(t, 0) + last);
      OpensConcat(Print(t, 0), last);
      OpensConcat([Colon], Print(f, PREC_TERNARY));
      ParensArePrinted(c, PREC_TERNARY + 1);
      ParensArePrinted(t, 0);
      ParensArePrinted(f, PREC_TERNARY);
  }

  lemma UnaryOpensNothing(op: UnaryOp)
    ensures Opens([UnaryKind(op)]) == 0
  {
    SingleOpens(UnaryKind(op));
  }

  lemma PostfixOpensNothing(op: PostfixOp)
    ensures Opens([PostfixKind(op)]) == 0
  {
    SingleOpens(PostfixKind(op));
  }

  // ---- The fewest parentheses ----

  /** Parentheses are needed around `e` when its left edge is read in an activation of threshold
      `left` and an operator of left threshold `right` follows. The right side of `instanceof` is
      a type, which no operator can be taken into, so only its left edge counts. */
  predicate Wraps(e: Expr, left: nat, right: nat) {
    ExprPrec(e) < left || (ExprPrec(e) < right && !(e.Binary? && e.op == Instanceof))
  }

  function Least(e: Expr, left: nat, right: nat): nat
    decreases e, 1
  {
    if Wraps(e, left, right) then 1 + KindLeast(e, 0) else KindLeast(e, left)
  }

  function KindLeast(e: Expr, left: nat): nat
    decreases e, 0
  {
    match e
    case Name(_) => 0
    case Binary(op, l, r) =>
      Least(l, left, LeftMin(op)) + if op == Instanceof then 0 else Least(r, RightMin(op), 0)
    case Unary(_, x) => Least(x, PREC_PREFIX, 0)
    case Postfix(_, x) => Least(x, left, PREC_POSTFIX)
    case Ternary(c, t, f) => Least(c, left, PREC_TERNARY + 1) + Least(t, 0, 0) + Least(f, PREC_TERNARY, 0)
  }

  lemma {:induction false} LeastGrows(e: Expr, left: nat, right: nat, left': nat, right': nat)
    requires left <= left' && right <= right'
    ensures Least(e, left, right) <= Least(e, left', right') <= KindLeast(e, 0) + 1
    decreases e, 1
  {
    hide KindLeast;
    KindLeastGrows(e, 0, left);
    KindLeastGrows(e, 0, left');
    KindLeastGrows(e, left, left');
  }

  lemma {:induction false} KindLeastGrows(e: Expr, left: nat, left': nat)
    requires left <= left'
    ensures KindLeast(e, left) <= KindLeast(e, left') <= KindLeast(e, 0) + 1
    decreases e, 0
  {
    hide Wraps;
    match e
    case Name(_) =>
    case Binary(op, l, r) => EdgeGrows(l, left, left', LeftMin(op));
    case Unary(_, x) =>
    case Postfix(_, x) => EdgeGrows(x, left, left', PREC_POSTFIX);
    case Ternary(c, t, f) => EdgeGrows(c, left, left', PREC_TERNARY + 1);
  }

  /** A stricter threshold on the left edge costs at most one pair. */
  lemma {:induction false} EdgeGrows(e: Expr, left: nat, left': nat, right: nat)
    requires left <= left'
    ensures Least(e, left, right) <= Least(e, left', right) <= Least(e, 0, right) + 1
    decreases e, 1
  {
    hide KindLeast;
    KindLeastGrows(e, 0, left);
    KindLeastGrows(e, 0, left');
    KindLeastGrows(e, left, left');
  }

  // ---- Thresholds read off the parser's powers ----

  /** Every operator the loop folds in at power `m` has at least this precedence. */
  function Thr(m: nat): nat {
    if m <= 5 then 1 else if m <= 7 then 2 else if m <= 10 then 3 else if m <= 20 then 4
    else if m <= 22 then 5 else if m <= 25 then 6 else if m <= 28 then 7 else if m <= 30 then 8
    else if m <= 40 then 9 else if m <= 45 then 10 else if m <= 50 then 11 else if m <= 60 then 12
    else if m <= 81 then 13 else 14
  }

  /** The threshold that an operator with left power `q` puts on its left operand. */
  function LeftThr(q: int): nat {
    if q < 5 then 0 else if q < 7 then 2 else if q < 20 then 3 else if q < 22 then 4
    else if q < 25 then 5 else if q < 28 then 6 else if q < 30 then 7 else if q < 40 then 8
    else if q < 45 then 9 else if q < 50 then 10 else if q < 60 then 11 else if q < 81 then 12
    else if q < 90 then 14 else 15
  }

  /** The infix token's row: thresholds of the operator it lowers to. */
  lemma InfixThresholds(t: Tok)
    requires BinaryBp(t).Some?
    ensures var (lbp, rbp) := BinaryBp(t).value; var op := BinaryOf(t);
            LeftMin(op) <= LeftThr(lbp) && RightMin(op) <= Thr(rbp)
            && (forall q :: q < rbp ==> LeftThr(q) <= Prec(op))
            && (forall m: nat :: m <= lbp ==> Thr(m) <= Prec(op)) && rbp <= PREFIX_BP
  {
    hide BinaryBp, BinaryOf, Prec, AssocOf;
    InfixLevel(t);
  }

  lemma InfixLevel(t: Tok)
    requires BinaryBp(t).Some?
    ensures BinaryBp(t).value == PI.Powers(Prec(BinaryOf(t)))
    ensures Prec(BinaryOf(t)) in {1, 3, 4, 5, 6, 7, 8, 9, 10, 11, 12, 13}
    ensures AssocOf(BinaryOf(t)) == Right <==> Prec(BinaryOf(t)) in {1, 13}
    ensures BinaryOf(t) != NotIn && BinaryOf(t) != Instanceof
  {
    PI.Levels(BinaryOf(t));
    LowersToInfix(t);
    LevelHasPowers(t);
    hide BinaryBp, BinaryOf, AssocOf, Prec, PI.Powers;
  }

  lemma LowersToInfix(t: Tok)
    requires BinaryBp(t).Some?
    ensures BinaryOf(t) != NotIn && BinaryOf(t) != Instanceof
  {
    hide BinaryBp;
  }

  lemma LevelHasPowers(t: Tok)
    requires BinaryBp(t).Some?
    ensures BinaryBp(t).value == PI.Powers(Prec(BinaryOf(t)))
  {
    if BinaryBp(t).value == (5, 4) {
      AssignLevel(t);
    } else if BinaryBp(t).value.0 <= 40 {
      LogicLevel(t);
    } else {
      ArithmeticLevel(t);
    }
    hide BinaryBp, BinaryOf, Prec;
  }

  lemma AssignLevel(t: Tok)
    requires BinaryBp(t) == Some((5, 4))
    ensures Prec(BinaryOf(t)) == PREC_ASSIGN
  {}

  lemma LogicLevel(t: Tok)
    requires BinaryBp(t).Some? && 5 < BinaryBp(t).value.0 <= 40
    ensures BinaryBp(t).value == PI.Powers(Prec(BinaryOf(t)))
  {}

  lemma ArithmeticLevel(t: Tok)
    requires BinaryBp(t).Some? && 40 < BinaryBp(t).value.0
    ensures BinaryBp(t).value == PI.Powers(Prec(BinaryOf(t)))
  {}

  // ---- Every successful reading pays for the parentheses that are needed ----

  /** The activation stopped in front of `rest`: nothing there binds at power `m`. */
  ghost predicate Stopped(rest: seq<Tok>, m: nat) {
    PI.LeftPower(rest) < m || PI.LeftPower(rest) == -1
  }

  /** An activation at power `m` consumed at least the parentheses that `e` needs there. */
  ghost predicate Paid(ts: seq<Tok>, rest: seq<Tok>, e: Expr, m: nat) {
    Opens(ts) - Opens(rest) >= Least(e, Thr(m), 0)
  }

  /** A left side paid for, in front of whatever comes next in an activation at power `m`. */
  ghost predicate PaidSoFar(start: seq<Tok>, ts: seq<Tok>, lhs: Expr, m: nat) {
    Opens(start) - Opens(ts) >= Least(lhs, Thr(m), LeftThr(PI.LeftPower(ts)))
  }

  lemma {:induction false} ExprPays(ts: seq<Tok>, m: nat, d: nat, e: Expr, rest: seq<Tok>)
    requires ExprBp(ts, m, d) == Ok(e, rest) && m <= PREFIX_BP
    ensures Paid(ts, rest, e, m) && Stopped(rest, m)
    decreases |ts|, 4
  {
    hide Opens, Least, Thr, PI.LeftPower, Loop, AtomOrPrefix;
    PI.GuardStep(ts, m, d);
    var first := AtomOrPrefix(ts, d + 1);
    AtomPays(ts, m, d + 1);
    LoopPays(ts, first.e, first.rest, m, d + 1, e, rest);
  }

  lemma {:induction false} AtomPays(ts: seq<Tok>, m: nat, d: nat)
    requires AtomOrPrefix(ts, d).Ok? && m <= PREFIX_BP
    ensures var first := AtomOrPrefix(ts, d); PaidSoFar(ts, first.rest, first.e, m)
    decreases |ts|, 1
  {
    hide ExprBp, PI.LeftPower, KindLeast;
    var first := AtomOrPrefix(ts, d);
    assert Opens(ts) == (if ts[0] == LParen then 1 else 0) + Opens(ts[1..]);
    if ts[0].Word? {
      NameIsFree(ts[0].id, Thr(m), LeftThr(PI.LeftPower(first.rest)));
    } else if ts[0] == LParen {
      var inner := ExprBp(ts[1..], 0, d);
      ExprPays(ts[1..], 0, d, inner.e, inner.rest);
      assert Opens(inner.rest) == Opens(first.rest);
      hide Opens, AtomOrPrefix;
      LeastGrows(inner.e, 0, 0, Thr(0), 0);
      LeastGrows(inner.e, 0, 0, Thr(m), LeftThr(PI.LeftPower(first.rest)));
    } else {
      var inner := ExprBp(ts[1..], PREFIX_BP, d);
      ExprPays(ts[1..], PREFIX_BP, d, inner.e, inner.rest);
      hide Opens, AtomOrPrefix, Least;
      UnaryNeeds(first.e.uop, inner.e, m, PI.LeftPower(inner.rest));
    }
  }

  lemma NameIsFree(id: string, left: nat, right: nat)
    requires left <= PREC_POSTFIX && right <= PREC_POSTFIX
    ensures Least(Name(id), left, right) == 0
  {}

  lemma UnaryNeeds(op: UnaryOp, x: Expr, m: nat, q: int)
    requires m <= PREFIX_BP && q < PREFIX_BP
    ensures Least(Unary(op, x), Thr(m), LeftThr(q)) == Least(x, PREC_PREFIX, 0)
    ensures Thr(PREFIX_BP) == PREC_PREFIX
  {}

  lemma {:induction false} LoopPays(start: seq<Tok>, lhs: Expr, ts: seq<Tok>, m: nat, d: nat, e: Expr, rest: seq<Tok>)
    requires Loop(lhs, ts, m, d) == Ok(e, rest) && m <= PREFIX_BP
    requires PaidSoFar(start, ts, lhs, m)
    ensures Paid(start, rest, e, m) && Stopped(rest, m)
    decreases |ts|, 3
  {
    hide Loop, ExprBp, BinaryOf, BinaryBp, Opens, Least, PI.LeftPower, PostfixOf;
    if ts != [] && PostfixOf(ts[0]).Some? {
      PostfixTurn(start, lhs, ts, m, d, e, rest);
    } else if ts != [] && ts[0] == KwInstanceof && m <= 40 {
      InstanceofTurn(start, lhs, ts, m, d, e, rest);
    } else if ts != [] && ts[0] == KwNot && Head(ts[1..]) == KwIn && m <= 40 {
      NotInTurn(start, lhs, ts, m, d, e, rest);
    } else if ts != [] && ts[0] == Question && Head(ts[1..]) != Question && m <= TERNARY_BP_L {
      TernaryTurn(start, lhs, ts, m, d, e, rest);
    } else if ts != [] && BinaryBp(ts[0]).Some? && m <= BinaryBp(ts[0]).value.0 {
      InfixTurn(start, lhs, ts, m, d, e, rest);
    } else {
      LeastGrows(lhs, Thr(m), 0, Thr(m), LeftThr(PI.LeftPower(ts)));
      LoopHasStopped(lhs, ts, m, d);
    }
  }

  /** A folded node is paid for when its parts are and it stands without parentheses. */
  lemma Folded(start: seq<Tok>, next: seq<Tok>, node: Expr, m: nat)
    requires Opens(start) - Opens(next) >= KindLeast(node, Thr(m))
    requires !Wraps(node, Thr(m), LeftThr(PI.LeftPower(next)))
    ensures PaidSoFar(start, next, node, m)
  {
    hide Opens, PI.LeftPower, KindLeast, Wraps;
  }

  lemma ThrBound(m: nat, q: int)
    ensures Thr(m) <= PREC_PREFIX && LeftThr(q) <= PREC_POSTFIX
    ensures m <= TERNARY_BP_L ==> Thr(m) <= 2
    ensures m <= 40 ==> Thr(m) <= 9
    ensures q < 41 ==> LeftThr(q) <= 9
    ensures q < TERNARY_BP_R ==> LeftThr(q) <= 2
  {}

  lemma {:induction false} PostfixTurn(start: seq<Tok>, lhs: Expr, ts: seq<Tok>, m: nat, d: nat, e: Expr,
                                       rest: seq<Tok>)
    requires Loop(lhs, ts, m, d) == Ok(e, rest) && m <= PREFIX_BP && PaidSoFar(start, ts, lhs, m)
    requires ts != [] && PostfixOf(ts[0]).Some?
    ensures Paid(start, rest, e, m) && Stopped(rest, m)
    decreases |ts|, 2
  {
    hide Loop, Opens, PI.LeftPower, Least;
    PostfixTurnReads(lhs, ts, m, d);
    var node := Postfix(PostfixOf(ts[0]).value, lhs);
    ThrBound(m, PI.LeftPower(ts[1..]));
    assert LeftThr(POSTFIX_BP) == PREC_POSTFIX;
    Folded(start, ts[1..], node, m);
    LoopPays(start, node, ts[1..], m, d, e, rest);
  }

  lemma {:induction false} InstanceofTurn(start: seq<Tok>, lhs: Expr, ts: seq<Tok>, m: nat, d: nat, e: Expr,
                                          rest: seq<Tok>)
    requires Loop(lhs, ts, m, d) == Ok(e, rest) && m <= PREFIX_BP && PaidSoFar(start, ts, lhs, m)
    requires ts != [] && ts[0] == KwInstanceof && m <= 40
    ensures Paid(start, rest, e, m) && Stopped(rest, m)
    decreases |ts|, 2
  {
    hide Loop, Opens, PI.LeftPower, Least, ParseType;
    InstanceofTurnReads(lhs, ts, m, d);
    var node := Binary(Instanceof, lhs, Name(ts[1].id));
    var next := ParseType(ts[1..], false, d).rest;
    ThrBound(m, PI.LeftPower(next));
    assert LeftThr(40) == LeftMin(Instanceof) == 9;
    Folded(start, next, node, m);
    LoopPays(start, node, next, m, d, e, rest);
  }

  lemma {:induction false} NotInTurn(start: seq<Tok>, lhs: Expr, ts: seq<Tok>, m: nat, d: nat, e: Expr, rest: seq<Tok>)
    requires Loop(lhs, ts, m, d) == Ok(e, rest) && m <= PREFIX_BP && PaidSoFar(start, ts, lhs, m)
    requires ts != [] && ts[0] == KwNot && Head(ts[1..]) == KwIn && m <= 40
    ensures Paid(start, rest, e, m) && Stopped(rest, m)
    decreases |ts|, 2
  {
    hide Loop, ExprBp, Opens, PI.LeftPower, Least, KindLeast, Thr, LeftThr, Wraps;
    NotInTurnReads(lhs, ts, m, d);
    var right := ExprBp(ts[2..], 41, d);
    var node := Binary(NotIn, lhs, right.e);
    ExprPays(ts[2..], 41, d, right.e, right.rest);
    NotInStands(lhs, right.e, m, PI.LeftPower(right.rest));
    NotInNeeds(lhs, right.e, m);
    Folded(start, right.rest, node, m);
    LoopPays(start, node, right.rest, m, d, e, rest);
  }

  lemma NotInStands(l: Expr, r: Expr, m: nat, q: int)
    requires m <= 40 && q < 41
    ensures !Wraps(Binary(NotIn, l, r), Thr(m), LeftThr(q))
  {}

  lemma NotInNeeds(l: Expr, r: Expr, m: nat)
    ensures KindLeast(Binary(NotIn, l, r), Thr(m)) <= Least(l, Thr(m), LeftThr(40)) + Least(r, Thr(41), 0)
  {
    LeastGrows(l, Thr(m), LeftMin(NotIn), Thr(m), LeftThr(40));
    LeastGrows(r, RightMin(NotIn), 0, Thr(41), 0);
    hide Least;
  }

  lemma {:induction false} TernaryTurn(start: seq<Tok>, lhs: Expr, ts: seq<Tok>, m: nat, d: nat, e: Expr,
                                       rest: seq<Tok>)
    requires Loop(lhs, ts, m, d) == Ok(e, rest) && m <= PREFIX_BP && PaidSoFar(start, ts, lhs, m)
    requires ts != [] && ts[0] == Question && Head(ts[1..]) != Question && m <= TERNARY_BP_L
    ensures Paid(start, rest, e, m) && Stopped(rest, m)
    decreases |ts|, 2
  {
    hide Loop, ExprBp, Opens, PI.LeftPower, Least, KindLeast, Thr, LeftThr, Wraps;
    TernaryTurnReads(lhs, ts, m, d);
    var first := ExprBp(ts[1..], 0, d);
    var second := ExprBp(first.rest[1..], TERNARY_BP_R, d);
    var node := Ternary(lhs, first.e, second.e);
    ExprPays(ts[1..], 0, d, first.e, first.rest);
    ExprPays(first.rest[1..], TERNARY_BP_R, d, second.e, second.rest);
    TernaryStands(lhs, first.e, second.e, m, PI.LeftPower(second.rest));
    TernaryNeeds(lhs, first.e, second.e, m);
    Folded(start, second.rest, node, m);
    LoopPays(start, node, second.rest, m, d, e, rest);
  }

  lemma TernaryStands(c: Expr, t: Expr, f: Expr, m: nat, q: int)
    requires m <= TERNARY_BP_L && q < TERNARY_BP_R
    ensures !Wraps(Ternary(c, t, f), Thr(m), LeftThr(q))
  {}

  lemma TernaryNeeds(c: Expr, t: Expr, f: Expr, m: nat)
    ensures KindLeast(Ternary(c, t, f), Thr(m))
         <= Least(c, Thr(m), LeftThr(TERNARY_BP_L)) + Least(t, Thr(0), 0) + Least(f, Thr(TERNARY_BP_R), 0)
  {
    LeastGrows(c, Thr(m), PREC_TERNARY + 1, Thr(m), LeftThr(TERNARY_BP_L));
    LeastGrows(t, 0, 0, Thr(0), 0);
    LeastGrows(f, PREC_TERNARY, 0, Thr(TERNARY_BP_R), 0);
    hide Least;
  }

  lemma {:induction false} InfixTurn(start: seq<Tok>, lhs: Expr, ts: seq<Tok>, m: nat, d: nat, e: Expr, rest: seq<Tok>)
    requires Loop(lhs, ts, m, d) == Ok(e, rest) && m <= PREFIX_BP && PaidSoFar(start, ts, lhs, m)
    requires ts != [] && BinaryBp(ts[0]).Some? && m <= BinaryBp(ts[0]).value.0
    ensures Paid(start, rest, e, m) && Stopped(rest, m)
    decreases |ts|, 2
  {
    hide Loop, ExprBp, Opens, PI.LeftPower, BinaryOf, BinaryBp, Prec, AssocOf, Least, KindLeast, Combine, Thr, LeftThr;
    var (lbp, rbp) := BinaryBp(ts[0]).value;
    InfixTurnReads(lhs, ts, m, d);
    InfixThresholds(ts[0]);
    var right := ExprBp(ts[1..], rbp, d);
    var node := Combine(ts[0], lhs, right.e);
    ExprPays(ts[1..], rbp, d, right.e, right.rest);
    CombineNeeds(ts[0], lhs, right.e, Thr(m), LeftThr(lbp), Thr(rbp));
    ThrBound(m, -1);
    assert LeftThr(-1) <= Prec(BinaryOf(ts[0]));
    Folded(start, right.rest, node, m);
    LoopPays(start, node, right.rest, m, d, e, rest);
  }

  /** The node a token lowers to needs no more than its two operands under their thresholds. */
  lemma CombineNeeds(t: Tok, l: Expr, r: Expr, left: nat, x: nat, y: nat)
    requires BinaryBp(t).Some? && LeftMin(BinaryOf(t)) <= x && RightMin(BinaryOf(t)) <= y
    ensures KindLeast(Combine(t, l, r), left) <= Least(l, left, x) + Least(r, y, 0)
    ensures ExprPrec(Combine(t, l, r)) == Prec(BinaryOf(t))
  {
    hide BinaryBp, Least, KindLeast;
    if t == KwIs && r.Unary? && r.uop == Not {
      IsNotNeeds(l, r, left, x, y);
    } else {
      InfixNeeds(BinaryOf(t), l, r, left, x, y);
      LowersToInfix(t);
    }
    hide BinaryOf;
  }

  lemma InfixNeeds(op: BinaryOp, l: Expr, r: Expr, left: nat, x: nat, y: nat)
    requires LeftMin(op) <= x && RightMin(op) <= y
    ensures KindLeast(Binary(op, l, r), left) <= Least(l, left, x) + Least(r, y, 0)
  {
    hide Least, Prec, AssocOf;
    LeastGrows(l, left, LeftMin(op), left, x);
    LeastGrows(r, RightMin(op), 0, y, 0);
  }

  lemma IsNotNeeds(l: Expr, r: Expr, left: nat, x: nat, y: nat)
    requires r.Unary? && LeftMin(Ne) <= x
    ensures KindLeast(Binary(Ne, l, r.operand), left) <= Least(l, left, x) + Least(r, y, 0)
  {
    hide Least;
    LeastGrows(l, left, LeftMin(Ne), left, x);
    LeastGrows(r.operand, RightMin(Ne), 0, PREC_PREFIX, 0);
    LeastGrows(r, 0, 0, y, 0);
    UnwrappedUnary(r);
  }

  lemma UnwrappedUnary(e: Expr)
    requires e.Unary?
    ensures Least(e, 0, 0) == Least(e.operand, PREC_PREFIX, 0)
  {}

  // ---- The main result ----

  /** Whatever tokens the parser reads as `e`, they hold at least `Least(e, 0, 0)` parentheses. */
  lemma SourcesNeedLeast(ts: seq<Tok>, d: nat, e: Expr)
    requires Parse(ts, d) == Some(e)
    ensures Least(e, 0, 0) <= Opens(ts)
  {
    var read := ExprBp(ts, 0, d);
    assert read == Ok(e, []);
    assert Opens([]) == 0;
    hide ExprBp, Opens, Least, PI.LeftPower;
    ExprPays(ts, 0, d, e, []);
    LeastGrows(e, 0, 0, Thr(0), 0);
  }
}
