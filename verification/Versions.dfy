/** `instanceof` is a keyword from version 3 on. In older versions the lexer reads the word as an
    identifier, and without the keyword the parser builds no `instanceof` node. */
module Versions {
  import opened Options
  import opened Operators
  import opened Tokens
  import opened TypeGrammar
  import opened Pratt
  import opened ParseInverse
  import opened Turns
  import opened Lexer
  import Printer
  import MinimalParens

  predicate HasInstanceof(e: Expr) {
    match e
    case Name(_) => false
    case Binary(op, l, r) => op == Instanceof || HasInstanceof(l) || HasInstanceof(r)
    case Unary(_, x) => HasInstanceof(x)
    case Postfix(_, x) => HasInstanceof(x)
    case Ternary(c, t, f) => HasInstanceof(c) || HasInstanceof(t) || HasInstanceof(f)
  }

  // ---- The tokens that the version leaves of the printed ones ----

  function Demote(v: Version, t: Tok): Tok { if t == KwInstanceof && Number(v) < 3 then Word("instanceof") else t }

  function Demoted(v: Version, ts: seq<Tok>): seq<Tok> {
    if ts == [] then [] else [Demote(v, ts[0])] + Demoted(v, ts[1..])
  }

  lemma {:induction false} DemotedConcat(v: Version, a: seq<Tok>, b: seq<Tok>)
    ensures Demoted(v, a + b) == Demoted(v, a) + Demoted(v, b)
  {
    if a == [] {
      assert a + b == b;
    } else {
      assert (a + b)[0] == a[0] && (a + b)[1..] == a[1..] + b;
      DemotedConcat(v, a[1..], b);
    }
  }

  lemma {:induction false} DemotedUnchanged(v: Version, ts: seq<Tok>)
    requires Number(v) >= 3 || KwInstanceof !in ts
    ensures Demoted(v, ts) == ts
  {
    if ts == [] {
    } else {
      DemotedUnchanged(v, ts[1..]);
    }
  }

  lemma {:induction false} DemotedHasNone(v: Version, ts: seq<Tok>)
    requires Number(v) < 3
    ensures KwInstanceof !in Demoted(v, ts)
  {
    if ts == [] {
    } else {
      DemotedHasNone(v, ts[1..]);
    }
  }

  lemma SymbolUnderVersion(v: Version, s: Printer.Symbol)
    ensures Demoted(v, Printer.Kinds(s))
         == if s == Printer.BinarySym(Instanceof) then [Demote(v, KwInstanceof)] else Printer.Kinds(s)
  {
    if s == Printer.BinarySym(Instanceof) {
      assert [KwInstanceof][1..] == [];
    } else {
      KindsHaveNone(s);
      DemotedUnchanged(v, Printer.Kinds(s));
    }
  }

  lemma KindsHaveNone(s: Printer.Symbol)
    requires s != Printer.BinarySym(Instanceof)
    ensures KwInstanceof !in Printer.Kinds(s)
  {}

  // ---- The printed tokens ----

  lemma {:induction false} PrintHasNone(e: Expr, min: nat)
    requires !HasInstanceof(e)
    ensures KwInstanceof !in Printer.Print(e, min)
    decreases e, 1
  {
    hide Printer.PrintKind, HasInstanceof;
    PrintKindHasNone(e);
  }

  lemma {:induction false} PrintKindHasNone(e: Expr)
    requires !HasInstanceof(e)
    ensures KwInstanceof !in Printer.PrintKind(e)
    decreases e, 0
  {
    hide Printer.Print, Printer.Kinds;
    match e
    case Name(_) =>
    case Binary(op, l, r) =>
      KindsHaveNone(Printer.BinarySym(op));
      PrintHasNone(l, LeftMin(op));
      PrintHasNone(r, RightMin(op));
    case Unary(op, x) =>
      PrefixHasNone(op);
      PrintHasNone(x, PREC_PREFIX);
    case Postfix(_, x) => PrintHasNone(x, PREC_POSTFIX);
    case Ternary(c, t, f) =>
      PrintHasNone(c, PREC_TERNARY + 1);
      PrintHasNone(t, 0);
      PrintHasNone(f, PREC_TERNARY);
  }

  lemma PrefixHasNone(op: UnaryOp)
    ensures Printer.UnaryKind(op) != KwInstanceof
  {}

  // ---- The parser builds `instanceof` nodes from the keyword only ----

  /** Neither the result nor the input left over holds an `instanceof`. */
  ghost predicate HasNone(p: Parsed) { p.Ok? ==> !HasInstanceof(p.e) && KwInstanceof !in p.rest }

  lemma {:induction false} ExprHasNone(ts: seq<Tok>, m: nat, d: nat)
    requires KwInstanceof !in ts
    ensures HasNone(ExprBp(ts, m, d))
    decreases |ts|, 4
  {
    hide Loop, HasInstanceof, AtomOrPrefix;
    GuardStep(ts, m, d);
    if d + 1 > MAX_RECURSION_DEPTH {
    } else {
      AtomHasNone(ts, d + 1);
      var first := AtomOrPrefix(ts, d + 1);
      if first.Ok? { LoopHasNone(first.e, first.rest, m, d + 1); }
    }
  }

  lemma {:induction false} AtomHasNone(ts: seq<Tok>, d: nat)
    requires KwInstanceof !in ts
    ensures HasNone(AtomOrPrefix(ts, d))
    decreases |ts|, 1
  {
    hide ExprBp;
    if ts == [] || ts[0].Word? {
    } else if ts[0] == LParen {
      ExprHasNone(ts[1..], 0, d);
    } else {
      ExprHasNone(ts[1..], PREFIX_BP, d);
    }
  }

  lemma {:induction false} LoopHasNone(lhs: Expr, ts: seq<Tok>, m: nat, d: nat)
    requires KwInstanceof !in ts && !HasInstanceof(lhs)
    ensures HasNone(Loop(lhs, ts, m, d))
    decreases |ts|, 3
  {
    hide Loop, ExprBp, Combine, BinaryBp, PostfixOf, LeftPower, ParseType, HasInstanceof;
    if Loop(lhs, ts, m, d).Err? {
    } else if ts != [] && PostfixOf(ts[0]).Some? && m <= POSTFIX_BP {
      PostfixHasNone(lhs, ts, m, d);
    } else if ts != [] && ts[0] == KwNot && Head(ts[1..]) == KwIn && m <= 40 {
      NotInHasNone(lhs, ts, m, d);
    } else if ts != [] && ts[0] == Question && Head(ts[1..]) != Question && m <= TERNARY_BP_L {
      BranchesHaveNone(lhs, ts, m, d);
    } else if ts != [] && BinaryBp(ts[0]).Some? && m <= BinaryBp(ts[0]).value.0 {
      InfixHasNone(lhs, ts, m, d);
    } else {
      LoopHasStopped(lhs, ts, m, d);
    }
  }

  lemma {:induction false} PostfixHasNone(lhs: Expr, ts: seq<Tok>, m: nat, d: nat)
    requires ts != [] && PostfixOf(ts[0]).Some? && m <= POSTFIX_BP && KwInstanceof !in ts && !HasInstanceof(lhs)
    ensures HasNone(Loop(lhs, ts, m, d))
    decreases |ts|, 2
  {
    hide Loop, LeftPower;
    PostfixTurnReads(lhs, ts, m, d);
    LoopHasNone(Postfix(PostfixOf(ts[0]).value, lhs), ts[1..], m, d);
  }

  lemma {:induction false} NotInHasNone(lhs: Expr, ts: seq<Tok>, m: nat, d: nat)
    requires Loop(lhs, ts, m, d).Ok? && ts != [] && ts[0] == KwNot && Head(ts[1..]) == KwIn && m <= 40
    requires KwInstanceof !in ts && !HasInstanceof(lhs)
    ensures HasNone(Loop(lhs, ts, m, d))
    decreases |ts|, 2
  {
    hide Loop, ExprBp, LeftPower;
    NotInTurnReads(lhs, ts, m, d);
    var right := ExprBp(ts[2..], 41, d);
    ExprHasNone(ts[2..], 41, d);
    LoopHasNone(Binary(NotIn, lhs, right.e), right.rest, m, d);
  }

  lemma {:induction false} BranchesHaveNone(lhs: Expr, ts: seq<Tok>, m: nat, d: nat)
    requires Loop(lhs, ts, m, d).Ok?
    requires ts != [] && ts[0] == Question && Head(ts[1..]) != Question && m <= TERNARY_BP_L
    requires KwInstanceof !in ts && !HasInstanceof(lhs)
    ensures HasNone(Loop(lhs, ts, m, d))
    decreases |ts|, 2
  {
    hide Loop, ExprBp, LeftPower;
    TernaryTurnReads(lhs, ts, m, d);
    var first := ExprBp(ts[1..], 0, d);
    var second := ExprBp(first.rest[1..], TERNARY_BP_R, d);
    ExprHasNone(ts[1..], 0, d);
    ExprHasNone(first.rest[1..], TERNARY_BP_R, d);
    LoopHasNone(Ternary(lhs, first.e, second.e), second.rest, m, d);
  }

  lemma {:induction false} InfixHasNone(lhs: Expr, ts: seq<Tok>, m: nat, d: nat)
    requires Loop(lhs, ts, m, d).Ok?
    requires ts != [] && BinaryBp(ts[0]).Some? && m <= BinaryBp(ts[0]).value.0
    requires KwInstanceof !in ts && !HasInstanceof(lhs)
    ensures HasNone(Loop(lhs, ts, m, d))
    decreases |ts|, 2
  {
    hide Loop, ExprBp, LeftPower, BinaryBp, BinaryOf, Combine, HasInstanceof;
    InfixTurnReads(lhs, ts, m, d);
    var right := ExprBp(ts[1..], BinaryBp(ts[0]).value.1, d);
    ExprHasNone(ts[1..], BinaryBp(ts[0]).value.1, d);
    CombineHasNone(ts[0], lhs, right.e);
    LoopHasNone(Combine(ts[0], lhs, right.e), right.rest, m, d);
  }

  lemma CombineHasNone(t: Tok, l: Expr, r: Expr)
    requires BinaryBp(t).Some? && !HasInstanceof(l) && !HasInstanceof(r)
    ensures !HasInstanceof(Combine(t, l, r))
  {
    MinimalParens.LowersToInfix(t);
    hide BinaryBp, BinaryOf;
  }

  /** What is parsed from the tokens of an older version has no `instanceof`. */
  lemma OldVersionsReadNone(v: Version, ts: seq<Tok>, depth: nat)
    requires Number(v) < 3
    ensures var back := Parse(Demoted(v, ts), depth); back.Some? ==> !HasInstanceof(back.value)
  {
    hide ExprBp, Demoted, HasInstanceof;
    DemotedHasNone(v, ts);
    ExprHasNone(Demoted(v, ts), 0, depth);
  }
}
