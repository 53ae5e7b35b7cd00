/** The turns of the parser's operator loop, one lemma per branch: what is read, which node is
    folded in, and where the loop goes on. */
module Turns {
  import opened Options
  import opened Operators
  import opened Tokens
  import opened TypeGrammar
  import opened Pratt
  import opened ParseInverse

  lemma PostfixTurnReads(lhs: Expr, ts: seq<Tok>, m: nat, d: nat)
    requires ts != [] && PostfixOf(ts[0]).Some? && m <= POSTFIX_BP
    ensures LeftPower(ts) == POSTFIX_BP && Load(ts) == 1 + Load(ts[1..]) && Opens(ts) == Opens(ts[1..])
    ensures Loop(lhs, ts, m, d) == Loop(Postfix(PostfixOf(ts[0]).value, lhs), ts[1..], m, d)
  {
    hide ExprBp, InstanceofType, BinaryOf, BinaryBp;
  }

  lemma InstanceofTurnReads(lhs: Expr, ts: seq<Tok>, m: nat, d: nat)
    requires Loop(lhs, ts, m, d).Ok?
    requires ts != [] && ts[0] == KwInstanceof && m <= 40
    ensures LeftPower(ts) == 40
    ensures var ty := ParseType(ts[1..], false, d);
            ty.TypeOk? && Head(ts[1..]).Word?
            && Load(ty.rest) + 2 <= Load(ts) && Opens(ty.rest) == Opens(ts)
            && Loop(lhs, ts, m, d) == Loop(Binary(Instanceof, lhs, Name(ts[1].id)), ty.rest, m, d)
  {
    hide ExprBp, BinaryOf, ParseType;
    assert InstanceofType(lhs, ts, m, d).Ok?;
  }

  lemma NotInTurnReads(lhs: Expr, ts: seq<Tok>, m: nat, d: nat)
    requires Loop(lhs, ts, m, d).Ok?
    requires ts != [] && ts[0] == KwNot && Head(ts[1..]) == KwIn && m <= 40
    ensures LeftPower(ts) == 40 && Load(ts) == 2 + Load(ts[2..]) && Opens(ts) == Opens(ts[2..])
    ensures var right := ExprBp(ts[2..], 41, d);
            right.Ok? && Loop(lhs, ts, m, d) == Loop(Binary(NotIn, lhs, right.e), right.rest, m, d)
  {
    hide ExprBp, InstanceofType, BinaryOf;
    assert ts[1..][1..] == ts[2..];
  }

  lemma TernaryTurnReads(lhs: Expr, ts: seq<Tok>, m: nat, d: nat)
    requires Loop(lhs, ts, m, d).Ok?
    requires ts != [] && ts[0] == Question && Head(ts[1..]) != Question && m <= TERNARY_BP_L
    ensures LeftPower(ts) == TERNARY_BP_L && Load(ts) == 1 + Load(ts[1..]) && Opens(ts) == Opens(ts[1..])
    ensures var first := ExprBp(ts[1..], 0, d);
            first.Ok? && Head(first.rest) == Colon
            && Load(first.rest) == 1 + Load(first.rest[1..]) && Opens(first.rest) == Opens(first.rest[1..])
            && var second := ExprBp(first.rest[1..], TERNARY_BP_R, d);
               second.Ok? && Loop(lhs, ts, m, d) == Loop(Ternary(lhs, first.e, second.e), second.rest, m, d)
  {
    hide ExprBp, InstanceofType, BinaryOf;
  }

  lemma InfixTurnReads(lhs: Expr, ts: seq<Tok>, m: nat, d: nat)
    requires Loop(lhs, ts, m, d).Ok?
    requires ts != [] && BinaryBp(ts[0]).Some? && m <= BinaryBp(ts[0]).value.0
    ensures LeftPower(ts) == BinaryBp(ts[0]).value.0 && Load(ts) == 1 + Load(ts[1..]) && Opens(ts) == Opens(ts[1..])
    ensures var right := ExprBp(ts[1..], BinaryBp(ts[0]).value.1, d);
            right.Ok? && Loop(lhs, ts, m, d) == Loop(Combine(ts[0], lhs, right.e), right.rest, m, d)
  {
    hide ExprBp, BinaryOf;
  }

  lemma LoopHasStopped(lhs: Expr, ts: seq<Tok>, m: nat, d: nat)
    requires Loop(lhs, ts, m, d).Ok?
    requires ts != [] && PostfixOf(ts[0]).Some? ==> POSTFIX_BP < m
    requires ts != [] && ts[0] == KwInstanceof ==> 40 < m
    requires ts != [] && ts[0] == KwNot && Head(ts[1..]) == KwIn ==> 40 < m
    requires ts != [] && ts[0] == Question && Head(ts[1..]) != Question ==> TERNARY_BP_L < m
    requires ts != [] && BinaryBp(ts[0]).Some? ==> BinaryBp(ts[0]).value.0 < m
    ensures Loop(lhs, ts, m, d) == Ok(lhs, ts) && (LeftPower(ts) < m || LeftPower(ts) == -1)
  {
    ClosersBindNothing();
    hide ExprBp, InstanceofType, BinaryOf, Combine;
  }
}
