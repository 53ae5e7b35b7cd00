/** Where the printer writes blanks: what every call adds to the finished text, told from the
    calls before it, and the text of an expression told from the expression. */
module Layout {
  import opened Options
  import opened Operators
  import Printer
  import opened PrintedText
  import opened W = LsWriter

  // ---- The line state, counted over the calls ----

  /** Indents that no dedent has closed; a dedent with nothing to close is dropped. */
  function Depth(calls: seq<Call>): nat {
    if calls == [] then 0
    else
      var before, last := Depth(calls[..|calls| - 1]), calls[|calls| - 1];
      if last.Indent? then before + 1 else if last.Dedent? && before > 0 then before - 1 else before
  }

  /** Indents minus dedents. */
  function Net(calls: seq<Call>): int {
    if calls == [] then 0
    else (if calls[0].Indent? then 1 else if calls[0].Dedent? then -1 else 0) + Net(calls[1..])
  }

  lemma {:induction false} NetOfFront(calls: seq<Call>, last: Call)
    ensures Net(calls + [last]) == Net(calls) + if last.Indent? then 1 else if last.Dedent? then -1 else 0
  {
    if calls == [] {
      assert [last][1..] == [];
    } else {
      assert (calls + [last])[1..] == calls[1..] + [last];
      NetOfFront(calls[1..], last);
    }
  }

  /** The depth is the largest balance of indents over dedents that any end of the calls has. */
  lemma {:induction false} DepthIsLargestBalance(calls: seq<Call>)
    ensures forall k :: 0 <= k <= |calls| ==> Net(calls[k..]) <= Depth(calls)
    ensures exists k :: 0 <= k <= |calls| && Net(calls[k..]) == Depth(calls)
  {
    hide Net;
    var n := |calls|;
    assert Net(calls[n..]) == 0 by { assert calls[n..] == []; assert Net([]) == 0 by { EmptyNet(); } }
    if calls == [] {
    } else {
      var front, last := calls[..n - 1], calls[n - 1];
      DepthIsLargestBalance(front);
      var best :| 0 <= best <= |front| && Net(front[best..]) == Depth(front);
      forall k | 0 <= k < n
        ensures Net(calls[k..]) == Net(front[k..]) + if last.Indent? then 1 else if last.Dedent? then -1 else 0
      {
        assert calls[k..] == front[k..] + [last];
        NetOfFront(front[k..], last);
      }
      assert Net(calls[best..]) == Depth(calls) || (Depth(calls) == 0 == Depth(front));
    }
  }

  lemma EmptyNet()
    ensures Net([]) == 0
  {}

  predicate Writes(call: Call) { call.Token? && call.s != "" }

  /** A line break, and nothing written since. */
  ghost predicate OnFreshLine(calls: seq<Call>) {
    exists i :: 0 <= i < |calls| && calls[i].Newline? && forall j :: i < j < |calls| ==> !Writes(calls[j])
  }

  function TextAfterCalls(cfg: Config, calls: seq<Call>): string { Run(cfg, EMPTY, calls).out }

  /** What the next call adds to the text: a token its text behind the indentation owed to a fresh
      line or, elsewhere, behind one blank where it would fuse; a space one blank and a line break
      one line break, in pretty mode and, for the space, off a fresh line. */
  ghost function Added(cfg: Config, calls: seq<Call>, call: Call): string {
    var fresh_ := !cfg.compact && OnFreshLine(calls);
    var text := TextAfterCalls(cfg, calls);
    match call
    case Token(s) =>
      if s == "" then ""
      else if fresh_ then Repeat(cfg.indentUnit, Depth(calls)) + s
      else if text != "" && cfg.NeedsSeparator(text[|text| - 1], s[0]) then " " + s
      else s
    case Space => if cfg.compact || fresh_ then "" else " "
    case Newline => if cfg.compact then "" else "\n"
    case Indent | Dedent => ""
  }

  lemma RunOneMore(cfg: Config, st: State, calls: seq<Call>, call: Call)
    ensures Run(cfg, st, calls + [call]) == Step(cfg, Run(cfg, st, calls), call)
  {
    hide Step;
    RunConcat(cfg, st, calls, [call]);
    assert [call][1..] == [];
    assert forall x :: Run(cfg, x, []) == x;
  }

  /** The writer's fields hold exactly this line state. */
  lemma {:induction false} FieldsFollow(cfg: Config, calls: seq<Call>)
    requires cfg.Valid()
    ensures var st := Run(cfg, EMPTY, calls);
            Consistent(st) && st.indentLevel == Depth(calls)
            && (st.atLineStart <==> !cfg.compact && OnFreshLine(calls))
  {
    if calls == [] {
    } else {
      var n := |calls|;
      var front, last := calls[..n - 1], calls[n - 1];
      FieldsFollow(cfg, front);
      assert calls == front + [last];
      RunOneMore(cfg, EMPTY, front, last);
      StepExtends(cfg, Run(cfg, EMPTY, front), last);
      FreshLineOf(front, last);
      hide Run, OnFreshLine, Consistent, Extends;
    }
  }

  lemma FreshLineOf(front: seq<Call>, last: Call)
    ensures OnFreshLine(front + [last]) <==> last.Newline? || (OnFreshLine(front) && !Writes(last))
  {
    var calls := front + [last];
    assert calls[|front|] == last;
    if OnFreshLine(front) && !Writes(last) {
      var i :| 0 <= i < |front| && front[i].Newline? && forall j :: i < j < |front| ==> !Writes(front[j]);
      assert calls[i] == front[i];
    }
    if i :| 0 <= i < |calls| && calls[i].Newline? && forall j :: i < j < |calls| ==> !Writes(calls[j]) {
      if i < |front| {
        assert front[i].Newline?;
        forall j | i < j < |front| ensures !Writes(front[j]) { assert calls[j] == front[j]; }
      }
    }
  }

  /** After any calls, in either mode, the next one adds exactly this. */
  lemma EveryCallAdds(cfg: Config, calls: seq<Call>, call: Call)
    requires cfg.Valid()
    ensures TextAfterCalls(cfg, calls + [call]) == TextAfterCalls(cfg, calls) + Added(cfg, calls, call)
  {
    FieldsFollow(cfg, calls);
    RunOneMore(cfg, EMPTY, calls, call);
    hide Run, OnFreshLine, Depth;
    var st := Run(cfg, EMPTY, calls);
    if Writes(call) { TokenAdds(cfg, st, call.s); }
  }

  lemma TokenAdds(cfg: Config, st: State, s: string)
    requires cfg.Valid() && Consistent(st) && s != ""
    ensures Step(cfg, st, Call.Token(s)).out
         == st.out + if st.atLineStart then Repeat(cfg.indentUnit, st.indentLevel) + s
                     else if st.out != "" && cfg.NeedsSeparator(st.out[|st.out| - 1], s[0]) then " " + s
                     else s
  {
    hide Repeat;
    var flushed := Flushed(cfg, st);
    if st.atLineStart {
      assert IsBlank(flushed.last.value);
      assert Guarded(cfg, flushed, s[0]) == flushed;
      assert flushed.out + s == st.out + (Repeat(cfg.indentUnit, st.indentLevel) + s);
    } else if st.out != "" {
      assert st.out + " " + s == st.out + (" " + s);
    }
  }

  lemma {:induction false} RepeatAdds(unit: string, m: nat, n: nat)
    ensures Repeat(unit, m + n) == Repeat(unit, m) + Repeat(unit, n)
    ensures Repeat(unit, 0) == "" && Repeat(unit, 1) == unit
  {
    if n == 0 {
      assert Repeat(unit, 1) == Repeat(unit, 0) + unit;
    } else {
      var a, b := Repeat(unit, m), Repeat(unit, n - 1);
      RepeatAdds(unit, m, n - 1);
      assert Repeat(unit, n) == b + unit && Repeat(unit, m + n) == Repeat(unit, m + n - 1) + unit;
      assert a + b + unit == a + (b + unit);
    }
  }

  // ---- The text of an expression ----

  /** Two texts side by side, a blank between them only where they would fuse. */
  function Glued(cfg: Config, a: string, b: string): string {
    if a != "" && b != "" && cfg.NeedsSeparator(a[|a| - 1], b[0]) then a + " " + b else a + b
  }

  /** Two texts that pretty mode sets apart. */
  function Apart(cfg: Config, a: string, b: string): string {
    if cfg.compact then Glued(cfg, a, b) else a + " " + b
  }

  /** An expression in parentheses where it binds too weakly, blanks around infix operators in pretty
      mode, and otherwise only where two tokens would fuse. */
  function Shown(cfg: Config, e: Expr, min: nat): string
    decreases e, 1
  {
    if ExprPrec(e) < min then Glued(cfg, Glued(cfg, "(", ShownKind(cfg, e)), ")") else ShownKind(cfg, e)
  }

  function ShownKind(cfg: Config, e: Expr): string
    decreases e, 0
  {
    match e
    case Name(id) => id
    case Binary(op, l, r) => Apart(cfg, Apart(cfg, Shown(cfg, l, LeftMin(op)), BinaryStr(op)),
                                   Shown(cfg, r, RightMin(op)))
    case Unary(op, x) => Glued(cfg, UnaryStr(op), Shown(cfg, x, PREC_PREFIX))
    case Postfix(op, x) => Glued(cfg, Shown(cfg, x, PREC_POSTFIX), PostfixStr(op))
    case Ternary(c, t, f) =>
      Apart(cfg, Apart(cfg, Apart(cfg, Apart(cfg, Shown(cfg, c, PREC_TERNARY + 1), "?"), Shown(cfg, t, 0)), ":"),
            Shown(cfg, f, PREC_TERNARY))
  }

  /** Every name is written with at least one character, the last of which is no line break. */
  predicate Named(e: Expr) {
    match e
    case Name(id) => id != "" && id[|id| - 1] != '\n'
    case Binary(_, l, r) => Named(l) && Named(r)
    case Unary(_, x) => Named(x)
    case Postfix(_, x) => Named(x)
    case Ternary(c, t, f) => Named(c) && Named(t) && Named(f)
  }

  lemma GluedAssoc(cfg: Config, a: string, b: string, c: string)
    requires b != ""
    ensures Glued(cfg, Glued(cfg, a, b), c) == Glued(cfg, a, Glued(cfg, b, c))
    ensures Glued(cfg, a, b) != ""
  {
    var ab, bc := Glued(cfg, a, b), Glued(cfg, b, c);
    assert ab[|ab| - 1] == b[|b| - 1] && bc[0] == b[0];
  }

  lemma ApartAssoc(cfg: Config, a: string, b: string, c: string)
    requires b != ""
    ensures Apart(cfg, Glued(cfg, a, b), c) == Glued(cfg, a, Apart(cfg, b, c))
  {
    if cfg.compact {
      GluedAssoc(cfg, a, b, c);
    } else {
      var ab, bc := Glued(cfg, a, b), b + " " + c;
      assert bc[0] == b[0];
    }
  }

  /** Off a line start the remembered character is the last one written. */
  ghost predicate Sharp(st: State) {
    !st.atLineStart && st.last == if st.out == "" then None else Some(st.out[|st.out| - 1])
  }

  /** The state behind `text`. */
  function Behind(st: State, text: string): State {
    if text == "" then st else State(text, st.indentLevel, Some(text[|text| - 1]), false)
  }

  lemma TokenGlues(cfg: Config, st: State, s: string)
    requires cfg.Valid() && Sharp(st) && s != ""
    ensures Step(cfg, st, Call.Token(s)) == Behind(st, Glued(cfg, st.out, s))
    ensures Sharp(Behind(st, Glued(cfg, st.out, s)))
  {
    var text := Glued(cfg, st.out, s);
    assert text[|text| - 1] == s[|s| - 1];
  }

  lemma {:induction false} ShownWrites(cfg: Config, e: Expr, min: nat)
    requires Named(e)
    ensures var s := Shown(cfg, e, min); s != "" && s[|s| - 1] != '\n'
    decreases e, 1
  {
    hide ShownKind;
    ShownKindWrites(cfg, e);
  }

  lemma {:induction false} ShownKindWrites(cfg: Config, e: Expr)
    requires Named(e)
    ensures var s := ShownKind(cfg, e); s != "" && s[|s| - 1] != '\n'
    decreases e, 0
  {
    hide Shown, Glued, Apart, BinaryStr, UnaryStr, PostfixStr;
    match e
    case Name(_) =>
    case Binary(op, l, r) =>
      ShownWrites(cfg, r, RightMin(op));
      BehindWrites(cfg, Apart(cfg, Shown(cfg, l, LeftMin(op)), BinaryStr(op)), Shown(cfg, r, RightMin(op)));
    case Unary(op, x) =>
      ShownWrites(cfg, x, PREC_PREFIX);
      BehindWrites(cfg, UnaryStr(op), Shown(cfg, x, PREC_PREFIX));
    case Postfix(op, x) =>
      PostfixIsWritten(op);
      BehindWrites(cfg, Shown(cfg, x, PREC_POSTFIX), PostfixStr(op));
    case Ternary(c, t, f) =>
      ShownWrites(cfg, f, PREC_TERNARY);
      BehindWrites(cfg, Apart(cfg, Apart(cfg, Apart(cfg, Shown(cfg, c, PREC_TERNARY + 1), "?"), Shown(cfg, t, 0)), ":"),
                   Shown(cfg, f, PREC_TERNARY));
  }

  lemma BehindWrites(cfg: Config, a: string, b: string)
    requires b != ""
    ensures var s := Glued(cfg, a, b); s != "" && s[|s| - 1] == b[|b| - 1]
    ensures var s := Apart(cfg, a, b); s != "" && s[|s| - 1] == b[|b| - 1]
  {}

  lemma PostfixIsWritten(op: PostfixOp)
    ensures var s := PostfixStr(op); s != "" && s[|s| - 1] != '\n'
  {}

  /** The calls of an expression write it, wherever the line has begun. */
  ghost predicate WritesOut(cfg: Config, calls: seq<Printer.Call>, st: State, text: string) {
    Run(cfg, st, Written(calls)) == Behind(st, Glued(cfg, st.out, text)) && Sharp(Behind(st, Glued(cfg, st.out, text)))
  }

  lemma WritesToken(cfg: Config, st: State, sym: Printer.Symbol)
    requires cfg.Valid() && Sharp(st) && Printer.Text(sym) != ""
    ensures WritesOut(cfg, [Printer.Token(sym)], st, Printer.Text(sym))
  {
    var s := Printer.Text(sym);
    TokenGlues(cfg, st, s);
    hide Printer.Text, Step;
    var calls := Written([Printer.Token(sym)]);
    assert [Printer.Token(sym)][1..] == [];
    assert Written([]) == [];
    assert calls == [Call.Token(s)] && calls[1..] == [];
    assert Run(cfg, Step(cfg, st, Call.Token(s)), []) == Step(cfg, st, Call.Token(s));
  }

  /** One text behind another. */
  lemma WritesBoth(cfg: Config, a: seq<Printer.Call>, b: seq<Printer.Call>, st: State, s: string, t: string)
    requires s != "" && WritesOut(cfg, a, st, s) && WritesOut(cfg, b, Behind(st, Glued(cfg, st.out, s)), t)
    ensures WritesOut(cfg, a + b, st, Glued(cfg, s, t))
  {
    WrittenConcat(a, b);
    RunConcat(cfg, st, Written(a), Written(b));
    GluedAssoc(cfg, st.out, s, t);
    hide Run, Written, Glued;
    var mid := Behind(st, Glued(cfg, st.out, s));
    assert mid.out == Glued(cfg, st.out, s);
  }

  /** The same with a soft space between them. */
  lemma WritesSpaced(cfg: Config, a: seq<Printer.Call>, b: seq<Printer.Call>, st: State, s: string, t: string)
    requires cfg.Valid() && s != "" && t != "" && WritesOut(cfg, a, st, s)
    requires WritesOut(cfg, b, Step(cfg, Behind(st, Glued(cfg, st.out, s)), Call.Space), t)
    ensures WritesOut(cfg, a + [Printer.Space] + b, st, Apart(cfg, s, t))
  {
    var m1 := Behind(st, Glued(cfg, st.out, s));
    GluedAssoc(cfg, st.out, s, t);
    SpaceApart(cfg, m1, t);
    ApartAssoc(cfg, st.out, s, t);
    RunSpaced(cfg, a, b, st);
    hide Run, Written, Glued, Step, Apart;
    assert m1.out == Glued(cfg, st.out, s);
  }

  lemma RunSpaced(cfg: Config, a: seq<Printer.Call>, b: seq<Printer.Call>, st: State)
    ensures Run(cfg, st, Written(a + [Printer.Space] + b))
         == Run(cfg, Step(cfg, Run(cfg, st, Written(a)), Call.Space), Written(b))
  {
    hide Step;
    WrittenConcat(a + [Printer.Space], b);
    WrittenConcat(a, [Printer.Space]);
    assert Written([Printer.Space]) == [Call.Space] by {
      assert [Printer.Space][1..] == [];
      assert Written([]) == [];
    }
    RunConcat(cfg, st, Written(a) + [Call.Space], Written(b));
    RunOneMore(cfg, st, Written(a), Call.Space);
  }

  lemma SpaceApart(cfg: Config, st: State, t: string)
    requires cfg.Valid() && Sharp(st) && t != "" && st.out != ""
    ensures var spaced := Step(cfg, st, Call.Space);
            Sharp(spaced) && Glued(cfg, spaced.out, t) == Apart(cfg, st.out, t)
            && forall text :: text != "" ==> Behind(spaced, text) == Behind(st, text)
  {
    assert IsBlank(' ');
    var spaced := Step(cfg, st, Call.Space);
    if !cfg.compact {
      assert spaced.out[|spaced.out| - 1] == ' ';
    }
  }

  /** An operand, an infix symbol and an operand. */
  lemma WritesInfix(cfg: Config, a: seq<Printer.Call>, sym: Printer.Symbol, b: seq<Printer.Call>, st: State, s: string,
                    t: string)
    requires cfg.Valid() && s != "" && t != "" && Printer.Text(sym) != "" && WritesOut(cfg, a, st, s)
    requires forall x :: Sharp(x) ==> WritesOut(cfg, b, x, t)
    ensures WritesOut(cfg, a + [Printer.Space, Printer.Token(sym), Printer.Space] + b, st,
                      Apart(cfg, Apart(cfg, s, Printer.Text(sym)), t))
  {
    hide Printer.Text, Step, WritesOut, Glued, Apart;
    var op := Printer.Text(sym);
    var m1 := Behind(st, Glued(cfg, st.out, s));
    SharpAfter(cfg, a, st, s);
    SpaceApart(cfg, m1, op);
    WritesToken(cfg, Step(cfg, m1, Call.Space), sym);
    WritesSpaced(cfg, a, [Printer.Token(sym)], st, s, op);
    var front := a + [Printer.Space] + [Printer.Token(sym)];
    BehindWrites(cfg, s, op);
    SharpAfter(cfg, front, st, Apart(cfg, s, op));
    var m2 := Behind(st, Glued(cfg, st.out, Apart(cfg, s, op)));
    SpaceApart(cfg, m2, t);
    WritesSpaced(cfg, front, b, st, Apart(cfg, s, op), t);
    assert front + [Printer.Space] + b == a + [Printer.Space, Printer.Token(sym), Printer.Space] + b;
  }

  lemma SharpAfter(cfg: Config, a: seq<Printer.Call>, st: State, s: string)
    requires s != "" && WritesOut(cfg, a, st, s)
    ensures var m := Behind(st, Glued(cfg, st.out, s)); Sharp(m) && m.out != ""
  {
    BehindWrites(cfg, st.out, s);
    hide Run, Written;
  }

  lemma {:induction false} ExprIsShown(cfg: Config, e: Expr, min: nat, st: State)
    requires cfg.Valid() && Named(e) && Sharp(st)
    ensures WritesOut(cfg, Printer.EmitExpr(e, min), st, Shown(cfg, e, min))
    decreases e, 1
  {
    hide Printer.EmitKind, ShownKind, WritesOut, Glued, Apart, Step;
    ShownKindWrites(cfg, e);
    if ExprPrec(e) < min {
      var open, inner := Behind(st, Glued(cfg, st.out, "(")), Glued(cfg, "(", ShownKind(cfg, e));
      WritesToken(cfg, st, Printer.Open);
      SharpAfter(cfg, [Printer.Token(Printer.Open)], st, "(");
      KindIsShown(cfg, e, open);
      WritesBoth(cfg, [Printer.Token(Printer.Open)], Printer.EmitKind(e), st, "(", ShownKind(cfg, e));
      BehindWrites(cfg, "(", ShownKind(cfg, e));
      SharpAfter(cfg, [Printer.Token(Printer.Open)] + Printer.EmitKind(e), st, inner);
      WritesToken(cfg, Behind(st, Glued(cfg, st.out, inner)), Printer.Close);
      WritesBoth(cfg, [Printer.Token(Printer.Open)] + Printer.EmitKind(e), [Printer.Token(Printer.Close)], st, inner,
                 ")");
    } else {
      KindIsShown(cfg, e, st);
    }
  }

  lemma {:induction false} KindIsShown(cfg: Config, e: Expr, st: State)
    requires cfg.Valid() && Named(e) && Sharp(st)
    ensures WritesOut(cfg, Printer.EmitKind(e), st, ShownKind(cfg, e))
    decreases e, 0
  {
    hide Printer.EmitExpr, Shown, WritesOut, Glued, Apart, Step, BinaryStr, UnaryStr, PostfixStr;
    match e
    case Name(id) => WritesToken(cfg, st, Printer.Ident(id));
    case Binary(op, l, r) =>
      ShownWrites(cfg, l, LeftMin(op));
      ShownWrites(cfg, r, RightMin(op));
      ExprIsShown(cfg, l, LeftMin(op), st);
      forall x | Sharp(x) ensures WritesOut(cfg, Printer.EmitExpr(r, RightMin(op)), x, Shown(cfg, r, RightMin(op))) {
        ExprIsShown(cfg, r, RightMin(op), x);
      }
      SymbolsAreWritten(Printer.BinarySym(op));
      WritesInfix(cfg, Printer.EmitExpr(l, LeftMin(op)), Printer.BinarySym(op), Printer.EmitExpr(r, RightMin(op)), st,
                  Shown(cfg, l, LeftMin(op)), Shown(cfg, r, RightMin(op)));
    case Unary(op, x) =>
      SymbolsAreWritten(Printer.UnarySym(op));
      WritesToken(cfg, st, Printer.UnarySym(op));
      SharpAfter(cfg, [Printer.Token(Printer.UnarySym(op))], st, UnaryStr(op));
      ExprIsShown(cfg, x, PREC_PREFIX, Behind(st, Glued(cfg, st.out, UnaryStr(op))));
      WritesBoth(cfg, [Printer.Token(Printer.UnarySym(op))], Printer.EmitExpr(x, PREC_PREFIX), st, UnaryStr(op),
                 Shown(cfg, x, PREC_PREFIX));
    case Postfix(op, x) =>
      SymbolsAreWritten(Printer.PostfixSym(op));
      ShownWrites(cfg, x, PREC_POSTFIX);
      ExprIsShown(cfg, x, PREC_POSTFIX, st);
      SharpAfter(cfg, Printer.EmitExpr(x, PREC_POSTFIX), st, Shown(cfg, x, PREC_POSTFIX));
      WritesToken(cfg, Behind(st, Glued(cfg, st.out, Shown(cfg, x, PREC_POSTFIX))), Printer.PostfixSym(op));
      WritesBoth(cfg, Printer.EmitExpr(x, PREC_POSTFIX), [Printer.Token(Printer.PostfixSym(op))], st,
                 Shown(cfg, x, PREC_POSTFIX), PostfixStr(op));
    case Ternary(c, t, f) => TernaryIsShown(cfg, c, t, f, st);
  }

  lemma {:induction false} TernaryIsShown(cfg: Config, c: Expr, t: Expr, f: Expr, st: State)
    requires cfg.Valid() && Named(Ternary(c, t, f)) && Sharp(st)
    ensures WritesOut(cfg, Printer.EmitKind(Ternary(c, t, f)), st, ShownKind(cfg, Ternary(c, t, f)))
    decreases Ternary(c, t, f), 0, 0
  {
    hide Printer.EmitExpr, Shown, WritesOut, Glued, Apart, Step;
    var a, b, z := Printer.EmitExpr(c, PREC_TERNARY + 1), Printer.EmitExpr(t, 0), Printer.EmitExpr(f, PREC_TERNARY);
    var s, u, w := Shown(cfg, c, PREC_TERNARY + 1), Shown(cfg, t, 0), Shown(cfg, f, PREC_TERNARY);
    ShownWrites(cfg, c, PREC_TERNARY + 1);
    ShownWrites(cfg, t, 0);
    ShownWrites(cfg, f, PREC_TERNARY);
    ExprIsShown(cfg, c, PREC_TERNARY + 1, st);
    forall x | Sharp(x) ensures WritesOut(cfg, b, x, u) { ExprIsShown(cfg, t, 0, x); }
    forall x | Sharp(x) ensures WritesOut(cfg, z, x, w) { ExprIsShown(cfg, f, PREC_TERNARY, x); }
    SymbolsAreWritten(Printer.Mark);
    SymbolsAreWritten(Printer.Separator);
    WritesInfix(cfg, a, Printer.Mark, b, st, s, u);
    var front := Apart(cfg, Apart(cfg, s, "?"), u);
    BehindWrites(cfg, Apart(cfg, s, "?"), u);
    WritesInfix(cfg, a + [Printer.Space, Printer.Token(Printer.Mark), Printer.Space] + b, Printer.Separator, z, st,
                front, w);
  }

  lemma SymbolsAreWritten(sym: Printer.Symbol)
    requires !sym.Ident?
    ensures Printer.Text(sym) != ""
  {}

  /** The finished text of an expression: with the blanks of `Shown`, and a line break in pretty mode. */
  lemma TextIsShown(cfg: Config, e: Expr)
    requires cfg.Valid() && Named(e)
    ensures TextOf(cfg, e) == Shown(cfg, e, 0) + if cfg.compact then "" else "\n"
  {
    hide Printer.EmitExpr, Shown, WritesOut, Run, Written;
    ExprIsShown(cfg, e, 0, EMPTY);
    ShownWrites(cfg, e, 0);
    WrittenFromStart(cfg, Printer.EmitExpr(e, 0), Shown(cfg, e, 0));
  }

  lemma WrittenFromStart(cfg: Config, calls: seq<Printer.Call>, text: string)
    requires WritesOut(cfg, calls, EMPTY, text) && text != "" && text[|text| - 1] != '\n'
    ensures Finished(cfg, Run(cfg, EMPTY, Written(calls))) == text + if cfg.compact then "" else "\n"
  {
    hide Run, Written;
    assert Glued(cfg, "", text) == text;
  }

  /** `a + b` has its blanks in pretty mode and none in compact mode. */
  lemma SumIsSpaced(cfg: Config, a: string, b: string)
    requires cfg.Valid() && Named(Name(a)) && Named(Name(b))
    requires cfg.IsWordChar(a[|a| - 1]) && cfg.IsWordChar(b[0])
    ensures TextOf(cfg, Binary(Add, Name(a), Name(b))) == if cfg.compact then a + "+" + b else a + " + " + b + "\n"
  {
    hide TextOf;
    TextIsShown(cfg, Binary(Add, Name(a), Name(b)));
    assert Shown(cfg, Name(a), LeftMin(Add)) == a && Shown(cfg, Name(b), RightMin(Add)) == b;
    assert IsOpChar('+') && !cfg.NeedsSeparator(a[|a| - 1], '+') && !cfg.NeedsSeparator('+', b[0]);
    assert Glued(cfg, a, "+") == a + "+";
    assert Shown(cfg, Binary(Add, Name(a), Name(b)), 0) == Apart(cfg, Apart(cfg, a, "+"), b);
  }
}
