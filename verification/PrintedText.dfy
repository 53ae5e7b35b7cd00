/** From expression trees to characters and back: the emitter drives the writer, the lexer
    reads the finished text, the parser reads the tokens. */
module PrintedText {
  import opened Options
  import opened Operators
  import opened Tokens
  import Printer
  import opened TypeGrammar
  import Pratt
  import opened ParseInverse
  import opened Reparse
  import opened Lexer
  import opened Versions
  import W = LsWriter

  /** Emitter calls as calls of the writer. */
  function Written(calls: seq<Printer.Call>): seq<W.Call> {
    if calls == [] then []
    else [match calls[0] case Token(s) => W.Token(Printer.Text(s)) case Space => W.Space] + Written(calls[1..])
  }

  lemma {:induction false} WrittenConcat(a: seq<Printer.Call>, b: seq<Printer.Call>)
    ensures Written(a + b) == Written(a) + Written(b)
  {
    if a == [] {
      assert a + b == b;
    } else {
      assert (a + b)[0] == a[0] && (a + b)[1..] == a[1..] + b;
      WrittenConcat(a[1..], b);
    }
  }

  /** Every name is an identifier, and no reserved word of the version. */
  predicate NamesOk(v: Version, e: Expr) {
    match e
    case Name(id) => IsWord(id) && KeywordOf(v, id) == Word(id)
    case Binary(_, l, r) => NamesOk(v, l) && NamesOk(v, r)
    case Unary(_, x) => NamesOk(v, x)
    case Postfix(_, x) => NamesOk(v, x)
    case Ternary(c, t, f) => NamesOk(v, c) && NamesOk(v, t) && NamesOk(v, f)
  }

  // ---- Each symbol's text lexes to its own tokens ----

  predicate IsWordOp(op: BinaryOp) { op in {In, NotIn, Is, Xor, Instanceof} }

  lemma OperatorText(v: Version, op: BinaryOp)
    requires !IsWordOp(op)
    ensures Lex(v, BinaryStr(op)) == Some([Printer.BinaryKind(op)])
  {
    SpelledAsOperator(op);
    hide OperatorAt, Lex, BinaryStr, Printer.BinaryKind, W.IsOpChar;
    LexOperator(v, BinaryStr(op));
  }

  lemma SpelledAsOperator(op: BinaryOp)
    requires !IsWordOp(op)
    ensures 1 <= |BinaryStr(op)| <= 4 && W.IsOpChar(BinaryStr(op)[0])
    ensures var s := BinaryStr(op);
            OperatorAt(s[0], Peek(s, 1), Peek(s, 2), Peek(s, 3)) == Some((Printer.BinaryKind(op), |s|))
  {}

  lemma WordText(v: Version, op: BinaryOp)
    requires IsWordOp(op) && op != NotIn
    ensures Lex(v, BinaryStr(op)) == Some([Demote(v, Printer.BinaryKind(op))])
  {
    hide Lex, KeywordOf, IsWord, BinaryStr, Printer.BinaryKind, Demote;
    OperatorIsWord(op);
    WordIsKeyword(v, op);
    LexWord(v, BinaryStr(op));
  }

  lemma WordIsKeyword(v: Version, op: BinaryOp)
    requires IsWordOp(op) && op != NotIn
    ensures KeywordOf(v, BinaryStr(op)) == Demote(v, Printer.BinaryKind(op))
  {
    hide KeywordOf, Lower, ReservedWord;
    if op == Instanceof {
      InstanceofWord(v);
    } else {
      KeptKeyword(v, BinaryStr(op));
    }
  }

  /** The operator words that are keywords in every version. */
  lemma KeptKeyword(v: Version, word: string)
    requires word in {"in", "is", "not", "xor"}
    ensures KeywordOf(v, word)
         == if word == "in" then KwIn else if word == "is" then KwIs else if word == "not" then KwNot else KwXor
  {
    hide Folded, ReservedWord;
    FoldedOperator(v, word);
  }

  lemma InstanceofWord(v: Version)
    ensures KeywordOf(v, "instanceof") == Demote(v, KwInstanceof)
  {
    hide Folded, ReservedWord;
    FoldedOperator(v, "instanceof");
    InstanceofIsReservedNowhere(v);
  }

  /** Before version 3 `instanceof` is in no list of reserved words. */
  lemma InstanceofIsReservedNowhere(v: Version)
    ensures ReservedWord(v, "instanceof").None?
  {
    hide Lower;
    LowerKeeps("instanceof");
  }

  lemma OperatorIsWord(op: BinaryOp)
    requires IsWordOp(op) && op != NotIn
    ensures IsWord(BinaryStr(op))
  {}

  lemma FoldedOperator(v: Version, word: string)
    requires word in {"in", "is", "not", "xor", "instanceof"}
    ensures Folded(v, word) == word
  {
    hide Lower;
    LowerKeeps(word);
  }

  lemma TwoWords(v: Version, cfg: W.Config, a: string, b: string)
    requires Lexical(cfg) && IsWord(a) && IsWord(b)
    ensures Lex(v, a + " " + b) == Some([KeywordOf(v, a), KeywordOf(v, b)])
  {
    hide Lex, KeywordOf, IsWord;
    LexWord(v, a);
    LexWord(v, b);
    LexBlank(v, " ");
    W.BlankSeparates(cfg, a, " ");
    LexConcat(v, cfg, a, " ");
    assert [KeywordOf(v, a)] + [] == [KeywordOf(v, a)];
    assert W.Separated(cfg, a + " ", b) by { assert W.IsBlank(' '); }
    LexConcat(v, cfg, a + " ", b);
    assert [KeywordOf(v, a)] + [KeywordOf(v, b)] == [KeywordOf(v, a), KeywordOf(v, b)];
  }

  lemma NotInText(v: Version, cfg: W.Config)
    requires Lexical(cfg)
    ensures Lex(v, "not in") == Some([KwNot, KwIn])
  {
    hide Lex, KeywordOf, IsWord;
    NotAndInAreWords(v);
    TwoWords(v, cfg, "not", "in");
    assert "not" + " " + "in" == "not in";
  }

  lemma NotAndInAreWords(v: Version)
    ensures IsWord("not") && KeywordOf(v, "not") == KwNot && IsWord("in") && KeywordOf(v, "in") == KwIn
  {
    hide KeywordOf;
    KeptKeyword(v, "not");
    KeptKeyword(v, "in");
  }

  lemma UnaryText(v: Version, op: UnaryOp)
    ensures Lex(v, UnaryStr(op)) == Some([Printer.UnaryKind(op)])
  {
    LexOperator(v, UnaryStr(op));
  }

  lemma PostfixText(v: Version, op: PostfixOp)
    ensures Lex(v, PostfixStr(op)) == Some([Printer.PostfixKind(op)])
  {
    LexOperator(v, PostfixStr(op));
  }

  lemma PunctuationText(v: Version)
    ensures Lex(v, "(") == Some([LParen]) && Lex(v, ")") == Some([RParen])
    ensures Lex(v, "?") == Some([Question]) && Lex(v, ":") == Some([Colon])
  {
    hide Lex;
    LexOne(v, "(", LParen);
    LexOne(v, ")", RParen);
    LexOperator(v, "?");
    LexOperator(v, ":");
  }

  lemma BinaryText(v: Version, cfg: W.Config, op: BinaryOp)
    requires Lexical(cfg)
    ensures Lex(v, BinaryStr(op))
         == Some(if op == Instanceof then [Demote(v, KwInstanceof)] else Printer.Kinds(Printer.BinarySym(op)))
  {
    hide Lex, OperatorAt, Demote;
    if op == NotIn {
      NotInText(v, cfg);
    } else if IsWordOp(op) {
      WordText(v, op);
      if op != Instanceof { DemoteOther(v, op); }
    } else {
      OperatorText(v, op);
    }
  }

  lemma DemoteOther(v: Version, op: BinaryOp)
    requires op != Instanceof
    ensures Demote(v, Printer.BinaryKind(op)) == Printer.BinaryKind(op)
  {}

  predicate SymbolOk(v: Version, s: Printer.Symbol) {
    s.Ident? ==> IsWord(s.id) && KeywordOf(v, s.id) == Word(s.id)
  }

  lemma SymbolText(v: Version, cfg: W.Config, s: Printer.Symbol)
    requires Lexical(cfg) && SymbolOk(v, s)
    ensures Lex(v, Printer.Text(s)) == Some(Demoted(v, Printer.Kinds(s)))
  {
    hide Lex, KeywordOf, IsWord, BinaryStr, UnaryStr, PostfixStr, Demoted, IsIdentStart, IsIdentContinue, OperatorAt;
    SymbolUnderVersion(v, s);
    match s
    case Ident(id) => LexWord(v, id);
    case BinarySym(op) => BinaryText(v, cfg, op);
    case UnarySym(op) => UnaryText(v, op);
    case PostfixSym(op) => PostfixText(v, op);
    case Open => PunctuationText(v);
    case Close => PunctuationText(v);
    case Mark => PunctuationText(v);
    case Separator => PunctuationText(v);
  }

  // ---- Whatever the writer is asked to print, the text lexes to the symbols' tokens ----

  ghost predicate CallsOk(v: Version, calls: seq<Printer.Call>) {
    forall i :: 0 <= i < |calls| && calls[i].Token? ==> SymbolOk(v, calls[i].sym)
  }

  lemma StepLexes(v: Version, cfg: W.Config, st: W.State, call: W.Call)
    requires Lexical(cfg) && W.Consistent(st) && Lex(v, st.out).Some?
    requires call.Token? ==> Lex(v, call.s).Some?
    ensures Lex(v, W.Step(cfg, st, call).out)
         == Some(Lex(v, st.out).value + if call.Token? then Lex(v, call.s).value else [])
  {
    W.StepExtends(cfg, st, call);
    var s := if call.Token? then call.s else "";
    var gap :| W.AllBlank(gap) && W.Step(cfg, st, call).out == st.out + gap + s
               && (call.Token? ==> W.Separated(cfg, st.out + gap, s));
    LexBlank(v, gap);
    LexBlank(v, "");
    hide W.Step, Lex;
    W.BlankSeparates(cfg, st.out, gap);
    LexConcat(v, cfg, st.out, gap);
    assert Lex(v, st.out).value + [] == Lex(v, st.out).value;
    LexConcat(v, cfg, st.out + gap, s);
  }

  lemma {:induction false} RunLexes(v: Version, cfg: W.Config, st: W.State, calls: seq<Printer.Call>)
    requires Lexical(cfg) && W.Consistent(st) && Lex(v, st.out).Some? && CallsOk(v, calls)
    ensures W.Consistent(W.Run(cfg, st, Written(calls)))
    ensures Lex(v, W.Run(cfg, st, Written(calls)).out) == Some(Lex(v, st.out).value + Demoted(v, Printer.Toks(calls)))
    decreases |calls|
  {
    hide Lex, W.Step, W.Consistent, W.Extends, Printer.Text, Printer.Kinds, Demoted;
    if calls == [] {
      DemotedUnchanged(v, []);
      assert Lex(v, st.out).value + [] == Lex(v, st.out).value;
    } else {
      var call := Written([calls[0]])[0];
      assert Written(calls) == [call] + Written(calls[1..]);
      if calls[0].Token? { SymbolText(v, cfg, calls[0].sym); }
      StepLexes(v, cfg, st, call);
      W.StepExtends(cfg, st, call);
      var next := W.Step(cfg, st, call);
      assert W.Run(cfg, st, Written(calls)) == W.Run(cfg, next, Written(calls[1..]));
      RunLexes(v, cfg, next, calls[1..]);
      var kinds := match calls[0] case Token(s) => Printer.Kinds(s) case Space => [];
      DemotedUnchanged(v, []);
      DemotedConcat(v, kinds, Printer.Toks(calls[1..]));
      assert Printer.Toks(calls) == kinds + Printer.Toks(calls[1..]);
      assert Lex(v, next.out).value == Lex(v, st.out).value + Demoted(v, kinds);
      assert (Lex(v, st.out).value + Demoted(v, kinds)) + Demoted(v, Printer.Toks(calls[1..]))
          == Lex(v, st.out).value + (Demoted(v, kinds) + Demoted(v, Printer.Toks(calls[1..])));
    }
  }

  lemma {:induction false} EmittedCallsOk(v: Version, e: Expr, min: nat)
    requires NamesOk(v, e)
    ensures CallsOk(v, Printer.EmitExpr(e, min))
    decreases e, 1
  {
    EmittedKindOk(v, e);
    hide Printer.EmitKind, SymbolOk;
    assert SymbolOk(v, Printer.Open) && SymbolOk(v, Printer.Close) by { OperatorsOk(v); }
  }

  lemma OperatorsOk(v: Version)
    ensures forall s: Printer.Symbol :: !s.Ident? ==> SymbolOk(v, s)
  {}

  lemma NameIsOk(v: Version, id: string)
    requires NamesOk(v, Name(id))
    ensures SymbolOk(v, Printer.Ident(id))
  {}

  lemma CallsOkConcat(v: Version, a: seq<Printer.Call>, b: seq<Printer.Call>)
    requires CallsOk(v, a) && CallsOk(v, b)
    ensures CallsOk(v, a + b)
  {
    hide SymbolOk;
  }

  lemma {:induction false} EmittedKindOk(v: Version, e: Expr)
    requires NamesOk(v, e)
    ensures CallsOk(v, Printer.EmitKind(e))
    decreases e, 0
  {
    hide Printer.EmitExpr, SymbolOk;
    OperatorsOk(v);
    match e
    case Name(id) => NameIsOk(v, id);
    case Binary(op, l, r) => EmittedCallsOk(v, l, LeftMin(op)); EmittedCallsOk(v, r, RightMin(op));
    case Unary(_, x) => EmittedCallsOk(v, x, PREC_PREFIX);
    case Postfix(_, x) => EmittedCallsOk(v, x, PREC_POSTFIX);
    case Ternary(c, t, f) => TernaryCallsOk(v, c, t, f);
  }

  lemma SpacedOk(v: Version, sym: Printer.Symbol)
    requires !sym.Ident?
    ensures CallsOk(v, [Printer.Space, Printer.Token(sym), Printer.Space])
  {
    OperatorsOk(v);
    hide SymbolOk;
  }

  lemma {:induction false} TernaryCallsOk(v: Version, c: Expr, t: Expr, f: Expr)
    requires NamesOk(v, c) && NamesOk(v, t) && NamesOk(v, f)
    ensures CallsOk(v, Printer.EmitKind(Ternary(c, t, f)))
    decreases Ternary(c, t, f), 0, 0
  {
    hide Printer.EmitExpr, CallsOk, NamesOk;
    EmittedCallsOk(v, c, PREC_TERNARY + 1);
    EmittedCallsOk(v, t, 0);
    EmittedCallsOk(v, f, PREC_TERNARY);
    var x, y, z := Printer.EmitExpr(c, PREC_TERNARY + 1), Printer.EmitExpr(t, 0), Printer.EmitExpr(f, PREC_TERNARY);
    var mark := [Printer.Space, Printer.Token(Printer.Mark), Printer.Space];
    var separator := [Printer.Space, Printer.Token(Printer.Separator), Printer.Space];
    SpacedOk(v, Printer.Mark);
    SpacedOk(v, Printer.Separator);
    assert Printer.EmitKind(Ternary(c, t, f)) == x + mark + y + separator + z;
    hide Printer.EmitKind;
    CallsOkConcat(v, x, mark);
    CallsOkConcat(v, x + mark, y);
    CallsOkConcat(v, x + mark + y, separator);
    CallsOkConcat(v, x + mark + y + separator, z);
  }

  // ---- The whole pipeline ----

  /** The text of an expression, in compact or pretty mode. */
  function TextOf(cfg: W.Config, e: Expr): string {
    W.Finished(cfg, W.Run(cfg, W.EMPTY, Written(Printer.EmitExpr(e, 0))))
  }

  function ParseText(v: Version, s: string, depth: nat): Option<Expr> {
    match Lex(v, s)
    case None => None
    case Some(ts) => Pratt.Parse(ts, depth)
  }

  /** The lexer recovers the printed tokens from the characters, whatever the layout, up to what
      the version makes of the word `instanceof`. */
  lemma TextLexes(v: Version, cfg: W.Config, e: Expr)
    requires Lexical(cfg) && NamesOk(v, e)
    ensures Lex(v, TextOf(cfg, e)) == Some(Demoted(v, Printer.Print(e, 0)))
  {
    hide Lex, Printer.Print, Printer.EmitExpr, Demoted, NamesOk, SymbolOk, W.Step, Printer.Toks;
    var calls := Printer.EmitExpr(e, 0);
    EmittedCallsOk(v, e, 0);
    LexBlank(v, "");
    RunLexes(v, cfg, W.EMPTY, calls);
    Printer.EmittedTokens(e, 0);
    var st := W.Run(cfg, W.EMPTY, Written(calls));
    if W.Finished(cfg, st) != st.out {
      W.BlankSeparates(cfg, st.out, "\n");
      LexBlank(v, "\n");
      LexConcat(v, cfg, st.out, "\n");
    }
    var ts := Demoted(v, Printer.Print(e, 0));
    assert [] + ts == ts == ts + [];
  }

  /** Printing to characters, lexing and parsing gives back the tree, exactly when it has no `is`,
      stays within the depth limit, puts nothing that continues a type after an `instanceof` class,
      and has no `instanceof` at all before version 3. */
  lemma TextRoundTrip(v: Version, cfg: W.Config, e: Expr, depth: nat)
    requires Lexical(cfg) && NamesOk(v, e) && WellFormed(e)
    ensures ParseText(v, TextOf(cfg, e), depth) == Some(e)
       <==> && !HasIs(e) && !TypeClash(e, 0, Eof) && Shallow(e, 0, depth + 1)
            && (Number(v) >= 3 || !HasInstanceof(e))
  {
    hide TextOf, Printer.Print, Lex, Pratt.Parse, HasIs, TypeClash, Shallow, HasInstanceof, Demoted, NamesOk;
    TextLexes(v, cfg, e);
    if Number(v) < 3 && HasInstanceof(e) {
      OldVersionsReadNone(v, Printer.Print(e, 0), depth);
    } else {
      if !HasInstanceof(e) { PrintHasNone(e, 0); }
      DemotedUnchanged(v, Printer.Print(e, 0));
      RoundTrip(e, depth);
    }
  }

  /** Down to characters: `(l instanceof A) | b` comes back, without a diagnostic, as `l instanceof A`. */
  lemma TextOfUnionLosesOperand(v: Version, cfg: W.Config, l: Expr, a: string, b: string, depth: nat)
    requires Lexical(cfg) && NamesOk(v, l) && NamesOk(v, Name(a)) && NamesOk(v, Name(b)) && Number(v) >= 3
    requires WellFormed(l) && !HasIs(l) && !TypeClash(l, LeftMin(Instanceof), KwInstanceof)
    requires Shallow(l, LeftMin(Instanceof), depth + 1) && depth + 2 <= MAX_RECURSION_DEPTH
    ensures var test := Binary(Instanceof, l, Name(a));
            ParseText(v, TextOf(cfg, Binary(BitOr, test, Name(b))), depth) == Some(test)
  {
    var test := Binary(Instanceof, l, Name(a));
    assert NamesOk(v, test) && NamesOk(v, Binary(BitOr, test, Name(b)));
    hide TextOf, Printer.Print, Lex, Pratt.Parse, NamesOk, TypeClash, Shallow, HasIs;
    TextLexes(v, cfg, Binary(BitOr, test, Name(b)));
    DemotedUnchanged(v, Printer.Print(Binary(BitOr, test, Name(b)), 0));
    UnionSwallowsOperand(l, a, b, depth);
  }

  // ---- The emitter as the caller of the writer ----

  /** The writer's state after a sequence of emitter calls. */
  ghost function After(cfg: W.Config, st: W.State, calls: seq<Printer.Call>): W.State {
    W.Run(cfg, st, Written(calls))
  }

  lemma AfterConcat(cfg: W.Config, st: W.State, a: seq<Printer.Call>, b: seq<Printer.Call>)
    ensures After(cfg, st, a + b) == After(cfg, After(cfg, st, a), b)
  {
    WrittenConcat(a, b);
    W.RunConcat(cfg, st, Written(a), Written(b));
  }

  lemma AfterCall(cfg: W.Config, st: W.State, a: seq<Printer.Call>, call: Printer.Call)
    ensures After(cfg, st, a + [call]) == W.Step(cfg, After(cfg, st, a), Written([call])[0])
  {
    AfterConcat(cfg, st, a, [call]);
    assert Written([call]) == [Written([call])[0]];
    hide W.Step;
    var one := Written([call]);
    assert one[1..] == [];
    assert W.Run(cfg, After(cfg, st, a), one) == W.Run(cfg, W.Step(cfg, After(cfg, st, a), one[0]), []);
  }

  method EmitToken(w: W.Writer, sym: Printer.Symbol, ghost start: W.State, ghost done: seq<Printer.Call>)
    requires w.View() == After(w.cfg, start, done)
    modifies w
    ensures w.View() == After(w.cfg, start, done + [Printer.Token(sym)])
  {
    AfterCall(w.cfg, start, done, Printer.Token(sym));
    hide W.Step, After;
    w.Token(Printer.Text(sym));
  }

  /** A token with a space on either side. */
  method EmitSpaced(w: W.Writer, sym: Printer.Symbol, ghost start: W.State, ghost done: seq<Printer.Call>)
    requires w.View() == After(w.cfg, start, done)
    modifies w
    ensures w.View() == After(w.cfg, start, done + [Printer.Space, Printer.Token(sym), Printer.Space])
  {
    AfterCall(w.cfg, start, done, Printer.Space);
    AfterCall(w.cfg, start, done + [Printer.Space] + [Printer.Token(sym)], Printer.Space);
    hide W.Step, After;
    w.Space();
    EmitToken(w, sym, start, done + [Printer.Space]);
    w.Space();
    assert done + [Printer.Space] + [Printer.Token(sym)] + [Printer.Space]
        == done + [Printer.Space, Printer.Token(sym), Printer.Space];
  }

  /** `emit_expr`: what it asks the writer for is exactly the call sequence `EmitExpr`. */
  method Emit(w: W.Writer, e: Expr, min: nat, ghost start: W.State, ghost done: seq<Printer.Call>)
    requires w.View() == After(w.cfg, start, done)
    modifies w
    ensures w.View() == After(w.cfg, start, done + Printer.EmitExpr(e, min))
    decreases e, 1
  {
    hide After, Printer.EmitKind;
    if ExprPrec(e) < min {
      EmitToken(w, Printer.Open, start, done);
      EmitKind(w, e, start, done + [Printer.Token(Printer.Open)]);
      EmitToken(w, Printer.Close, start, done + [Printer.Token(Printer.Open)] + Printer.EmitKind(e));
      assert done + [Printer.Token(Printer.Open)] + Printer.EmitKind(e) + [Printer.Token(Printer.Close)]
          == done + Printer.EmitExpr(e, min);
    } else {
      EmitKind(w, e, start, done);
    }
  }

  method EmitKind(w: W.Writer, e: Expr, ghost start: W.State, ghost done: seq<Printer.Call>)
    requires w.View() == After(w.cfg, start, done)
    modifies w
    ensures w.View() == After(w.cfg, start, done + Printer.EmitKind(e))
    decreases e, 0
  {
    hide After, Printer.EmitExpr;
    match e
    case Name(id) =>
      EmitToken(w, Printer.Ident(id), start, done);
    case Binary(op, l, r) =>
      ghost var left := Printer.EmitExpr(l, LeftMin(op));
      ghost var mid := [Printer.Space, Printer.Token(Printer.BinarySym(op)), Printer.Space];
      Emit(w, l, LeftMin(op), start, done);
      EmitSpaced(w, Printer.BinarySym(op), start, done + left);
      Emit(w, r, RightMin(op), start, done + left + mid);
      assert done + left + mid + Printer.EmitExpr(r, RightMin(op)) == done + Printer.EmitKind(e);
    case Unary(op, x) =>
      EmitToken(w, Printer.UnarySym(op), start, done);
      Emit(w, x, PREC_PREFIX, start, done + [Printer.Token(Printer.UnarySym(op))]);
      assert done + [Printer.Token(Printer.UnarySym(op))] + Printer.EmitExpr(x, PREC_PREFIX)
          == done + Printer.EmitKind(e);
    case Postfix(op, x) =>
      Emit(w, x, PREC_POSTFIX, start, done);
      EmitToken(w, Printer.PostfixSym(op), start, done + Printer.EmitExpr(x, PREC_POSTFIX));
      assert done + Printer.EmitExpr(x, PREC_POSTFIX) + [Printer.Token(Printer.PostfixSym(op))]
          == done + Printer.EmitKind(e);
    case Ternary(c, t, f) =>
      ghost var mark := [Printer.Space, Printer.Token(Printer.Mark), Printer.Space];
      ghost var sep := [Printer.Space, Printer.Token(Printer.Separator), Printer.Space];
      ghost var first, second := Printer.EmitExpr(c, PREC_TERNARY + 1), Printer.EmitExpr(t, 0);
      Emit(w, c, PREC_TERNARY + 1, start, done);
      EmitSpaced(w, Printer.Mark, start, done + first);
      Emit(w, t, 0, start, done + first + mark);
      EmitSpaced(w, Printer.Separator, start, done + first + mark + second);
      Emit(w, f, PREC_TERNARY, start, done + first + mark + second + sep);
      assert done + first + mark + second + sep + Printer.EmitExpr(f, PREC_TERNARY)
          == done + Printer.EmitKind(e);
  }

  /** Printing one expression with a fresh writer: the text of `TextOf`. */
  method PrintExpression(indentUnit: string, compact: bool, alnum: char -> bool, e: Expr) returns (s: string)
    ensures s == TextOf(W.Config(indentUnit, compact, alnum), e)
  {
    var w := new W.Writer(indentUnit, compact, alnum);
    Emit(w, e, 0, W.EMPTY, []);
    assert [] + Printer.EmitExpr(e, 0) == Printer.EmitExpr(e, 0);
    s := w.IntoString();
  }
}
