/** Operators with two spellings: `and`, `or` and a prefix `not` are read exactly as their symbols,
    in every token sequence, whether or not the printer ever writes them. */
module Spellings {
  import opened Options
  import opened Operators
  import opened Tokens
  import opened TypeGrammar
  import opened Pratt
  import opened ParseInverse
  import opened Turns
  import opened Reparse
  import opened Lexer
  import opened PrintedText
  import Printer
  import W = LsWriter

  /** `&&` for `and`, `||` for `or`. */
  function Symbol(t: Tok): Tok { if t == KwAnd then AmpAmp else if t == KwOr then PipePipe else t }

  function Symbols(ts: seq<Tok>): seq<Tok> {
    if ts == [] then [] else [Symbol(ts[0])] + Symbols(ts[1..])
  }

  lemma SymbolsUnfold(ts: seq<Tok>)
    ensures Symbols(ts) == [] <==> ts == []
    ensures ts != [] ==> Symbols(ts)[0] == Symbol(ts[0]) && Symbols(ts)[1..] == Symbols(ts[1..])
    ensures Head(Symbols(ts)) == Symbol(Head(ts))
  {
    hide Symbol;
    assert ts == [] ==> Symbol(Eof) == Eof by { SymbolOfEof(); }
  }

  lemma SymbolOfEof()
    ensures Symbol(Eof) == Eof
  {}

  lemma SymbolsBehindTwo(ts: seq<Tok>)
    requires |ts| >= 2
    ensures |Symbols(ts)| >= 2 && Symbols(ts)[2..] == Symbols(ts[2..])
  {
    hide Symbols;
    SymbolsUnfold(ts);
    SymbolsUnfold(ts[1..]);
    assert ts[1..][1..] == ts[2..] && Symbols(ts)[1..][1..] == Symbols(ts)[2..];
  }

  // ---- Types do not tell them apart ----

  function TypeInSymbols(r: TypeRead): TypeRead { if r.TypeErr? then r else TypeOk(Symbols(r.rest), r.extras) }

  lemma {:induction false} TypeSpelled(ts: seq<Tok>, nullable: bool, depth: nat)
    ensures ParseType(Symbols(ts), nullable, depth) == TypeInSymbols(ParseType(ts, nullable, depth))
    decreases |ts|, 3
  {
    hide ParseType, TypeAtom, TypeTail, Symbols;
    TypeUnfolds(ts, nullable, depth);
    TypeUnfolds(Symbols(ts), nullable, depth);
    if depth + 1 <= MAX_RECURSION_DEPTH {
      AtomSpelled(ts, depth + 1);
      var atom := TypeAtom(ts, depth + 1);
      if atom.TypeOk? { TailSpelled(atom.rest, nullable, depth + 1); }
    }
  }

  lemma {:induction false} AtomSpelled(ts: seq<Tok>, depth: nat)
    ensures TypeAtom(Symbols(ts), depth) == TypeInSymbols(TypeAtom(ts, depth))
    decreases |ts|, 1
  {
    hide ParseType, GenericArgs, TypeAtom, Symbols, Plain;
    AtomUnfolds(ts, depth);
    AtomUnfolds(Symbols(ts), depth);
    SymbolsUnfold(ts);
    KeywordTypeKept(Head(ts));
    if ts != [] {
      SymbolsUnfold(ts[1..]);
      if ts[0] == FatArrow {
        TypeSpelled(ts[1..], true, depth);
      } else if Head(ts[1..]) == LtTok {
        SymbolsBehindTwo(ts);
        ArgsSpelled(ts[2..], depth);
      }
    }
  }

  lemma KeywordTypeKept(t: Tok)
    ensures KeywordType(Symbol(t)) <==> KeywordType(t)
  {}

  lemma {:induction false} TailSpelled(ts: seq<Tok>, nullable: bool, depth: nat)
    ensures TypeTail(Symbols(ts), nullable, depth) == TypeInSymbols(TypeTail(ts, nullable, depth))
    decreases |ts|, 0
  {
    hide ParseType, TypeAtom, TypeTail, Symbols;
    TailUnfolds(ts, nullable, depth);
    TailUnfolds(Symbols(ts), nullable, depth);
    SymbolsUnfold(ts);
    if ts != [] {
      TypeSpelled(ts[1..], nullable, depth);
      TailSpelled(ts[1..], nullable, depth);
      AtomSpelled(ts[1..], depth);
      var atom := TypeAtom(ts[1..], depth);
      if atom.TypeOk? { TailSpelled(atom.rest, nullable, depth); }
    }
  }

  lemma {:induction false} ArgsSpelled(ts: seq<Tok>, depth: nat)
    ensures GenericArgs(Symbols(ts), depth) == TypeInSymbols(GenericArgs(ts, depth))
    decreases |ts|, 5
  {
    hide TypeArgs, CloseArgs, Symbols;
    SymbolsUnfold(ts);
    CloserSpelled(ts);
    ArgListSpelled(ts, depth);
  }

  lemma {:induction false} ArgListSpelled(ts: seq<Tok>, depth: nat)
    ensures TypeArgs(Symbols(ts), depth) == TypeInSymbols(TypeArgs(ts, depth))
    decreases |ts|, 4
  {
    hide ParseType, TypeArgs, CloseArgs, Symbols, Plain;
    ArgsUnfold(ts, depth);
    ArgsUnfold(Symbols(ts), depth);
    TypeSpelled(ts, true, depth);
    var first := ParseType(ts, true, depth);
    if first.TypeOk? {
      SymbolsUnfold(first.rest);
      CloserSpelled(first.rest);
      if Head(first.rest) == Comma { ArgListSpelled(first.rest[1..], depth); }
    }
  }

  lemma CloserSpelled(ts: seq<Tok>)
    ensures CloseArgs(Symbols(ts)) == TypeInSymbols(CloseArgs(ts))
  {
    hide Symbols, Symbol;
    SymbolsUnfold(ts);
    CloserKept(Head(ts));
  }

  lemma CloserKept(t: Tok)
    ensures Symbol(t) == t || (t in {KwAnd, KwOr} && Symbol(t) in {AmpAmp, PipePipe})
  {}

  // ---- Nor do expressions ----

  function InSymbols(p: Parsed): Parsed { if p.Err? then p else Ok(p.e, Symbols(p.rest)) }

  /** A spelled-out operator has the powers and the node of its symbol. */
  lemma SameOperator(t: Tok)
    ensures BinaryBp(Symbol(t)) == BinaryBp(t) && PostfixOf(Symbol(t)) == PostfixOf(t)
             && UnaryOf(Symbol(t)) == UnaryOf(t)
    ensures BinaryBp(t).Some? ==> forall l, r :: Combine(Symbol(t), l, r) == Combine(t, l, r)
  {}

  lemma {:induction false} ExprSpelled(ts: seq<Tok>, m: nat, d: nat)
    ensures ExprBp(Symbols(ts), m, d) == InSymbols(ExprBp(ts, m, d))
    decreases |ts|, 4
  {
    hide ExprBp, Loop, AtomOrPrefix, Symbols;
    ExprUnfolds(ts, m, d);
    ExprUnfolds(Symbols(ts), m, d);
    if d + 1 <= MAX_RECURSION_DEPTH {
      OperandSpelled(ts, d + 1);
      var first := AtomOrPrefix(ts, d + 1);
      if first.Ok? { LoopSpelled(first.e, first.rest, m, d + 1); }
    }
  }

  lemma ExprUnfolds(ts: seq<Tok>, m: nat, d: nat)
    ensures ExprBp(ts, m, d)
         == if d + 1 > MAX_RECURSION_DEPTH then Err
            else
              var first := AtomOrPrefix(ts, d + 1);
              if first.Err? then Err else Loop(first.e, first.rest, m, d + 1)
  {
    hide AtomOrPrefix, Loop;
  }

  lemma {:induction false} OperandSpelled(ts: seq<Tok>, d: nat)
    ensures AtomOrPrefix(Symbols(ts), d) == InSymbols(AtomOrPrefix(ts, d))
    decreases |ts|, 1
  {
    hide ExprBp, AtomOrPrefix, Symbols, BinaryBp, PostfixOf, UnaryOf, Combine;
    OperandUnfolds(ts, d);
    OperandUnfolds(Symbols(ts), d);
    SymbolsUnfold(ts);
    if ts == [] {
    } else if ts[0] == LParen {
      ExprSpelled(ts[1..], 0, d);
      var inner := ExprBp(ts[1..], 0, d);
      if inner.Ok? { SymbolsUnfold(inner.rest); }
    } else {
      SameOperator(ts[0]);
      ExprSpelled(ts[1..], PREFIX_BP, d);
    }
  }

  lemma OperandUnfolds(ts: seq<Tok>, d: nat)
    ensures AtomOrPrefix(ts, d)
         == if ts == [] then Err
            else if ts[0].Word? then Ok(Name(ts[0].id), ts[1..])
            else if ts[0] == LParen then
              var inner := ExprBp(ts[1..], 0, d);
              if inner.Ok? && Head(inner.rest) == RParen then Ok(inner.e, inner.rest[1..]) else Err
            else if UnaryOf(ts[0]).Some? then
              var operand := ExprBp(ts[1..], PREFIX_BP, d);
              if operand.Ok? then Ok(Unary(UnaryOf(ts[0]).value, operand.e), operand.rest) else Err
            else Err
  {
    hide ExprBp, UnaryOf;
  }

  lemma {:induction false} LoopSpelled(lhs: Expr, ts: seq<Tok>, m: nat, d: nat)
    ensures Loop(lhs, Symbols(ts), m, d) == InSymbols(Loop(lhs, ts, m, d))
    decreases |ts|, 3
  {
    hide Loop, ExprBp, Combine, BinaryBp, PostfixOf, InstanceofType, Symbols;
    SymbolsUnfold(ts);
    if ts == [] {
      EmptyLoop(lhs, m, d);
    } else {
      SameOperator(ts[0]);
      SymbolsUnfold(ts[1..]);
      if ts[0] == KwInstanceof {
        TypeTestSpelled(lhs, ts, m, d);
      } else if ts[0] == KwNot && Head(ts[1..]) == KwIn {
        NotInSpelled(lhs, ts, m, d);
      } else if ts[0] == Question && Head(ts[1..]) != Question && m <= TERNARY_BP_L {
        TernarySpelled(lhs, ts, m, d);
      } else if m <= POSTFIX_BP && PostfixOf(ts[0]).Some? {
        PostfixSpelled(lhs, ts, m, d);
      } else if ts[0] != LParen && BinaryBp(ts[0]).Some? && m <= BinaryBp(ts[0]).value.0 {
        InfixSpelled(lhs, ts, m, d);
      } else {
        StopsAlike(lhs, ts, m, d);
      }
    }
  }

  lemma EmptyLoop(lhs: Expr, m: nat, d: nat)
    ensures Loop(lhs, [], m, d) == Ok(lhs, [])
  {}

  lemma StopsAlike(lhs: Expr, ts: seq<Tok>, m: nat, d: nat)
    requires ts != [] && ts[0] != KwInstanceof && !(ts[0] == KwNot && Head(ts[1..]) == KwIn)
    requires !(ts[0] == Question && Head(ts[1..]) != Question && m <= TERNARY_BP_L)
    requires !(m <= POSTFIX_BP && PostfixOf(ts[0]).Some?)
    requires ts[0] == LParen || !(BinaryBp(ts[0]).Some? && m <= BinaryBp(ts[0]).value.0)
    ensures Loop(lhs, Symbols(ts), m, d) == InSymbols(Loop(lhs, ts, m, d))
  {
    hide Loop, BinaryBp, PostfixOf, Symbols;
    SymbolsUnfold(ts);
    SymbolsUnfold(ts[1..]);
    SameOperator(ts[0]);
    LoopStops(lhs, ts, m, d);
    LoopStops(lhs, Symbols(ts), m, d);
  }

  lemma LoopStops(lhs: Expr, ts: seq<Tok>, m: nat, d: nat)
    requires ts != [] && ts[0] != KwInstanceof && !(ts[0] == KwNot && Head(ts[1..]) == KwIn)
    requires !(ts[0] == Question && Head(ts[1..]) != Question && m <= TERNARY_BP_L)
    requires !(m <= POSTFIX_BP && PostfixOf(ts[0]).Some?)
    requires ts[0] == LParen || !(BinaryBp(ts[0]).Some? && m <= BinaryBp(ts[0]).value.0)
    ensures Loop(lhs, ts, m, d) == if ts[0] == LParen then Err else Ok(lhs, ts)
  {
    hide ExprBp, InstanceofType, Combine, BinaryBp, PostfixOf;
  }

  lemma {:induction false} PostfixSpelled(lhs: Expr, ts: seq<Tok>, m: nat, d: nat)
    requires ts != [] && PostfixOf(ts[0]).Some? && m <= POSTFIX_BP
    ensures Loop(lhs, Symbols(ts), m, d) == InSymbols(Loop(lhs, ts, m, d))
    decreases |ts|, 2
  {
    hide Loop, LeftPower, Symbols, PostfixOf, Load, Opens;
    SameOperator(ts[0]);
    SymbolsUnfold(ts);
    PostfixTurnReads(lhs, ts, m, d);
    PostfixTurnReads(lhs, Symbols(ts), m, d);
    LoopSpelled(Postfix(PostfixOf(ts[0]).value, lhs), ts[1..], m, d);
  }

  lemma {:induction false} TypeTestSpelled(lhs: Expr, ts: seq<Tok>, m: nat, d: nat)
    requires ts != [] && ts[0] == KwInstanceof
    ensures Loop(lhs, Symbols(ts), m, d) == InSymbols(Loop(lhs, ts, m, d))
    decreases |ts|, 2
  {
    hide Loop, ParseType, Symbols;
    SymbolsUnfold(ts);
    SymbolsUnfold(ts[1..]);
    TypeSpelled(ts[1..], false, d);
    var ty := ParseType(ts[1..], false, d);
    LoopAtTypeTest(lhs, ts, m, d);
    LoopAtTypeTest(lhs, Symbols(ts), m, d);
    if ty.TypeOk? && Head(ts[1..]).Word? {
      LoopSpelled(Binary(Instanceof, lhs, Name(ts[1].id)), ty.rest, m, d);
    }
  }

  lemma LoopAtTypeTest(lhs: Expr, ts: seq<Tok>, m: nat, d: nat)
    requires ts != [] && ts[0] == KwInstanceof
    ensures Loop(lhs, ts, m, d)
         == if 40 < m then Ok(lhs, ts)
            else
              var ty := ParseType(ts[1..], false, d);
              if ty.TypeErr? || !Head(ts[1..]).Word? then Err
              else Loop(Binary(Instanceof, lhs, Name(ts[1].id)), ty.rest, m, d)
  {
    hide ExprBp, ParseType;
  }

  lemma {:induction false} NotInSpelled(lhs: Expr, ts: seq<Tok>, m: nat, d: nat)
    requires ts != [] && ts[0] == KwNot && Head(ts[1..]) == KwIn
    ensures Loop(lhs, Symbols(ts), m, d) == InSymbols(Loop(lhs, ts, m, d))
    decreases |ts|, 2
  {
    hide Loop, ExprBp, Symbols;
    SymbolsUnfold(ts);
    SymbolsUnfold(ts[1..]);
    LoopAtNotIn(lhs, ts, m, d);
    LoopAtNotIn(lhs, Symbols(ts), m, d);
    SymbolsBehindTwo(ts);
    ExprSpelled(ts[2..], 41, d);
    var right := ExprBp(ts[2..], 41, d);
    if right.Ok? { LoopSpelled(Binary(NotIn, lhs, right.e), right.rest, m, d); }
  }

  lemma LoopAtNotIn(lhs: Expr, ts: seq<Tok>, m: nat, d: nat)
    requires ts != [] && ts[0] == KwNot && Head(ts[1..]) == KwIn
    ensures |ts| >= 2
    ensures Loop(lhs, ts, m, d)
         == if 40 < m then Ok(lhs, ts)
            else
              var right := ExprBp(ts[2..], 41, d);
              if right.Err? then Err else Loop(Binary(NotIn, lhs, right.e), right.rest, m, d)
  {
    hide ExprBp, InstanceofType;
  }

  lemma {:induction false} TernarySpelled(lhs: Expr, ts: seq<Tok>, m: nat, d: nat)
    requires ts != [] && ts[0] == Question && Head(ts[1..]) != Question && m <= TERNARY_BP_L
    ensures Loop(lhs, Symbols(ts), m, d) == InSymbols(Loop(lhs, ts, m, d))
    decreases |ts|, 2
  {
    hide Loop, ExprBp, Symbols;
    SymbolsUnfold(ts);
    SymbolsUnfold(ts[1..]);
    LoopAtTernary(lhs, ts, m, d);
    LoopAtTernary(lhs, Symbols(ts), m, d);
    ExprSpelled(ts[1..], 0, d);
    var first := ExprBp(ts[1..], 0, d);
    if first.Ok? {
      SymbolsUnfold(first.rest);
      if Head(first.rest) == Colon {
        ExprSpelled(first.rest[1..], TERNARY_BP_R, d);
        var second := ExprBp(first.rest[1..], TERNARY_BP_R, d);
        if second.Ok? { LoopSpelled(Ternary(lhs, first.e, second.e), second.rest, m, d); }
      }
    }
  }

  lemma LoopAtTernary(lhs: Expr, ts: seq<Tok>, m: nat, d: nat)
    requires ts != [] && ts[0] == Question && Head(ts[1..]) != Question && m <= TERNARY_BP_L
    ensures Loop(lhs, ts, m, d)
         == var first := ExprBp(ts[1..], 0, d);
            if first.Err? || Head(first.rest) != Colon then Err
            else
              var second := ExprBp(first.rest[1..], TERNARY_BP_R, d);
              if second.Err? then Err else Loop(Ternary(lhs, first.e, second.e), second.rest, m, d)
  {
    hide ExprBp, InstanceofType;
  }

  lemma {:induction false} InfixSpelled(lhs: Expr, ts: seq<Tok>, m: nat, d: nat)
    requires ts != [] && BinaryBp(ts[0]).Some? && m <= BinaryBp(ts[0]).value.0
    ensures Loop(lhs, Symbols(ts), m, d) == InSymbols(Loop(lhs, ts, m, d))
    decreases |ts|, 2
  {
    hide Loop, ExprBp, Symbols, BinaryBp, Combine;
    SameOperator(ts[0]);
    SymbolsUnfold(ts);
    LoopAtInfix(lhs, ts, m, d);
    LoopAtInfix(lhs, Symbols(ts), m, d);
    ExprSpelled(ts[1..], BinaryBp(ts[0]).value.1, d);
    var right := ExprBp(ts[1..], BinaryBp(ts[0]).value.1, d);
    if right.Ok? { LoopSpelled(Combine(ts[0], lhs, right.e), right.rest, m, d); }
  }

  lemma LoopAtInfix(lhs: Expr, ts: seq<Tok>, m: nat, d: nat)
    requires ts != [] && BinaryBp(ts[0]).Some? && m <= BinaryBp(ts[0]).value.0
    ensures Loop(lhs, ts, m, d)
         == var right := ExprBp(ts[1..], BinaryBp(ts[0]).value.1, d);
            if right.Err? then Err else Loop(Combine(ts[0], lhs, right.e), right.rest, m, d)
  {
    hide ExprBp, InstanceofType, Combine;
  }

  /** Over every token sequence and depth: writing `&&` for `and` and `||` for `or` changes nothing. */
  lemma SpellingIsIrrelevant(ts: seq<Tok>, depth: nat)
    ensures Parse(Symbols(ts), depth) == Parse(ts, depth)
  {
    hide ExprBp;
    ExprSpelled(ts, 0, depth);
    var p := ExprBp(ts, 0, depth);
    if p.Ok? { SymbolsUnfold(p.rest); }
  }

  /** Wherever an operand begins, `not` is read as `!`. */
  lemma PrefixNotIsBang(rest: seq<Tok>, m: nat, d: nat)
    ensures ExprBp([KwNot] + rest, m, d) == ExprBp([Bang] + rest, m, d)
  {
    hide ExprBp, Loop, AtomOrPrefix;
    ExprUnfolds([KwNot] + rest, m, d);
    ExprUnfolds([Bang] + rest, m, d);
    SameOperand(rest, d + 1);
  }

  lemma SameOperand(rest: seq<Tok>, d: nat)
    ensures AtomOrPrefix([KwNot] + rest, d) == AtomOrPrefix([Bang] + rest, d)
  {
    hide ExprBp;
    assert ([KwNot] + rest)[1..] == rest == ([Bang] + rest)[1..];
  }

  // ---- Down to characters ----

  /** Two operands around an operator word. */
  lemma WordsLex(v: Version, cfg: W.Config, a: string, word: string, b: string)
    requires Lexical(cfg) && IsWord(a) && IsWord(word) && IsWord(b)
    ensures Lex(v, a + " " + word + " " + b) == Some([KeywordOf(v, a), KeywordOf(v, word), KeywordOf(v, b)])
  {
    hide Lex, KeywordOf, IsWord;
    TwoWords(v, cfg, a, word);
    LexWord(v, b);
    LexBlank(v, " ");
    var front := a + " " + word;
    W.BlankSeparates(cfg, front, " ");
    LexConcat(v, cfg, front, " ");
    assert W.Separated(cfg, front + " ", b) by { assert W.IsBlank(' '); }
    LexConcat(v, cfg, front + " ", b);
    var x, y, z := KeywordOf(v, a), KeywordOf(v, word), KeywordOf(v, b);
    assert [x, y] + [] == [x, y] && [x, y] + [z] == [x, y, z];
  }

  /** `a and b` and `a or b` are the conjunction and the disjunction, in every version. */
  lemma AndOrInText(v: Version, cfg: W.Config, a: string, b: string, depth: nat)
    requires Lexical(cfg) && NamesOk(v, Name(a)) && NamesOk(v, Name(b)) && depth + 2 <= MAX_RECURSION_DEPTH
    ensures ParseText(v, a + " and " + b, depth) == Some(Binary(And, Name(a), Name(b)))
    ensures ParseText(v, a + " or " + b, depth) == Some(Binary(Or, Name(a), Name(b)))
  {
    hide Lex, KeywordOf, IsWord, Parse;
    AndOrAreWords(v);
    WordsLex(v, cfg, a, "and", b);
    WordsLex(v, cfg, a, "or", b);
    assert a + " " + "and" + " " + b == a + " and " + b && a + " " + "or" + " " + b == a + " or " + b;
    SpelledInfix(And, a, b, KwAnd, depth);
    SpelledInfix(Or, a, b, KwOr, depth);
  }

  lemma AndOrAreWords(v: Version)
    ensures IsWord("and") && IsWord("or") && KeywordOf(v, "and") == KwAnd && KeywordOf(v, "or") == KwOr
  {
    hide ReservedWord, Lower;
    LowerKeeps("and");
    LowerKeeps("or");
  }

  lemma SpelledInfix(op: BinaryOp, a: string, b: string, t: Tok, depth: nat)
    requires (op == And && t == KwAnd) || (op == Or && t == KwOr)
    requires depth + 2 <= MAX_RECURSION_DEPTH
    ensures Parse([Word(a), t, Word(b)], depth) == Some(Binary(op, Name(a), Name(b)))
  {
    hide Parse, Shallow, TypeClash, Printer.Print;
    var e := Binary(op, Name(a), Name(b));
    PrintsInfix(op, a, b);
    ThreeSymbols(Word(a), t, Word(b));
    SpellingIsIrrelevant([Word(a), t, Word(b)], depth);
    SimpleFits(op, a, b, depth + 1);
    RoundTrip(e, depth);
  }

  lemma PrintsInfix(op: BinaryOp, a: string, b: string)
    requires op in {And, Or}
    ensures Printer.Print(Binary(op, Name(a), Name(b)), 0) == [Word(a), Printer.BinaryKind(op), Word(b)]
  {
    assert Printer.Print(Name(a), LeftMin(op)) == [Word(a)] && Printer.Print(Name(b), RightMin(op)) == [Word(b)];
    hide Printer.Print;
    assert Printer.PrintKind(Binary(op, Name(a), Name(b))) == [Word(a)] + ([Printer.BinaryKind(op)] + [Word(b)]);
    NothingBinds(Binary(op, Name(a), Name(b)));
  }

  lemma NothingBinds(e: Expr)
    ensures Printer.Print(e, 0) == Printer.PrintKind(e)
  {}

  lemma ThreeSymbols(x: Tok, y: Tok, z: Tok)
    ensures Symbols([x, y, z]) == [Symbol(x), Symbol(y), Symbol(z)]
  {
    hide Symbol;
    assert [x, y, z][1..] == [y, z] && [y, z][1..] == [z] && [z][1..] == [];
    assert Symbols([z]) == [Symbol(z)] && Symbols([y, z]) == [Symbol(y)] + [Symbol(z)];
  }

  lemma SimpleFits(op: BinaryOp, a: string, b: string, d: nat)
    requires op in {And, Or} && d + 1 <= MAX_RECURSION_DEPTH
    ensures !TypeClash(Binary(op, Name(a), Name(b)), 0, Eof) && Shallow(Binary(op, Name(a), Name(b)), 0, d)
  {
    NameFits(a, LeftMin(op), Printer.BinaryKind(op));
    NameFits(b, RightMin(op), Eof);
    hide Nesting, TypeClash;
    var e := Binary(op, Name(a), Name(b));
    assert !KindClash(e, Eof) && KindNesting(e) == 1;
    BareFits(e, 0, d, Eof);
  }

  lemma NameFits(a: string, min: nat, next: Tok)
    requires min <= PREC_ATOM
    ensures Nesting(Name(a), min) == 0 && !TypeClash(Name(a), min, next)
  {
    assert KindNesting(Name(a)) == 0 && !KindClash(Name(a), next);
  }
}
