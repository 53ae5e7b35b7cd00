/** The type grammar against trees of types: what is read is exactly a printed type, whichever way the
    lexer fuses the closing brackets of its argument lists. */
module TypeTrees {
  import opened Tokens
  import opened TypeGrammar

  // ---- Fused closers are closers ----

  /** Every `>>` and `>>>` taken apart. */
  function Apart(ts: seq<Tok>): seq<Tok> {
    if ts == [] then [] else ApartOne(ts[0]) + Apart(ts[1..])
  }

  function ApartOne(t: Tok): seq<Tok> {
    if t == ShiftRight then [GtTok, GtTok] else if t == UShiftRight then [GtTok, GtTok, GtTok] else [t]
  }

  function Closers(n: nat): seq<Tok> { seq(n, _ => GtTok) }

  /** The same result with its pending closers back in front of what is left. */
  function PutBack(r: TypeRead): TypeRead {
    if r.TypeErr? then r else TypeOk(Closers(r.extras) + Apart(r.rest), 0)
  }

  predicate Closer(t: Tok) { t in {GtTok, ShiftRight, UShiftRight} }

  lemma ApartUnfolds(ts: seq<Tok>)
    ensures ts == [] <==> Apart(ts) == []
    ensures Head(Apart(ts)) == if Closer(Head(ts)) then GtTok else Head(ts)
    ensures ts != [] && !Closer(ts[0]) ==> Apart(ts)[1..] == Closers(0) + Apart(ts[1..]) == Apart(ts[1..])
    ensures Closer(Head(ts)) ==> CloseArgs(Apart(ts)) == PutBack(CloseArgs(ts))
  {
    if ts != [] {
      var rest := Apart(ts[1..]);
      assert Apart(ts) == ApartOne(ts[0]) + rest;
      hide Apart;
      FirstApart(ts[0], rest);
      if Closer(ts[0]) {
        ClosesOne(Apart(ts));
        CloserPutBack(ts, rest);
      }
    }
  }

  lemma FirstApart(t: Tok, rest: seq<Tok>)
    ensures var all := ApartOne(t) + rest;
            && all != [] && all[0] == (if Closer(t) then GtTok else t)
            && all[1..] == Closers(if t == UShiftRight then 2 else if t == ShiftRight then 1 else 0) + rest
  {}

  lemma CloserPutBack(ts: seq<Tok>, rest: seq<Tok>)
    requires Closer(Head(ts)) && rest == Apart(ts[1..])
    ensures var n := if ts[0] == UShiftRight then 2 else if ts[0] == ShiftRight then 1 else 0;
            PutBack(CloseArgs(ts)) == TypeOk(Closers(n) + rest, 0)
  {
    hide Apart;
  }

  lemma PendingClosers(n: nat, rest: seq<Tok>)
    requires n > 0
    ensures var ts := Closers(n) + rest; Head(ts) == GtTok && ts[1..] == Closers(n - 1) + rest
  {}

  lemma NothingPending(rest: seq<Tok>)
    ensures Closers(0) + rest == rest
  {}

  lemma {:induction false} TypeApart(ts: seq<Tok>, nullable: bool, depth: nat)
    ensures ParseType(Apart(ts), nullable, depth) == PutBack(ParseType(ts, nullable, depth))
    decreases |ts|, 3
  {
    hide ParseType, TypeAtom, TypeTail, Apart, Plain, Closers;
    TypeUnfolds(ts, nullable, depth);
    TypeUnfolds(Apart(ts), nullable, depth);
    if depth + 1 <= MAX_RECURSION_DEPTH { AtomAndTailApart(ts, nullable, depth + 1); }
  }

  /** An atom and what follows it, `parse_type` without its depth guard. */
  function AtomAndTail(ts: seq<Tok>, nullable: bool, depth: nat): TypeRead {
    var atom := TypeAtom(ts, depth);
    if atom.TypeErr? || atom.extras > 0 then atom else TypeTail(atom.rest, nullable, depth)
  }

  lemma {:induction false} AtomAndTailApart(ts: seq<Tok>, nullable: bool, depth: nat)
    ensures AtomAndTail(Apart(ts), nullable, depth) == PutBack(AtomAndTail(ts, nullable, depth))
    decreases |ts|, 2
  {
    hide TypeAtom, TypeTail, Apart, Plain;
    AtomApart(ts, depth);
    var atom := TypeAtom(ts, depth);
    if atom.TypeOk? {
      if atom.extras > 0 {
        PendingClosers(atom.extras, Apart(atom.rest));
        TailUnfolds(Closers(atom.extras) + Apart(atom.rest), nullable, depth);
      } else {
        NothingPending(Apart(atom.rest));
        TailApart(atom.rest, nullable, depth);
      }
    }
  }

  lemma {:induction false} AtomApart(ts: seq<Tok>, depth: nat)
    ensures TypeAtom(Apart(ts), depth) == PutBack(TypeAtom(ts, depth))
    decreases |ts|, 1
  {
    hide ParseType, GenericArgs, TypeAtom, Apart, CloseArgs, Plain;
    ApartUnfolds(ts);
    if Head(ts).Word? || KeywordType(Head(ts)) {
      NamedApart(ts, depth);
    } else {
      AtomUnfolds(ts, depth);
      AtomUnfolds(Apart(ts), depth);
      if Head(ts) == FatArrow { TypeApart(ts[1..], true, depth); }
    }
  }

  lemma {:induction false} NamedApart(ts: seq<Tok>, depth: nat)
    requires Head(ts).Word? || KeywordType(Head(ts))
    ensures TypeAtom(Apart(ts), depth) == PutBack(TypeAtom(ts, depth))
    decreases |ts|, 0
  {
    hide ParseType, GenericArgs, TypeAtom, Apart, CloseArgs, Plain;
    ApartUnfolds(ts);
    ApartUnfolds(ts[1..]);
    NamedUnfolds(ts, depth);
    NamedUnfolds(Apart(ts), depth);
    if Head(ts[1..]) == LtTok {
      BehindTwo(ts);
      BehindTwo(Apart(ts));
      ArgsApart(ts[2..], depth);
    }
  }

  lemma NamedUnfolds(ts: seq<Tok>, depth: nat)
    requires Head(ts).Word? || KeywordType(Head(ts))
    ensures TypeAtom(ts, depth) == if Head(ts[1..]) == LtTok then GenericArgs(ts[2..], depth) else TypeOk(ts[1..], 0)
  {
    hide TypeAtom, GenericArgs, Plain;
    AtomUnfolds(ts, depth);
  }

  lemma BehindTwo(ts: seq<Tok>)
    requires |ts| >= 2
    ensures ts[1..][1..] == ts[2..]
  {
  }

  lemma {:induction false} TailApart(ts: seq<Tok>, nullable: bool, depth: nat)
    ensures TypeTail(Apart(ts), nullable, depth) == PutBack(TypeTail(ts, nullable, depth))
    decreases |ts|, 0
  {
    hide ParseType, TypeAtom, TypeTail, Apart, CloseArgs, Plain;
    TailUnfolds(ts, nullable, depth);
    TailUnfolds(Apart(ts), nullable, depth);
    ApartUnfolds(ts);
    NothingPending(Apart(ts));
    if ts != [] {
      TypeApart(ts[1..], nullable, depth);
      TailApart(ts[1..], nullable, depth);
      AtomAndTailApart(ts[1..], nullable, depth);
    }
  }

  lemma {:induction false} ArgsApart(ts: seq<Tok>, depth: nat)
    ensures GenericArgs(Apart(ts), depth) == PutBack(GenericArgs(ts, depth))
    decreases |ts|, 5
  {
    hide TypeArgs, CloseArgs, Apart;
    ApartUnfolds(ts);
    ArgListApart(ts, depth);
  }

  lemma {:induction false} ArgListApart(ts: seq<Tok>, depth: nat)
    ensures TypeArgs(Apart(ts), depth) == PutBack(TypeArgs(ts, depth))
    decreases |ts|, 4
  {
    hide ParseType, CloseArgs, TypeArgs, Apart, Plain, Closers;
    ArgsUnfold(ts, depth);
    ArgsUnfold(Apart(ts), depth);
    TypeApart(ts, true, depth);
    var first := ParseType(ts, true, depth);
    if first.TypeOk? {
      if first.extras > 0 {
        ClosesPending(first.extras, Apart(first.rest));
      } else {
        NothingPending(Apart(first.rest));
        CommaApart(first.rest);
        if Head(first.rest) == Comma { ArgListApart(first.rest[1..], depth); }
      }
    }
  }

  lemma CommaApart(ts: seq<Tok>)
    ensures Head(Apart(ts)) == Comma <==> Head(ts) == Comma
    ensures Head(ts) == Comma ==> Apart(ts)[1..] == Apart(ts[1..])
    ensures Head(ts) != Comma ==> CloseArgs(Apart(ts)) == PutBack(CloseArgs(ts))
  {
    hide Apart, CloseArgs;
    ApartUnfolds(ts);
    if !Closer(Head(ts)) {
      OnlyClosersClose(ts);
      OnlyClosersClose(Apart(ts));
    }
  }

  lemma ClosesPending(n: nat, rest: seq<Tok>)
    requires n > 0
    ensures Head(Closers(n) + rest) == GtTok && CloseArgs(Closers(n) + rest) == TypeOk(Closers(n - 1) + rest, 0)
  {
    PendingClosers(n, rest);
    ClosesOne(Closers(n) + rest);
    hide CloseArgs, Closers, Plain;
  }

  lemma ClosesOne(ts: seq<Tok>)
    requires Head(ts) == GtTok
    ensures CloseArgs(ts) == TypeOk(ts[1..], 0)
  {}

  lemma OnlyClosersClose(ts: seq<Tok>)
    requires !Closer(Head(ts))
    ensures CloseArgs(ts) == TypeErr
  {}

  // ---- Trees of types ----

  /** A class name, its arguments if it has a list of them, and what follows. */
  datatype Ty = Ty(id: string, args: Args, next: Next)

  datatype Args = NoList | Empty | Of(list: TyList)

  datatype TyList = One(t: Ty) | Cons(t: Ty, more: TyList)

  /** Nothing, another member of a union, a `?` mark, or the result type of a function arrow. */
  datatype Next = End | Or(t: Ty) | Maybe(next: Next) | To(t: Ty)

  function Written(t: Ty): seq<Tok> { [Word(t.id)] + (WrittenArgs(t.args) + WrittenNext(t.next)) }

  function WrittenArgs(args: Args): seq<Tok> {
    match args
    case NoList => []
    case Empty => [LtTok] + [GtTok]
    case Of(list) => [LtTok] + (WrittenList(list) + [GtTok])
  }

  function WrittenList(list: TyList): seq<Tok> {
    match list
    case One(t) => Written(t)
    case Cons(t, more) => Written(t) + ([Comma] + WrittenList(more))
  }

  function WrittenNext(n: Next): seq<Tok> {
    match n
    case End => []
    case Or(t) => [Pipe] + Written(t)
    case Maybe(next) => [Question] + WrittenNext(next)
    case To(t) => [FatArrow] + Written(t)
  }

  /** `?` marks stand only where they are read: inside argument lists. */
  predicate Marked(t: Ty, nullable: bool) { MarkedArgs(t.args) && MarkedNext(t.next, nullable) }

  predicate MarkedArgs(args: Args) { args.Of? ==> MarkedList(args.list) }

  predicate MarkedList(list: TyList) { Marked(list.t, true) && (list.Cons? ==> MarkedList(list.more)) }

  predicate MarkedNext(n: Next, nullable: bool) {
    match n
    case End => true
    case Or(t) => Marked(t, nullable)
    case Maybe(next) => nullable && MarkedNext(next, nullable)
    case To(t) => Marked(t, nullable)
  }

  /** How many types are nested in it, apart from itself: arguments and arrow results open a new one. */
  function Nesting(t: Ty): nat { Max(NestingArgs(t.args), NestingNext(t.next)) }

  function NestingArgs(args: Args): nat { if args.Of? then NestingList(args.list) else 0 }

  function NestingList(list: TyList): nat {
    match list
    case One(t) => 1 + Nesting(t)
    case Cons(t, more) => Max(1 + Nesting(t), NestingList(more))
  }

  function NestingNext(n: Next): nat {
    match n
    case End => 0
    case Or(t) => Nesting(t)
    case Maybe(next) => NestingNext(next)
    case To(t) => 1 + Nesting(t)
  }

  /** The whole of it is read, within the depth limit. */
  function Whole(depth: nat, rest: seq<Tok>): TypeRead {
    if depth <= MAX_RECURSION_DEPTH then TypeOk(rest, 0) else TypeErr
  }

  predicate Ends(rest: seq<Tok>, nullable: bool) { !ContinuesType(Head(rest)) && (nullable ==> Head(rest) != Question) }

  /** A written type is read as exactly that type, whatever follows that cannot continue it, or is
      nested too deep. */
  lemma {:induction false} TypeIsRead(t: Ty, nullable: bool, depth: nat, rest: seq<Tok>)
    requires Marked(t, nullable) && Ends(rest, nullable) && depth <= MAX_RECURSION_DEPTH
    ensures ParseType(Written(t) + rest, nullable, depth) == Whole(depth + 1 + Nesting(t), rest)
    decreases t, 5
  {
    hide ParseType, TypeAtom, TypeTail, Written, Nesting, Marked, Plain;
    TypeUnfolds(Written(t) + rest, nullable, depth);
    if depth + 1 <= MAX_RECURSION_DEPTH { InnerIsRead(t, nullable, depth + 1, rest); }
  }

  lemma {:induction false} InnerIsRead(t: Ty, nullable: bool, depth: nat, rest: seq<Tok>)
    requires Marked(t, nullable) && Ends(rest, nullable) && depth <= MAX_RECURSION_DEPTH
    ensures AtomAndTail(Written(t) + rest, nullable, depth) == Whole(depth + Nesting(t), rest)
    decreases t, 4
  {
    hide TypeAtom, TypeTail, WrittenArgs, WrittenNext, NestingArgs, NestingNext, Plain;
    var tail := WrittenNext(t.next) + rest;
    assert Written(t) + rest == [Word(t.id)] + (WrittenArgs(t.args) + tail);
    TailStart(t.next, rest);
    AtomIsRead(t.id, t.args, depth, tail);
    if depth + NestingArgs(t.args) <= MAX_RECURSION_DEPTH { TailIsRead(t.next, nullable, depth, rest); }
  }

  lemma TailStart(n: Next, rest: seq<Tok>)
    requires Head(rest) != LtTok
    ensures Head(WrittenNext(n) + rest) != LtTok
  {
    assert n.End? ==> WrittenNext(n) + rest == rest;
  }

  lemma {:induction false} AtomIsRead(id: string, args: Args, depth: nat, tail: seq<Tok>)
    requires MarkedArgs(args) && depth <= MAX_RECURSION_DEPTH && Head(tail) != LtTok
    ensures TypeAtom([Word(id)] + (WrittenArgs(args) + tail), depth) == Whole(depth + NestingArgs(args), tail)
    decreases args, 3
  {
    hide TypeAtom, GenericArgs, MarkedList, NestingList, WrittenList, Plain;
    match args
    case NoList =>
      assert WrittenArgs(args) + tail == tail;
      BareAtom(id, depth, tail);
    case Empty =>
      Behind(LtTok, [GtTok], tail);
      AtomWithArgs(id, [GtTok] + tail, depth);
      EmptyList(tail, depth);
    case Of(list) =>
      Enclosed(WrittenList(list), tail);
      AtomWithArgs(id, WrittenList(list) + ([GtTok] + tail), depth);
      ListIsRead(list, depth, tail);
  }

  lemma Enclosed(list: seq<Tok>, tail: seq<Tok>)
    ensures ([LtTok] + (list + [GtTok])) + tail == [LtTok] + (list + ([GtTok] + tail))
  {}

  lemma BareAtom(id: string, depth: nat, tail: seq<Tok>)
    requires Head(tail) != LtTok
    ensures TypeAtom([Word(id)] + tail, depth) == TypeOk(tail, 0)
  {
    hide TypeAtom, GenericArgs, Plain;
    var ts := [Word(id)] + tail;
    assert ts[0] == Word(id) && ts[1..] == tail;
    AtomUnfolds(ts, depth);
  }

  lemma EmptyList(tail: seq<Tok>, depth: nat)
    ensures GenericArgs([GtTok] + tail, depth) == TypeOk(tail, 0)
  {
    hide TypeArgs;
  }

  lemma {:induction false} ListIsRead(list: TyList, depth: nat, tail: seq<Tok>)
    requires MarkedList(list) && depth <= MAX_RECURSION_DEPTH
    ensures GenericArgs(WrittenList(list) + ([GtTok] + tail), depth) == Whole(depth + NestingList(list), tail)
    decreases list, 2
  {
    hide TypeArgs, NestingList;
    ArgsAreRead(list, depth, tail);
    ListStart(list, [GtTok] + tail);
  }

  lemma ListStart(list: TyList, tail: seq<Tok>)
    ensures Head(WrittenList(list) + tail).Word?
  {
    hide WrittenArgs, WrittenNext;
  }

  lemma {:induction false} ArgsAreRead(list: TyList, depth: nat, tail: seq<Tok>)
    requires MarkedList(list) && depth <= MAX_RECURSION_DEPTH
    ensures TypeArgs(WrittenList(list) + ([GtTok] + tail), depth) == Whole(depth + NestingList(list), tail)
    decreases list, 1
  {
    hide TypeArgs, ParseType, CloseArgs, Written, Nesting, Marked, Plain;
    var closing := [GtTok] + tail;
    match list
    case One(t) =>
      TypeIsRead(t, true, depth, closing);
      ArgsEnd(Written(t), depth, depth + 1 + Nesting(t), tail);
    case Cons(t, more) =>
      var others := WrittenList(more) + closing;
      Listed(Written(t), WrittenList(more), closing);
      TypeIsRead(t, true, depth, [Comma] + others);
      ArgsGoOn(Written(t), others, depth, depth + 1 + Nesting(t));
      ArgsAreRead(more, depth, tail);
  }

  lemma ArgsEnd(first: seq<Tok>, depth: nat, deepest: nat, tail: seq<Tok>)
    requires ParseType(first + ([GtTok] + tail), true, depth) == Whole(deepest, [GtTok] + tail)
    ensures TypeArgs(first + ([GtTok] + tail), depth) == Whole(deepest, tail)
  {
    hide TypeArgs, ParseType, CloseArgs, Plain;
    ArgsUnfold(first + ([GtTok] + tail), depth);
    ClosesOne([GtTok] + tail);
  }

  lemma ArgsGoOn(first: seq<Tok>, others: seq<Tok>, depth: nat, deepest: nat)
    requires ParseType(first + ([Comma] + others), true, depth) == Whole(deepest, [Comma] + others)
    ensures TypeArgs(first + ([Comma] + others), depth)
         == if deepest <= MAX_RECURSION_DEPTH then TypeArgs(others, depth) else TypeErr
  {
    hide TypeArgs, ParseType, CloseArgs, Plain;
    ArgsUnfold(first + ([Comma] + others), depth);
    assert ([Comma] + others)[1..] == others;
  }

  lemma Listed(first: seq<Tok>, others: seq<Tok>, closing: seq<Tok>)
    ensures (first + ([Comma] + others)) + closing == first + ([Comma] + (others + closing))
  {}

  lemma {:induction false} TailIsRead(n: Next, nullable: bool, depth: nat, rest: seq<Tok>)
    requires MarkedNext(n, nullable) && Ends(rest, nullable) && depth <= MAX_RECURSION_DEPTH
    ensures TypeTail(WrittenNext(n) + rest, nullable, depth) == Whole(depth + NestingNext(n), rest)
    decreases n, 1
  {
    hide ParseType, AtomAndTail, TypeTail, Written, Nesting, Marked, Plain;
    match n
    case End =>
      assert WrittenNext(n) + rest == rest;
      NothingFollows(rest, nullable, depth);
    case Or(t) =>
      Behind(Pipe, Written(t), rest);
      TailStep(Pipe, Written(t) + rest, nullable, depth);
      InnerIsRead(t, nullable, depth, rest);
    case Maybe(next) =>
      Behind(Question, WrittenNext(next), rest);
      TailStep(Question, WrittenNext(next) + rest, nullable, depth);
      TailIsRead(next, nullable, depth, rest);
    case To(t) =>
      Behind(FatArrow, Written(t), rest);
      TailStep(FatArrow, Written(t) + rest, nullable, depth);
      TypeIsRead(t, nullable, depth, rest);
  }

  lemma Behind(t: Tok, a: seq<Tok>, b: seq<Tok>)
    ensures ([t] + a) + b == [t] + (a + b)
  {}

  lemma TailStep(first: Tok, more: seq<Tok>, nullable: bool, depth: nat)
    ensures TypeTail([first] + more, nullable, depth)
         == if nullable && first == Question then TypeTail(more, nullable, depth)
            else if first == Pipe then AtomAndTail(more, nullable, depth)
            else if first == FatArrow then ParseType(more, nullable, depth)
            else TypeOk([first] + more, 0)
  {
    hide TypeTail, TypeAtom, ParseType, Plain;
    var ts := [first] + more;
    assert ts[0] == first && ts[1..] == more;
    TailUnfolds(ts, nullable, depth);
  }

  /** However the closers of a written type are fused, it is read as that type. */
  lemma FusedTypeIsRead(t: Ty, ts: seq<Tok>, rest: seq<Tok>, depth: nat)
    requires Marked(t, false) && Ends(rest, false) && Head(rest) != GtTok
    requires depth + 1 + Nesting(t) <= MAX_RECURSION_DEPTH
    requires Apart(ts) == Written(t) + rest
    ensures var r := ParseType(ts, false, depth); r.TypeOk? && r.extras == 0 && Apart(r.rest) == rest
  {
    hide ParseType, Written, Nesting, Apart, Marked;
    TypeApart(ts, false, depth);
    TypeIsRead(t, false, depth, rest);
    var r := ParseType(ts, false, depth);
    if r.extras > 0 {
      PendingClosers(r.extras, Apart(r.rest));
    } else {
      NothingPending(Apart(r.rest));
    }
  }
}
