/** The type grammar, `crates/frontend/leek-parser/src/grammar/types.rs`, as far as it reads
    class names, keyword types, generic arguments, unions and function arrows. `TypeErr` stands for a parse that
    reports a diagnostic. */
module TypeGrammar {
  import opened Tokens

  const MAX_RECURSION_DEPTH := 256

  /** `extras` counts the `>`s of a fused `>>` or `>>>` that close enclosing argument lists. */
  datatype TypeRead = TypeErr | TypeOk(rest: seq<Tok>, extras: nat)

  /** Between `ts` and `rest` only tokens other than parentheses were consumed. */
  ghost predicate Plain(ts: seq<Tok>, rest: seq<Tok>) {
    Opens(rest) == Opens(ts) && Load(ts) - Load(rest) == |ts| - |rest|
  }

  /** `parse_type`: the depth guard. */
  function ParseType(ts: seq<Tok>, nullable: bool, depth: nat): (r: TypeRead)
    ensures r.TypeOk? ==> |r.rest| < |ts| && Plain(ts, r.rest)
    decreases |ts|, 3
  {
    if depth + 1 > MAX_RECURSION_DEPTH then TypeErr else ParseTypeInner(ts, nullable, depth + 1)
  }

  function ParseTypeInner(ts: seq<Tok>, nullable: bool, depth: nat): (r: TypeRead)
    ensures r.TypeOk? ==> |r.rest| < |ts| && Plain(ts, r.rest)
    decreases |ts|, 2
  {
    match TypeAtom(ts, depth)
    case TypeErr => TypeErr
    case TypeOk(rest, extras) => if extras > 0 then TypeOk(rest, extras) else TypeTail(rest, nullable, depth)
  }

  /** The keywords that are types. */
  predicate KeywordType(t: Tok) { t in {Reserved("boolean"), Reserved("void"), Reserved("null")} }

  function TypeAtom(ts: seq<Tok>, depth: nat): (r: TypeRead)
    ensures r.TypeOk? ==> |r.rest| < |ts| && Plain(ts, r.rest)
    decreases |ts|, 1
  {
    if Head(ts).Word? || KeywordType(Head(ts)) then
      if Head(ts[1..]) == LtTok then GenericArgs(ts[2..], depth) else TypeOk(ts[1..], 0)
    else if Head(ts) == FatArrow then ParseType(ts[1..], true, depth)
    else TypeErr
  }

  /** What follows an atom: `?` marks where they are allowed, further members of a union, and a
      function arrow. */
  function TypeTail(ts: seq<Tok>, nullable: bool, depth: nat): (r: TypeRead)
    ensures r.TypeOk? ==> |r.rest| <= |ts| && Plain(ts, r.rest)
    decreases |ts|, 0
  {
    if nullable && Head(ts) == Question then TypeTail(ts[1..], nullable, depth)
    else if Head(ts) == Pipe then
      match TypeAtom(ts[1..], depth)
      case TypeErr => TypeErr
      case TypeOk(rest, extras) => if extras > 0 then TypeOk(rest, extras) else TypeTail(rest, nullable, depth)
    else if Head(ts) == FatArrow then ParseType(ts[1..], nullable, depth)
    else TypeOk(ts, 0)
  }

  /** `generic_args`, behind the `<`. */
  function GenericArgs(ts: seq<Tok>, depth: nat): (r: TypeRead)
    ensures r.TypeOk? ==> |r.rest| < |ts| && Plain(ts, r.rest)
    decreases |ts|, 5
  {
    if Head(ts) in {GtTok, ShiftRight, UShiftRight} then CloseArgs(ts) else TypeArgs(ts, depth)
  }

  function TypeArgs(ts: seq<Tok>, depth: nat): (r: TypeRead)
    ensures r.TypeOk? ==> |r.rest| < |ts| && Plain(ts, r.rest)
    decreases |ts|, 4
  {
    match ParseType(ts, true, depth)
    case TypeErr => TypeErr
    case TypeOk(rest, extras) =>
      if extras > 0 then TypeOk(rest, extras - 1)
      else if Head(rest) == Comma then TypeArgs(rest[1..], depth)
      else CloseArgs(rest)
  }

  function CloseArgs(ts: seq<Tok>): (r: TypeRead)
    ensures r.TypeOk? ==> |r.rest| < |ts| && Plain(ts, r.rest)
  {
    match Head(ts)
    case GtTok => TypeOk(ts[1..], 0)
    case ShiftRight => TypeOk(ts[1..], 1)
    case UShiftRight => TypeOk(ts[1..], 2)
    case _ => TypeErr
  }

  // ---- One step of each function ----

  lemma TypeUnfolds(ts: seq<Tok>, nullable: bool, depth: nat)
    ensures ParseType(ts, nullable, depth)
         == if depth + 1 > MAX_RECURSION_DEPTH then TypeErr
            else
              var atom := TypeAtom(ts, depth + 1);
              if atom.TypeErr? || atom.extras > 0 then atom else TypeTail(atom.rest, nullable, depth + 1)
  {
    hide TypeAtom, TypeTail;
  }

  lemma AtomUnfolds(ts: seq<Tok>, depth: nat)
    ensures TypeAtom(ts, depth)
         == if Head(ts).Word? || KeywordType(Head(ts)) then
              if Head(ts[1..]) == LtTok then GenericArgs(ts[2..], depth) else TypeOk(ts[1..], 0)
            else if Head(ts) == FatArrow then ParseType(ts[1..], true, depth)
            else TypeErr
  {
    hide ParseType, GenericArgs;
  }

  lemma TailUnfolds(ts: seq<Tok>, nullable: bool, depth: nat)
    ensures TypeTail(ts, nullable, depth)
         == if nullable && Head(ts) == Question then TypeTail(ts[1..], nullable, depth)
            else if Head(ts) == Pipe then
              var atom := TypeAtom(ts[1..], depth);
              if atom.TypeErr? || atom.extras > 0 then atom else TypeTail(atom.rest, nullable, depth)
            else if Head(ts) == FatArrow then ParseType(ts[1..], nullable, depth)
            else TypeOk(ts, 0)
  {
    hide ParseType, TypeAtom;
  }

  lemma ArgsUnfold(ts: seq<Tok>, depth: nat)
    ensures TypeArgs(ts, depth)
         == var first := ParseType(ts, true, depth);
            if first.TypeErr? then TypeErr
            else if first.extras > 0 then TypeOk(first.rest, first.extras - 1)
            else if Head(first.rest) == Comma then TypeArgs(first.rest[1..], depth)
            else CloseArgs(first.rest)
  {
    hide ParseType, CloseArgs;
  }

  /** Tokens on which the type grammar reads on after a class name. */
  predicate ContinuesType(t: Tok) { t in {LtTok, Pipe, FatArrow} }

  lemma NothingFollows(rest: seq<Tok>, nullable: bool, depth: nat)
    requires !ContinuesType(Head(rest)) && (nullable ==> Head(rest) != Question)
    ensures TypeTail(rest, nullable, depth) == TypeOk(rest, 0)
  {}

  /** A class name is the whole type exactly when nothing that continues a type follows it. */
  lemma PlainType(id: string, rest: seq<Tok>, nullable: bool, depth: nat)
    requires !ContinuesType(Head(rest)) && (nullable ==> Head(rest) != Question)
    ensures ParseType([Word(id)] + rest, nullable, depth)
         == if depth + 1 <= MAX_RECURSION_DEPTH then TypeOk(rest, 0) else TypeErr
  {
    var ts := [Word(id)] + rest;
    assert ts[0] == Word(id) && ts[1..] == rest;
    assert TypeAtom(ts, depth + 1) == TypeOk(rest, 0);
    NothingFollows(rest, nullable, depth + 1);
    hide TypeAtom, TypeTail;
  }

  /** `A | B` is read as one type. */
  lemma UnionType(a: string, b: string, rest: seq<Tok>, depth: nat)
    requires !ContinuesType(Head(rest))
    ensures ParseType([Word(a)] + ([Pipe] + ([Word(b)] + rest)), false, depth)
         == if depth + 1 <= MAX_RECURSION_DEPTH then TypeOk(rest, 0) else TypeErr
  {
    var last := [Word(b)] + rest;
    var tail := [Pipe] + last;
    var ts := [Word(a)] + tail;
    assert ts[0] == Word(a) && ts[1..] == tail && tail[0] == Pipe && tail[1..] == last;
    assert last[0] == Word(b) && last[1..] == rest;
    assert TypeAtom(ts, depth + 1) == TypeOk(tail, 0);
    assert TypeAtom(last, depth + 1) == TypeOk(rest, 0);
    NothingFollows(rest, false, depth + 1);
    assert TypeTail(tail, false, depth + 1) == TypeTail(rest, false, depth + 1);
    hide TypeAtom, TypeTail;
  }

  /** A `<` with a class name and nothing behind it is an argument list that is never closed. */
  lemma OpenArgs(a: string, b: string, depth: nat)
    ensures ParseType([Word(a)] + ([LtTok] + [Word(b)]), false, depth) == TypeErr
  {
    hide ParseType, TypeTail, GenericArgs;
    var args := [Word(b)];
    var tail := [LtTok] + args;
    var ts := [Word(a)] + tail;
    assert ts[0] == Word(a) && ts[1..] == tail && tail[0] == LtTok && ts[2..] == args;
    ArgsStayOpen(b, depth + 1);
    assert TypeAtom(ts, depth + 1) == TypeErr;
    UnguardedType(ts, false, depth);
  }

  lemma ArgsStayOpen(b: string, depth: nat)
    ensures GenericArgs([Word(b)], depth) == TypeErr
  {
    hide ParseType, TypeTail;
    assert [Word(b)] + [] == [Word(b)];
    PlainType(b, [], true, depth);
    assert CloseArgs([]) == TypeErr;
    assert TypeArgs([Word(b)], depth) == TypeErr;
  }

  lemma UnguardedType(ts: seq<Tok>, nullable: bool, depth: nat)
    requires TypeAtom(ts, depth + 1).TypeErr?
    ensures ParseType(ts, nullable, depth) == TypeErr
  {
    GuardedType(ts, nullable, depth);
    hide *;
  }

  /** `A<B>` is read as one type. */
  lemma ClosedArgs(a: string, b: string, rest: seq<Tok>, depth: nat)
    requires !ContinuesType(Head(rest)) && depth + 2 <= MAX_RECURSION_DEPTH
    ensures ParseType([Word(a)] + ([LtTok] + ([Word(b)] + ([GtTok] + rest))), false, depth) == TypeOk(rest, 0)
  {
    hide ParseType, TypeTail, GenericArgs, TypeAtom, Plain;
    var args := [Word(b)] + ([GtTok] + rest);
    var ts := [Word(a)] + ([LtTok] + args);
    ArgsAreClosed(b, rest, depth + 1);
    AtomWithArgs(a, args, depth + 1);
    NothingFollows(rest, false, depth + 1);
    UnguardedRead(ts, depth, rest);
  }

  lemma AtomWithArgs(a: string, args: seq<Tok>, depth: nat)
    ensures TypeAtom([Word(a)] + ([LtTok] + args), depth) == GenericArgs(args, depth)
  {
    hide GenericArgs;
    var tail := [LtTok] + args;
    var ts := [Word(a)] + tail;
    assert ts[0] == Word(a) && ts[1..] == tail && tail[0] == LtTok && ts[2..] == args;
  }

  lemma UnguardedRead(ts: seq<Tok>, depth: nat, rest: seq<Tok>)
    requires depth + 1 <= MAX_RECURSION_DEPTH
    requires TypeAtom(ts, depth + 1) == TypeOk(rest, 0) && TypeTail(rest, false, depth + 1) == TypeOk(rest, 0)
    ensures ParseType(ts, false, depth) == TypeOk(rest, 0)
  {
    hide TypeAtom, TypeTail;
  }

  lemma ArgsAreClosed(b: string, rest: seq<Tok>, depth: nat)
    requires depth + 1 <= MAX_RECURSION_DEPTH
    ensures GenericArgs([Word(b)] + ([GtTok] + rest), depth) == TypeOk(rest, 0)
  {
    hide ParseType, TypeTail;
    var closer := [GtTok] + rest;
    assert closer[0] == GtTok && closer[1..] == rest;
    PlainType(b, closer, true, depth);
    assert CloseArgs(closer) == TypeOk(rest, 0);
    assert TypeArgs([Word(b)] + closer, depth) == TypeOk(rest, 0);
  }

  lemma GuardedType(ts: seq<Tok>, nullable: bool, depth: nat)
    ensures ParseType(ts, nullable, depth).TypeOk? ==>
              var atom := TypeAtom(ts, depth + 1);
              atom.TypeOk?
              && ParseType(ts, nullable, depth)
                 == if atom.extras > 0 then atom else TypeTail(atom.rest, nullable, depth + 1)
  {
    hide TypeAtom, TypeTail;
    var atom := TypeAtom(ts, depth + 1);
    assert ParseTypeInner(ts, nullable, depth + 1)
        == if atom.TypeErr? || atom.extras > 0 then atom else TypeTail(atom.rest, nullable, depth + 1);
  }

  lemma TailTakesMore(ts: seq<Tok>, nullable: bool, depth: nat)
    requires Head(ts) == Pipe || Head(ts) == FatArrow
    ensures var r := TypeTail(ts, nullable, depth); r.TypeOk? ==> Load(r.rest) < Load(ts)
  {
    hide TypeAtom, ParseType;
  }

  /** Where something continues the type, at least one more token is taken. */
  lemma TypeTakesMore(id: string, rest: seq<Tok>, depth: nat)
    requires ContinuesType(Head(rest))
    ensures var r := ParseType([Word(id)] + rest, false, depth); r.TypeOk? ==> Load(r.rest) < Load(rest)
  {
    hide ParseType, TypeTail, GenericArgs;
    var ts := [Word(id)] + rest;
    assert ts[0] == Word(id) && ts[1..] == rest;
    GuardedType(ts, false, depth);
    if Head(rest) == LtTok {
      assert ts[2..] == rest[1..];
      assert TypeAtom(ts, depth + 1) == GenericArgs(rest[1..], depth + 1);
    } else {
      assert TypeAtom(ts, depth + 1) == TypeOk(rest, 0);
      TailTakesMore(rest, false, depth + 1);
    }
    hide TypeAtom;
  }
}
