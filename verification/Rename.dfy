/** Overload renaming of the LeekScript printer,
    `crates/backends/leek-backend-leekscript/src/rename.rs`. The groups are walked in the order of
    their names, as the source's sorted map does, so the spelling of every item is determined. */
module Rename {
  import opened Decimals
  import opened Sequences
  import opened StringOrder

  /** A top-level definition; `emitted` is the answer of `will_emit`. */
  datatype Def = Function(name: string, emitted: bool) | Other

  type DefId = nat
  type Names = map<DefId, string>

  /** The item is a function that takes part in the renaming. */
  predicate Emitted(defs: seq<Def>, id: DefId) {
    id < |defs| && defs[id].Function? && defs[id].emitted
  }

  function NameOf(defs: seq<Def>, id: DefId): string
    requires Emitted(defs, id)
  {
    defs[id].name
  }

  /** Another emitted item has the same name. */
  ghost predicate Overloaded(items: seq<DefId>, defs: seq<Def>, id: DefId)
    requires Emitted(defs, id)
  {
    exists other :: other in items && other != id && Emitted(defs, other) && NameOf(defs, other) == NameOf(defs, id)
  }

  ghost predicate Injective(names: Names) {
    forall a, b :: a in names && b in names && names[a] == names[b] ==> a == b
  }

  // ---- Suffixed names ----

  function Suffixed(name: string, k: nat): string { name + "_" + Decimal(k) }

  /** A suffixed spelling determines the name and the number. */
  lemma SuffixedIsInjective(name: string, j: nat, other: string, k: nat)
    requires Suffixed(name, j) == Suffixed(other, k)
    ensures name == other && j == k
  {
    DecimalIsDigits(j);
    DecimalIsDigits(k);
    var x, y := Decimal(j), Decimal(k);
    hide Decimal;
    assert '_' !in x && '_' !in y;
    SplitAtLast(name, x, other, y);
    DecimalIsInjective(j, k);
  }

  lemma SplitAtLast(a: string, x: string, b: string, y: string)
    requires a + "_" + x == b + "_" + y && '_' !in x && '_' !in y
    ensures a == b && x == y
  {
    var s, t := a + "_" + x, b + "_" + y;
    forall i | |a| < i < |s| ensures s[i] != '_' { assert s[i] == x[i - |a| - 1]; }
    forall i | |b| < i < |t| ensures t[i] != '_' { assert t[i] == y[i - |b| - 1]; }
    assert s[|a|] == '_' && t[|b|] == '_';
    assert s[..|a|] == a && t[..|b|] == b && s[|a| + 1..] == x && t[|b| + 1..] == y;
  }

  // ---- The first name in the order ----

  predicate IsLeast(names: set<string>, m: string) {
    m in names && forall t :: t in names ==> t == m || Less(m, t)
  }

  lemma {:induction false} LeastExists(names: set<string>)
    requires names != {}
    ensures exists m :: IsLeast(names, m)
    decreases names
  {
    hide Less;
    var x :| x in names;
    var others := names - {x};
    if others == {} {
      assert names == {x};
      assert IsLeast(names, x);
    } else {
      LeastExists(others);
      var m :| IsLeast(others, m);
      LessIsStrict(x, m);
      if Less(m, x) {
        assert IsLeast(names, m);
      } else {
        forall t | t in names ensures t == x || Less(x, t) {
          if t != x && t != m { LessIsTransitive(x, m, t); }
        }
        assert IsLeast(names, x);
      }
    }
  }

  // ---- Grouping ----

  /** The emitted items with this name, in declaration order. */
  function Members(items: seq<DefId>, defs: seq<Def>, name: string): seq<DefId> {
    if items == [] then []
    else
      var front, id := items[..|items| - 1], items[|items| - 1];
      Members(front, defs, name) + if Emitted(defs, id) && NameOf(defs, id) == name then [id] else []
  }

  lemma {:induction false} MembersHold(items: seq<DefId>, defs: seq<Def>, name: string)
    ensures forall id :: id in Members(items, defs, name) <==>
                           id in items && Emitted(defs, id) && NameOf(defs, id) == name
    ensures Distinct(items) ==> Distinct(Members(items, defs, name))
  {
    if items == [] {
    } else {
      var front, id := items[..|items| - 1], items[|items| - 1];
      MembersHold(front, defs, name);
      assert items == front + [id];
    }
  }

  /** The groups of the emitted items. */
  ghost predicate Groups(items: seq<DefId>, defs: seq<Def>, byName: map<string, seq<DefId>>) {
    && (forall name :: name in byName <==> Members(items, defs, name) != [])
    && (forall name :: name in byName ==> byName[name] == Members(items, defs, name))
  }

  method GroupByName(items: seq<DefId>, defs: seq<Def>) returns (byName: map<string, seq<DefId>>)
    ensures Groups(items, defs, byName)
  {
    byName := map[];
    for n := 0 to |items|
      invariant Groups(items[..n], defs, byName)
    {
      var id := items[n];
      assert items[..n + 1][..n] == items[..n];
      if Emitted(defs, id) {
        var name := NameOf(defs, id);
        byName := byName[name := (if name in byName then byName[name] else []) + [id]];
      }
    }
    assert items[..|items|] == items;
  }

  // ---- Free suffixes ----

  /** How many suffixes from 2 up to but excluding `k` are free. */
  function FreeBelow(taken: set<string>, name: string, k: nat): nat {
    if k <= 2 then 0
    else FreeBelow(taken, name, k - 1) + if Suffixed(name, k - 1) in taken then 0 else 1
  }

  lemma {:induction false} FreeBelowIsSmall(taken: set<string>, name: string, k: nat)
    ensures FreeBelow(taken, name, k) <= if k <= 2 then 0 else k - 2
  {
    if k <= 2 {
    } else {
      FreeBelowIsSmall(taken, name, k - 1);
    }
  }

  lemma {:induction false} FreeBelowGrows(taken: set<string>, name: string, j: nat, k: nat)
    requires 2 <= j < k && Suffixed(name, j) !in taken
    ensures FreeBelow(taken, name, j) < FreeBelow(taken, name, k)
    decreases k
  {
    if j < k - 1 { FreeBelowGrows(taken, name, j, k - 1); }
  }

  lemma {:induction false} FreeBelowReaches(taken: set<string>, name: string, c: nat, k: nat) returns (j: nat)
    requires c < FreeBelow(taken, name, k)
    ensures 2 <= j < k && Suffixed(name, j) !in taken && FreeBelow(taken, name, j) == c
    decreases k
  {
    if c < FreeBelow(taken, name, k - 1) {
      j := FreeBelowReaches(taken, name, c, k - 1);
    } else {
      j := k - 1;
    }
  }

  lemma {:induction false} FreeBelowSame(taken: set<string>, other: set<string>, name: string, k: nat)
    requires forall j: nat :: j >= 2 ==> (Suffixed(name, j) in taken <==> Suffixed(name, j) in other)
    ensures FreeBelow(taken, name, k) == FreeBelow(other, name, k)
  {
    hide Suffixed;
    if k <= 2 {
    } else {
      FreeBelowSame(taken, other, name, k - 1);
    }
  }

  /** `s` is the name with its free suffix number `c`, counted from 0. */
  ghost predicate IsSlot(taken: set<string>, name: string, c: int, s: string) {
    exists k: nat :: k >= 2 && s == Suffixed(name, k) && s !in taken && FreeBelow(taken, name, k) == c
  }

  lemma SlotIsUnique(taken: set<string>, name: string, c: int, s: string, d: int, t: string)
    requires IsSlot(taken, name, c, s) && IsSlot(taken, name, d, t)
    ensures s == t <==> c == d
  {
    hide Suffixed, FreeBelow;
    var j: nat :| j >= 2 && s == Suffixed(name, j) && s !in taken && FreeBelow(taken, name, j) == c;
    var k: nat :| k >= 2 && t == Suffixed(name, k) && t !in taken && FreeBelow(taken, name, k) == d;
    if j < k { FreeBelowGrows(taken, name, j, k); }
    if k < j { FreeBelowGrows(taken, name, k, j); }
    if s == t { SuffixedIsInjective(name, j, name, k); }
  }

  lemma SuffixIsNew(name: string, k: nat)
    ensures Suffixed(name, k) != name && |name| < |Suffixed(name, k)| && Suffixed(name, k)[..|name|] == name
  {}

  // ---- Which spelling every item gets ----

  /** The names carried by one emitted item only. */
  ghost function Singles(items: seq<DefId>, defs: seq<Def>): set<string> {
    set id | id in items && Emitted(defs, id) && |Members(items, defs, NameOf(defs, id))| == 1 :: NameOf(defs, id)
  }

  lemma SinglesHold(items: seq<DefId>, defs: seq<Def>, name: string)
    ensures name in Singles(items, defs) <==> |Members(items, defs, name)| == 1
  {
    MembersHold(items, defs, name);
    if |Members(items, defs, name)| == 1 {
      var id := Members(items, defs, name)[0];
      assert id in Members(items, defs, name);
      assert NameOf(defs, id) in Singles(items, defs);
    }
  }

  ghost predicate Group(items: seq<DefId>, defs: seq<Def>, name: string) { |Members(items, defs, name)| >= 2 }

  /** The first item of overload group `name` does not get the bare name: an item of a shorter
      overload group was given that spelling before. */
  ghost predicate Loses(items: seq<DefId>, defs: seq<Def>, name: string)
    decreases |name|, 1
  {
    exists n: nat, x: nat :: n < |name| && Generates(items, defs, name[..n], x, name)
  }

  /** Item number `x` of the overload group of the shorter name `g` is spelled `name`. */
  ghost predicate Generates(items: seq<DefId>, defs: seq<Def>, g: string, x: nat, name: string)
    decreases |name|, 0
  {
    |g| < |name| && Group(items, defs, g) && x < |Members(items, defs, g)| && Gets(items, defs, g, x, name)
  }

  lemma Generator(items: seq<DefId>, defs: seq<Def>, name: string) returns (g: string, x: nat)
    requires Loses(items, defs, name)
    ensures |g| < |name| && name[..|g|] == g && Generates(items, defs, g, x, name)
  {
    var n: nat, y: nat :| n < |name| && Generates(items, defs, name[..n], y, name);
    g, x := name[..n], y;
  }

  /** Item number `x` of overload group `name` is spelled `s`: the bare name for the first item
      unless it loses it, and the free suffixes in order for all others. */
  ghost predicate Gets(items: seq<DefId>, defs: seq<Def>, name: string, x: nat, s: string)
    decreases |name|, 2
  {
    if Loses(items, defs, name) then IsSlot(Singles(items, defs), name, x, s)
    else if x == 0 then s == name
    else IsSlot(Singles(items, defs), name, x - 1, s)
  }

  /** Group `g` has an item left for its suffix `k`: as many items as free suffixes come before it,
      and one more for the bare name when the group keeps that. */
  ghost predicate Reaches(items: seq<DefId>, defs: seq<Def>, g: string, k: nat) {
    Group(items, defs, g)
    && FreeBelow(Singles(items, defs), g, k) + (if Loses(items, defs, g) then 0 else 1) < |Members(items, defs, g)|
  }

  /** Counted over the input: an overload group loses its bare name exactly when that name is a
      suffixed spelling of another overload group that has enough items to get there. */
  lemma LosesIffReached(items: seq<DefId>, defs: seq<Def>, name: string)
    requires Group(items, defs, name)
    ensures Loses(items, defs, name)
       <==> exists g, k: nat :: k >= 2 && name == Suffixed(g, k) && Reaches(items, defs, g, k)
  {
    if Loses(items, defs, name) {
      var g, x := Generator(items, defs, name);
      GeneratorReaches(items, defs, g, x, name);
    }
    if g, k: nat :| k >= 2 && name == Suffixed(g, k) && Reaches(items, defs, g, k) {
      ReachedIsLost(items, defs, g, k);
    }
  }

  lemma GeneratorReaches(items: seq<DefId>, defs: seq<Def>, g: string, x: nat, name: string)
    requires Generates(items, defs, g, x, name)
    ensures exists k: nat :: k >= 2 && name == Suffixed(g, k) && Reaches(items, defs, g, k)
  {
    hide Suffixed, FreeBelow, Singles, Loses;
    var c := if Loses(items, defs, g) then x else x - 1;
    assert IsSlot(Singles(items, defs), g, c, name);
    var k: nat :| k >= 2 && name == Suffixed(g, k) && FreeBelow(Singles(items, defs), g, k) == c;
    assert Reaches(items, defs, g, k);
  }

  lemma ReachedIsLost(items: seq<DefId>, defs: seq<Def>, g: string, k: nat)
    requires k >= 2 && Group(items, defs, Suffixed(g, k)) && Reaches(items, defs, g, k)
    ensures Loses(items, defs, Suffixed(g, k))
  {
    var name, singles := Suffixed(g, k), Singles(items, defs);
    SuffixIsNew(g, k);
    SinglesHold(items, defs, name);
    hide Suffixed, Singles, FreeBelow;
    var c := FreeBelow(singles, g, k);
    assert IsSlot(singles, g, c, name);
    var x := if Loses(items, defs, g) then c else c + 1;
    assert Gets(items, defs, g, x, name);
    hide Gets;
    assert name[..|g|] == g;
    assert Generates(items, defs, name[..|g|], x, name);
  }

  /** The first item keeps the bare name when no other overload group generates it as a suffix. */
  lemma KeepsUngenerated(items: seq<DefId>, defs: seq<Def>, name: string)
    requires forall g, k: nat :: k >= 2 && name == Suffixed(g, k) ==> !Group(items, defs, g)
    ensures !Loses(items, defs, name)
  {
    if Loses(items, defs, name) {
      var g, x := Generator(items, defs, name);
      GeneratorReaches(items, defs, g, x, name);
    }
  }

  /** It loses it when a group generates it and has at least as many items as the suffix counts. */
  lemma LosesGenerated(items: seq<DefId>, defs: seq<Def>, g: string, k: nat)
    requires k >= 2 && Group(items, defs, Suffixed(g, k)) && |Members(items, defs, g)| >= k
    ensures Loses(items, defs, Suffixed(g, k))
  {
    FreeBelowIsSmall(Singles(items, defs), g, k);
    hide Suffixed, Singles, FreeBelow, Loses, Members;
    assert Reaches(items, defs, g, k);
    ReachedIsLost(items, defs, g, k);
  }

  /** The first item of an overload group keeps the bare name exactly when the group does not lose it. */
  lemma FirstKeepsIff(items: seq<DefId>, defs: seq<Def>, name: string, s: string)
    requires Gets(items, defs, name, 0, s)
    ensures s == name <==> !Loses(items, defs, name)
  {
    hide Suffixed, FreeBelow, Singles, Loses;
    if Loses(items, defs, name) {
      var k: nat :| k >= 2 && s == Suffixed(name, k);
      SuffixIsNew(name, k);
    }
  }

  const FOUR_DEFS := [Function("f", true), Function("f", true), Function("f_2", true), Function("f_2", true)]

  lemma TwoMembers(name: string)
    ensures Members([0, 1], FOUR_DEFS, name) == if name == "f" then [0, 1] else []
  {
    hide Members, FOUR_DEFS;
    NoMembers(FOUR_DEFS, name);
    OneMember([], 0, name);
    OneMember([0], 1, name);
    assert [] + [0] == [0] && [0] + [1] == [0, 1];
  }

  lemma FourMembers(name: string)
    ensures Members([0, 1, 2, 3], FOUR_DEFS, name) 
         == if name == "f" then [0, 1] else if name == "f_2" then [2, 3] else []
  {
    hide Members, FOUR_DEFS;
    TwoMembers(name);
    OneMember([0, 1], 2, name);
    OneMember([0, 1, 2], 3, name);
    assert [0, 1] + [2] == [0, 1, 2] && [0, 1, 2] + [3] == [0, 1, 2, 3];
  }

  lemma NoMembers(defs: seq<Def>, name: string)
    ensures Members([], defs, name) == []
  {}

  lemma OneMember(items: seq<DefId>, id: DefId, name: string)
    requires id < 4
    ensures Members(items + [id], FOUR_DEFS, name)
         == Members(items, FOUR_DEFS, name) + if name == (if id < 2 then "f" else "f_2") then [id] else []
  {
    assert (items + [id])[..|items|] == items;
  }

  /** Of `f`, `f`, `f_2`, `f_2` the first `f_2` is renamed to `f_2_2`, because the second `f` is `f_2` by then. */
  lemma FirstOverloadCanLoseItsName(s: string)
    ensures var items := [0, 1, 2, 3];
            && Loses(items, FOUR_DEFS, "f_2") && (Gets(items, FOUR_DEFS, "f_2", 0, s) <==> s == "f_2_2")
            && Members(items, FOUR_DEFS, "f_2")[0] == 2
  {
    var items := [0, 1, 2, 3];
    assert Decimal(2) == "2" && Suffixed("f", 2) == "f_2" && Suffixed("f_2", 2) == "f_2_2";
    FourMembers("f");
    FourMembers("f_2");
    FourMembers("f_2_2");
    hide Members, Suffixed, FOUR_DEFS, Loses;
    LosesGenerated(items, FOUR_DEFS, "f", 2);
    SinglesHold(items, FOUR_DEFS, "f_2_2");
    hide Singles;
    var singles := Singles(items, FOUR_DEFS);
    assert FreeBelow(singles, "f_2", 2) == 0;
    assert IsSlot(singles, "f_2", 0, "f_2_2");
    if Gets(items, FOUR_DEFS, "f_2", 0, s) { SlotIsUnique(singles, "f_2", 0, s, 0, "f_2_2"); }
  }

  // ---- Probing ----

  /** Taken suffixed spellings beyond `k`. */
  ghost function Above(used: set<string>, name: string, k: nat): set<string> {
    set s | s in used && exists j: nat :: j > k && s == Suffixed(name, j)
  }

  lemma AboveShrinks(used: set<string>, name: string, k: nat)
    requires Suffixed(name, k + 1) in used
    ensures |Above(used, name, k + 1)| < |Above(used, name, k)|
  {
    hide Suffixed;
    var s := Suffixed(name, k + 1);
    assert s in Above(used, name, k);
    if s in Above(used, name, k + 1) {
      var j: nat :| j > k + 1 && s == Suffixed(name, j);
      SuffixedIsInjective(name, j, name, k + 1);
    }
    var fewer := Above(used, name, k) - {s};
    assert Above(used, name, k + 1) <= fewer;
    assert fewer == Above(used, name, k + 1) + (fewer - Above(used, name, k + 1));
  }

  /** The spelling is the name itself or the name with a decimal suffix of at least 2. */
  ghost predicate SpelledFrom(name: string, spelling: string) {
    spelling == name || exists k: nat :: k >= 2 && spelling == Suffixed(name, k)
  }

  /** What is tried for the `i`-th definition of a group when the counter stands at `k`. */
  function Try(name: string, i: nat, k: nat): string {
    if i == 0 && k == 1 then name else Suffixed(name, k)
  }

  /** First free candidate for the `i`-th definition of an overload group. */
  method Probe(name: string, i: nat, used: set<string>) returns (candidate: string, ghost at: nat)
    ensures candidate !in used && at >= i + 1 && candidate == Try(name, i, at)
    ensures forall j: nat :: i + 1 <= j < at ==> Try(name, i, j) in used
  {
    hide Suffixed;
    candidate := if i == 0 then name else Suffixed(name, i + 1);
    var k: nat := i + 1;
    while candidate in used
      invariant k >= i + 1 && candidate == Try(name, i, k)
      invariant forall j: nat :: i + 1 <= j < k ==> Try(name, i, j) in used
      decreases if candidate in used then |Above(used, name, k)| + 1 else 0
    {
      if Suffixed(name, k + 1) in used { AboveShrinks(used, name, k); }
      k := k + 1;
      candidate := Suffixed(name, k);
    }
    at := k;
  }

  // ---- The map ----

  ghost predicate Faithful(defs: seq<Def>, names: Names, used: set<string>) {
    && Injective(names)
    && (forall id :: id in names ==> names[id] in used)
    && (forall id :: id in names ==> Emitted(defs, id) && SpelledFrom(NameOf(defs, id), names[id]))
  }

  /** Names carried by one item only keep their spelling. */
  method NameSingles(items: seq<DefId>, defs: seq<Def>, byName: map<string, seq<DefId>>)
      returns (names: Names, used: set<string>)
    requires Groups(items, defs, byName)
    ensures Faithful(defs, names, used) && used == Singles(items, defs)
    ensures forall id :: id in names <==>
              id in items && Emitted(defs, id) && |Members(items, defs, NameOf(defs, id))| == 1
    ensures forall id :: id in names ==> names[id] == NameOf(defs, id)
  {
    hide SpelledFrom, Singles, Members;
    names, used := map[], {};
    var todo := byName.Keys;
    while todo != {}
      invariant todo <= byName.Keys
      invariant Injective(names)
      invariant forall id :: id in names ==> names[id] in used && Emitted(defs, id) && names[id] == NameOf(defs, id)
      invariant forall s :: s in used <==> s in byName && s !in todo && |byName[s]| == 1
      invariant forall id :: id in names <==> exists s :: s in used && byName[s] == [id]
      decreases todo
    {
      var name :| name in todo;
      todo := todo - {name};
      if |byName[name]| == 1 {
        var id := byName[name][0];
        MembersHold(items, defs, name);
        assert id in byName[name];
        used := used + {name};
        names := names[id := name];
      }
    }
    forall s ensures s in used <==> s in Singles(items, defs) { SinglesHold(items, defs, s); }
    forall id
      ensures id in names <==> id in items && Emitted(defs, id) && |Members(items, defs, NameOf(defs, id))| == 1
    {
      NamedAlone(items, defs, byName, names, used, id);
    }
    forall id | id in names ensures SpelledFrom(NameOf(defs, id), names[id]) { BareIsSpelled(NameOf(defs, id)); }
  }

  lemma NamedAlone(items: seq<DefId>, defs: seq<Def>, byName: map<string, seq<DefId>>, names: Names,
                   used: set<string>, id: DefId)
    requires Groups(items, defs, byName)
    requires forall s :: s in used <==> s in byName && |byName[s]| == 1
    requires id in names <==> exists s :: s in used && byName[s] == [id]
    ensures id in names <==> id in items && Emitted(defs, id) && |Members(items, defs, NameOf(defs, id))| == 1
  {
    hide Members;
    if id in names {
      var s :| s in used && byName[s] == [id];
      MembersHold(items, defs, s);
      assert id in byName[s];
    }
    if id in items && Emitted(defs, id) && |Members(items, defs, NameOf(defs, id))| == 1 {
      var s := NameOf(defs, id);
      MembersHold(items, defs, s);
      assert id in byName[s];
      assert byName[s] == [id];
    }
  }

  lemma BareIsSpelled(name: string)
    ensures SpelledFrom(name, name)
  {}

  /** One more item gets a spelling nobody else has. */
  lemma AddName(defs: seq<Def>, names: Names, used: set<string>, id: DefId, spelling: string)
    requires Faithful(defs, names, used) && spelling !in used
    requires Emitted(defs, id) && SpelledFrom(NameOf(defs, id), spelling)
    ensures Faithful(defs, names[id := spelling], used + {spelling})
  {
    hide SpelledFrom;
  }

  /** The items of one overload group, in declaration order. */
  method NameGroup(defs: seq<Def>, name: string, ids: seq<DefId>, names0: Names, used0: set<string>)
      returns (names: Names, used: set<string>)
    requires Faithful(defs, names0, used0) && Distinct(ids)
    requires forall id :: id in ids ==> id !in names0 && Emitted(defs, id) && NameOf(defs, id) == name
    ensures Faithful(defs, names, used)
    ensures forall id :: id in names <==> id in names0 || id in ids
    ensures forall id :: id in names0 ==> names[id] == names0[id]
    ensures forall x :: 0 <= x < |ids| ==> Takes(name, used0, x, names[ids[x]])
    ensures forall s :: s in used <==> s in used0 || exists x :: 0 <= x < |ids| && s == names[ids[x]]
  {
    hide SpelledFrom, Suffixed, FreeBelow, Takes, Try;
    names, used := names0, used0;
    ghost var spellings: seq<string> := [];
    for i := 0 to |ids|
      invariant Faithful(defs, names, used)
      invariant forall id :: id in names <==> id in names0 || id in ids[..i]
      invariant forall id :: id in names0 ==> names[id] == names0[id]
      invariant |spellings| == i && forall x :: 0 <= x < i ==> spellings[x] == names[ids[x]]
      invariant forall x :: 0 <= x < i ==> Takes(name, used0, x, spellings[x])
      invariant forall s :: s in used <==> s in used0 || s in spellings
    {
      var candidate;
      ghost var at;
      candidate, at := Probe(name, i, used);
      ProbeTakes(name, used0, spellings, used, at);
      TakenIsSpelled(name, used0, i, candidate);
      AddName(defs, names, used, ids[i], candidate);
      assert ids[..i + 1] == ids[..i] + [ids[i]];
      used := used + {candidate};
      names := names[ids[i] := candidate];
      spellings := spellings + [candidate];
    }
    assert ids[..|ids|] == ids;
  }

  /** Item number `x` of a group is spelled `s` when `used` was taken before the group. */
  ghost predicate Takes(name: string, used: set<string>, x: nat, s: string) {
    if name in used then IsSlot(used, name, x, s)
    else if x == 0 then s == name
    else IsSlot(used, name, x - 1, s)
  }

  /** Probing from `i + 1` finds the very next free suffix. */
  lemma ProbeTakes(name: string, used0: set<string>, spellings: seq<string>, used: set<string>, at: nat)
    requires forall x :: 0 <= x < |spellings| ==> Takes(name, used0, x, spellings[x])
    requires forall s :: s in used <==> s in used0 || s in spellings
    requires at >= |spellings| + 1 && Try(name, |spellings|, at) !in used
    requires forall j: nat :: |spellings| + 1 <= j < at ==> Try(name, |spellings|, j) in used
    ensures Takes(name, used0, |spellings|, Try(name, |spellings|, at))
  {
    hide Suffixed, FreeBelow;
    var i := |spellings|;
    var s := Try(name, i, at);
    if i == 0 && name !in used0 {
      assert Try(name, 0, 1) == name;
    } else {
      var skip := if name in used0 then 0 else 1;
      if i == 0 { assert Try(name, 0, 1) in used; }
      assert s == Suffixed(name, at);
      var f := FreeBelow(used0, name, at);
      NotTooEarly(name, used0, spellings, at, skip);
      forall j: nat | i + 1 <= j < at && j >= 2 ensures Suffixed(name, j) in used { assert Try(name, i, j) in used; }
      if f > i - skip {
        var j := FreeBelowReaches(used0, name, i - skip, at);
        FreeBelowIsSmall(used0, name, j);
        NotSpelledYet(name, used0, spellings, j, skip);
        assert false;
      }
    }
  }

  /** A suffix that nobody has taken comes after those of the earlier items. */
  lemma NotTooEarly(name: string, used0: set<string>, spellings: seq<string>, k: nat, skip: nat)
    requires forall x :: 0 <= x < |spellings| ==> Takes(name, used0, x, spellings[x])
    requires skip == if name in used0 then 0 else 1
    requires k >= 2 && Suffixed(name, k) !in used0 && Suffixed(name, k) !in spellings
    ensures FreeBelow(used0, name, k) >= |spellings| - skip
  {
    hide Suffixed, FreeBelow;
    var f := FreeBelow(used0, name, k);
    if f < |spellings| - skip {
      var s := spellings[f + skip];
      assert IsSlot(used0, name, f, s) && IsSlot(used0, name, f, Suffixed(name, k));
      SlotIsUnique(used0, name, f, s, f, Suffixed(name, k));
      assert false;
    }
  }

  /** The free suffix number `|spellings| - skip` is not among the earlier spellings. */
  lemma NotSpelledYet(name: string, used0: set<string>, spellings: seq<string>, j: nat, skip: nat)
    requires forall x :: 0 <= x < |spellings| ==> Takes(name, used0, x, spellings[x])
    requires skip == if name in used0 then 0 else 1
    requires j >= 2 && Suffixed(name, j) !in used0 && FreeBelow(used0, name, j) == |spellings| - skip
    ensures Suffixed(name, j) !in spellings
  {
    SuffixIsNew(name, j);
    hide Suffixed, FreeBelow;
    assert IsSlot(used0, name, |spellings| - skip, Suffixed(name, j));
    forall x | 0 <= x < |spellings| ensures spellings[x] != Suffixed(name, j) {
      if x >= skip { SlotIsUnique(used0, name, x - skip, spellings[x], |spellings| - skip, Suffixed(name, j)); }
    }
  }

  lemma TakenIsSpelled(name: string, used: set<string>, x: nat, s: string)
    requires Takes(name, used, x, s)
    ensures SpelledFrom(name, s)
  {
    hide Suffixed, FreeBelow;
  }

  // ---- The whole renaming ----

  /** What is taken once the groups in `done` were walked. */
  ghost predicate UsedIs(items: seq<DefId>, defs: seq<Def>, done: set<string>, used: set<string>) {
    forall s :: s in used <==> s in Singles(items, defs) || TakenBy(items, defs, done, s)
  }

  ghost predicate TakenBy(items: seq<DefId>, defs: seq<Def>, done: set<string>, s: string) {
    exists g :: g in done && Group(items, defs, g) && GroupTakes(items, defs, g, s)
  }

  /** The groups before `name` in the order, and no others, were walked. */
  ghost predicate Reached(items: seq<DefId>, defs: seq<Def>, done: set<string>, name: string) {
    && Group(items, defs, name) && name !in done
    && (forall g :: g in done ==> Less(g, name))
    && (forall g :: Group(items, defs, g) && Less(g, name) ==> g in done)
  }

  /** What a group's item is spelled, when it is not the group's name, is longer than that. */
  lemma GetsBareOrSuffixed(items: seq<DefId>, defs: seq<Def>, g: string, x: nat, s: string)
    requires Gets(items, defs, g, x, s)
    ensures s == g || exists k: nat :: k >= 2 && s == Suffixed(g, k)
  {
    hide Suffixed, FreeBelow, Singles, Loses;
  }

  /** A group's name is taken when the group is reached exactly when the group loses it. */
  lemma TakenIffLoses(items: seq<DefId>, defs: seq<Def>, done: set<string>, name: string)
    requires Reached(items, defs, done, name)
    ensures TakenBy(items, defs, done, name) <==> Loses(items, defs, name)
  {
    hide Gets, Members, Group, Suffixed;
    if TakenBy(items, defs, done, name) {
      var g :| g in done && Group(items, defs, g) && GroupTakes(items, defs, g, name);
      var x: nat :| x < |Members(items, defs, g)| && Gets(items, defs, g, x, name);
      GetsBareOrSuffixed(items, defs, g, x, name);
      var k: nat :| k >= 2 && name == Suffixed(g, k);
      SuffixIsNew(g, k);
      assert name[..|g|] == g;
      assert Generates(items, defs, name[..|g|], x, name);
    }
    if Loses(items, defs, name) {
      var g, x := Generator(items, defs, name);
      assert name == g + name[|g|..];
      PrefixIsLess(g, name[|g|..]);
      assert GroupTakes(items, defs, g, name);
    }
  }

  /** No group walked before takes a suffix of this one's name. */
  lemma SuffixesAreLeft(items: seq<DefId>, defs: seq<Def>, done: set<string>, name: string, j: nat)
    requires Reached(items, defs, done, name) && j >= 2
    ensures !TakenBy(items, defs, done, Suffixed(name, j))
  {
    hide Gets, Members, Group, Suffixed;
    var s := Suffixed(name, j);
    if TakenBy(items, defs, done, s) {
      var g :| g in done && Group(items, defs, g) && GroupTakes(items, defs, g, s);
      var x: nat :| x < |Members(items, defs, g)| && Gets(items, defs, g, x, s);
      GetsBareOrSuffixed(items, defs, g, x, s);
      if s == g {
        SuffixIsGreater(name, j);
        LessIsStrict(name, g);
        assert false;
      } else {
        var k: nat :| k >= 2 && s == Suffixed(g, k);
        SuffixedIsInjective(name, j, g, k);
        assert false;
      }
    }
  }

  lemma SuffixIsGreater(name: string, j: nat)
    ensures Less(name, Suffixed(name, j))
  {
    PrefixIsLess(name, "_" + Decimal(j));
    assert Suffixed(name, j) == name + ("_" + Decimal(j));
  }

  /** What the group takes from the names used so far is what `Gets` says. */
  lemma TakesIsGets(items: seq<DefId>, defs: seq<Def>, done: set<string>, used: set<string>, name: string, x: nat,
                    s: string)
    requires Reached(items, defs, done, name) && UsedIs(items, defs, done, used)
    ensures Takes(name, used, x, s) <==> Gets(items, defs, name, x, s)
  {
    hide Suffixed, FreeBelow, Singles, TakenBy, Less, Loses;
    var singles := Singles(items, defs);
    TakenIffLoses(items, defs, done, name);
    SinglesHold(items, defs, name);
    forall j: nat | j >= 2 ensures Suffixed(name, j) in used <==> Suffixed(name, j) in singles {
      SuffixesAreLeft(items, defs, done, name, j);
    }
    hide UsedIs;
    SlotsAgree(used, singles, name, x, s);
    if x == 0 {
    } else {
      SlotsAgree(used, singles, name, x - 1, s);
    }
  }

  lemma SlotsAgree(taken: set<string>, other: set<string>, name: string, c: int, s: string)
    requires forall j: nat :: j >= 2 ==> (Suffixed(name, j) in taken <==> Suffixed(name, j) in other)
    ensures IsSlot(taken, name, c, s) <==> IsSlot(other, name, c, s)
  {
    hide Suffixed, FreeBelow;
    forall k: nat ensures FreeBelow(taken, name, k) == FreeBelow(other, name, k) {
      FreeBelowSame(taken, other, name, k);
    }
  }

  lemma GetsIsUnique(items: seq<DefId>, defs: seq<Def>, name: string, x: nat, s: string, t: string)
    requires Gets(items, defs, name, x, s) && Gets(items, defs, name, x, t)
    ensures s == t
  {
    hide Loses, Singles, IsSlot;
    if Loses(items, defs, name) {
      SlotIsUnique(Singles(items, defs), name, x, s, x, t);
    } else if x > 0 {
      SlotIsUnique(Singles(items, defs), name, x - 1, s, x - 1, t);
    }
  }

  /** Walking one more group. */
  lemma GroupWalked(items: seq<DefId>, defs: seq<Def>, done: set<string>, name: string, used0: set<string>,
                    used: set<string>, ids: seq<DefId>, names: Names)
    requires Reached(items, defs, done, name) && UsedIs(items, defs, done, used0) && ids == Members(items, defs, name)
    requires forall x :: 0 <= x < |ids| ==> ids[x] in names && Takes(name, used0, x, names[ids[x]])
    requires forall s :: s in used <==> s in used0 || exists x :: 0 <= x < |ids| && s == names[ids[x]]
    ensures forall x :: 0 <= x < |ids| ==> Gets(items, defs, name, x, names[ids[x]])
    ensures UsedIs(items, defs, done + {name}, used)
  {
    hide Takes, Gets, Singles, Members, Group;
    forall x | 0 <= x < |ids| ensures Gets(items, defs, name, x, names[ids[x]]) {
      TakesIsGets(items, defs, done, used0, name, x, names[ids[x]]);
    }
    forall s ensures s in used <==> s in Singles(items, defs) || TakenBy(items, defs, done + {name}, s) {
      assert TakenBy(items, defs, done + {name}, s)
           <==> TakenBy(items, defs, done, s) || GroupTakes(items, defs, name, s);
      forall x: nat | x < |ids| && Gets(items, defs, name, x, s) ensures s == names[ids[x]] {
        GetsIsUnique(items, defs, name, x, s, names[ids[x]]);
      }
    }
  }

  ghost predicate GroupTakes(items: seq<DefId>, defs: seq<Def>, g: string, s: string) {
    exists x: nat :: x < |Members(items, defs, g)| && Gets(items, defs, g, x, s)
  }

  /** A name carried by one item only changes nothing. */
  lemma SingleWalked(items: seq<DefId>, defs: seq<Def>, done: set<string>, name: string, used: set<string>)
    requires UsedIs(items, defs, done, used) && !Group(items, defs, name)
    ensures UsedIs(items, defs, done + {name}, used)
  {
    hide Group, Gets, Members, Singles;
    forall s ensures TakenBy(items, defs, done + {name}, s) <==> TakenBy(items, defs, done, s) {}
  }

  /** The items named so far: those alone under their name and those of the groups walked. */
  ghost predicate Covers(items: seq<DefId>, defs: seq<Def>, done: set<string>, names: Names) {
    forall id :: id in names <==>
      id in items && Emitted(defs, id) && (NameOf(defs, id) in done || !Group(items, defs, NameOf(defs, id)))
  }

  ghost predicate Spelled(items: seq<DefId>, defs: seq<Def>, done: set<string>, names: Names) {
    forall name, x :: name in done && Group(items, defs, name) && 0 <= x < |Members(items, defs, name)| ==>
      Members(items, defs, name)[x] in names && Gets(items, defs, name, x, names[Members(items, defs, name)[x]])
  }

  /** `build`: every emitted function gets a name of its own, a function whose name nobody shares
      keeps it, and the spellings of an overload group are those of `Gets`. */
  method Build(items: seq<DefId>, defs: seq<Def>) returns (names: Names)
    requires Distinct(items)
    ensures forall id :: id in names <==> id in items && Emitted(defs, id)
    ensures Injective(names)
    ensures forall id :: id in names ==> SpelledFrom(NameOf(defs, id), names[id])
    ensures forall id :: id in names && !Overloaded(items, defs, id) ==> names[id] == NameOf(defs, id)
    ensures forall name, x :: Group(items, defs, name) && 0 <= x < |Members(items, defs, name)| ==>
              Members(items, defs, name)[x] in names && Gets(items, defs, name, x, names[Members(items, defs, name)[x]])
    ensures forall name :: Group(items, defs, name) ==>
              var first := Members(items, defs, name)[0];
              first in names && (names[first] == name <==> !Loses(items, defs, name))
  {
    hide SpelledFrom, Members, Singles, Gets, TakenBy, Less, Takes, Overloaded, Loses;
    var byName := GroupByName(items, defs);
    var used;
    names, used := NameSingles(items, defs, byName);
    ghost var single, done := names, {};
    NothingWalked(items, defs);
    GroupsAreNamed(items, defs);
    var todo := byName.Keys;
    while todo != {}
      invariant todo <= byName.Keys && done == byName.Keys - todo
      invariant forall g, t :: g in done && t in todo ==> Less(g, t)
      invariant Faithful(defs, names, used) && UsedIs(items, defs, done, used)
      invariant Covers(items, defs, done, names) && Spelled(items, defs, done, names)
      invariant forall id :: id in single ==> id in names && names[id] == single[id]
      decreases todo
    {
      LeastExists(todo);
      var name :| name in todo && IsLeast(todo, name);
      ghost var names0, used0 := names, used;
      if |byName[name]| != 1 {
        assert Reached(items, defs, done, name) by { OnlyTheDoneAreLess(items, defs, byName, todo, name); }
        MembersHold(items, defs, name);
        names, used := NameGroup(defs, name, byName[name], names, used);
        GroupWalked(items, defs, done, name, used0, used, byName[name], names);
      } else {
        SingleWalked(items, defs, done, name, used);
      }
      SpelledStays(items, defs, done, name, names0, names);
      todo := todo - {name};
      done := done + {name};
    }
    forall id | id in names && !Overloaded(items, defs, id) ensures names[id] == NameOf(defs, id) {
      AloneInGroup(items, defs, id);
    }
    forall name | Group(items, defs, name)
      ensures var first := Members(items, defs, name)[0];
              first in names && (names[first] == name <==> !Loses(items, defs, name))
    {
      assert Group(items, defs, name) ==> name in done;
      FirstKeepsIff(items, defs, name, names[Members(items, defs, name)[0]]);
    }
  }

  lemma NothingWalked(items: seq<DefId>, defs: seq<Def>)
    ensures UsedIs(items, defs, {}, Singles(items, defs))
  {
    hide Singles;
  }

  lemma GroupsAreNamed(items: seq<DefId>, defs: seq<Def>)
    ensures forall id :: id in items && Emitted(defs, id) ==> |Members(items, defs, NameOf(defs, id))| >= 1
  {
    forall id | id in items && Emitted(defs, id) ensures |Members(items, defs, NameOf(defs, id))| >= 1 {
      MembersHold(items, defs, NameOf(defs, id));
      assert id in Members(items, defs, NameOf(defs, id));
    }
  }

  lemma OnlyTheDoneAreLess(items: seq<DefId>, defs: seq<Def>, byName: map<string, seq<DefId>>, todo: set<string>,
                           name: string)
    requires Groups(items, defs, byName) && todo <= byName.Keys && IsLeast(todo, name)
    ensures forall g :: Group(items, defs, g) && Less(g, name) ==> g in byName.Keys - todo
  {
    hide Members, Less;
    forall g | Group(items, defs, g) && Less(g, name) ensures g in byName.Keys - todo {
      LessIsStrict(g, name);
    }
  }

  /** Groups walked before keep their spellings. */
  lemma SpelledStays(items: seq<DefId>, defs: seq<Def>, done: set<string>, name: string, names0: Names, names: Names)
    requires Spelled(items, defs, done, names0)
    requires forall id :: id in names0 ==> id in names && names[id] == names0[id]
    requires Group(items, defs, name) ==> forall x :: 0 <= x < |Members(items, defs, name)| ==>
               && Members(items, defs, name)[x] in names
               && Gets(items, defs, name, x, names[Members(items, defs, name)[x]])
    ensures Spelled(items, defs, done + {name}, names)
  {
    hide Members, Gets;
  }

  lemma AloneInGroup(items: seq<DefId>, defs: seq<Def>, id: DefId)
    requires Distinct(items) && id in items && Emitted(defs, id) && !Overloaded(items, defs, id)
    ensures |Members(items, defs, NameOf(defs, id))| == 1
  {
    hide Members;
    MembersHold(items, defs, NameOf(defs, id));
    var group := Members(items, defs, NameOf(defs, id));
    assert id in group && (|group| > 1 ==> group[0] != group[1]);
    forall i | 0 <= i < |group| ensures group[i] == id { assert group[i] in group; }
  }
}
