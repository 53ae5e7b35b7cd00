/** Dispatch tables flattened at compile time and regrouped at program start,
    `crates/backends/leek-backend-native/src/aot_meta.rs`. Hash maps are walked in any order. */
module AotMeta {
  import opened Options

  // ---- Maps as lists of pairs ----

  /** Collecting pairs into a map: the last pair of a key wins. */
  function Collect<K(==), V>(xs: seq<(K, V)>): map<K, V> {
    if xs == [] then map[] else Collect(xs[..|xs| - 1])[xs[|xs| - 1].0 := xs[|xs| - 1].1]
  }

  /** The pairs of a map in some order. */
  ghost predicate Lists<K, V>(xs: seq<(K, V)>, m: map<K, V>) {
    && (forall i :: 0 <= i < |xs| ==> xs[i].0 in m && m[xs[i].0] == xs[i].1)
    && (forall k :: k in m ==> (k, m[k]) in xs)
  }

  lemma {:induction false} CollectFinds<K, V>(xs: seq<(K, V)>, k: K)
    ensures k in Collect(xs) <==> exists i :: 0 <= i < |xs| && xs[i].0 == k
    ensures k in Collect(xs) ==> (k, Collect(xs)[k]) in xs
  {
    if xs == [] {
    } else {
      var front, last := xs[..|xs| - 1], xs[|xs| - 1];
      CollectFinds(front, k);
      assert xs == front + [last];
      if k in Collect(front) && k != last.0 {
        assert (k, Collect(front)[k]) in front;
      }
    }
  }

  lemma CollectUndoesListing<K(!new), V>(xs: seq<(K, V)>, m: map<K, V>)
    requires Lists(xs, m)
    ensures Collect(xs) == m
  {
    forall k ensures k in Collect(xs) <==> k in m {
      CollectFinds(xs, k);
      if k in m { var i :| 0 <= i < |xs| && xs[i] == (k, m[k]); assert xs[i].0 == k; }
    }
    forall k | k in m ensures Collect(xs)[k] == m[k] {
      CollectFinds(xs, k);
      var i :| 0 <= i < |xs| && xs[i] == (k, Collect(xs)[k]);
      assert xs[i].0 in m && m[xs[i].0] == xs[i].1;
    }
  }

  /** The same one level down: outer keys with lists of pairs. */
  function CollectNested<K(==), J(==), V>(xs: seq<(K, seq<(J, V)>)>): map<K, map<J, V>> {
    if xs == [] then map[]
    else CollectNested(xs[..|xs| - 1])[xs[|xs| - 1].0 := Collect(xs[|xs| - 1].1)]
  }

  ghost predicate ListsNested<K, J, V>(xs: seq<(K, seq<(J, V)>)>, m: map<K, map<J, V>>) {
    && (forall i :: 0 <= i < |xs| ==> xs[i].0 in m && Lists(xs[i].1, m[xs[i].0]))
    && (forall k :: k in m ==> exists i :: 0 <= i < |xs| && xs[i].0 == k)
  }

  lemma {:induction false} CollectNestedPrefix<K(!new), J(!new), V>(xs: seq<(K, seq<(J, V)>)>, m: map<K, map<J, V>>)
    requires forall i :: 0 <= i < |xs| ==> xs[i].0 in m && Lists(xs[i].1, m[xs[i].0])
    ensures forall k :: k in CollectNested(xs) <==> exists i :: 0 <= i < |xs| && xs[i].0 == k
    ensures forall k :: k in CollectNested(xs) ==> k in m && CollectNested(xs)[k] == m[k]
  {
    if xs == [] {
    } else {
      var front, last := xs[..|xs| - 1], xs[|xs| - 1];
      CollectNestedPrefix(front, m);
      CollectUndoesListing(last.1, m[last.0]);
      hide Lists, Collect;
      assert forall i :: 0 <= i < |front| ==> front[i] == xs[i];
    }
  }

  lemma CollectNestedUndoesListing<K(!new), J(!new), V>(xs: seq<(K, seq<(J, V)>)>, m: map<K, map<J, V>>)
    requires ListsNested(xs, m)
    ensures CollectNested(xs) == m
  {
    CollectNestedPrefix(xs, m);
    hide CollectNested, Lists;
  }

  // ---- The method table: flattened to triples, regrouped by class ----

  type Triple = (nat, string, nat)
  type Methods = map<nat, map<string, nat>>

  /** All (class, method, function) triples, in some order. */
  ghost predicate Flattens(xs: seq<Triple>, m: Methods) {
    && (forall i :: 0 <= i < |xs| ==> xs[i].0 in m && xs[i].1 in m[xs[i].0] && m[xs[i].0][xs[i].1] == xs[i].2)
    && (forall c, k :: c in m && k in m[c] ==> (c, k, m[c][k]) in xs)
  }

  function Grouped(m: Methods, t: Triple): Methods {
    m[t.0 := (if t.0 in m then m[t.0] else map[])[t.1 := t.2]]
  }

  function Regrouped(xs: seq<Triple>): Methods {
    if xs == [] then map[] else Grouped(Regrouped(xs[..|xs| - 1]), xs[|xs| - 1])
  }

  /** A class without methods leaves no triple behind. */
  function NonEmpty(m: Methods): Methods { map c | c in m && m[c] != map[] :: m[c] }

  lemma {:induction false} RegroupedFinds(xs: seq<Triple>, m: Methods, c: nat, k: string)
    requires forall i :: 0 <= i < |xs| ==> xs[i].0 in m && xs[i].1 in m[xs[i].0] && m[xs[i].0][xs[i].1] == xs[i].2
    ensures c in Regrouped(xs) ==> c in m && Regrouped(xs)[c] != map[]
    ensures c in Regrouped(xs) && k in Regrouped(xs)[c] ==> k in m[c] && Regrouped(xs)[c][k] == m[c][k]
    ensures (exists i :: 0 <= i < |xs| && xs[i].0 == c && xs[i].1 == k) ==> c in Regrouped(xs) && k in Regrouped(xs)[c]
  {
    if xs == [] {
    } else {
      var front, last := xs[..|xs| - 1], xs[|xs| - 1];
      assert forall i :: 0 <= i < |front| ==> front[i] == xs[i];
      RegroupedFinds(front, m, c, k);
      var group := Regrouped(xs);
      assert last.1 in group[last.0];
      if i :| 0 <= i < |xs| && xs[i].0 == c && xs[i].1 == k {
        if i < |front| { assert front[i].0 == c && front[i].1 == k; }
      }
    }
  }

  /** Regrouping a flattened method table gives the table back up to classes with no methods. */
  lemma RegroupUndoesFlatten(xs: seq<Triple>, m: Methods)
    requires Flattens(xs, m)
    ensures Regrouped(xs) == NonEmpty(m)
  {
    forall c, k: string ensures (c in Regrouped(xs) && k in Regrouped(xs)[c]) <==> (c in m && k in m[c]) {
      RegroupedFinds(xs, m, c, k);
      if c in m && k in m[c] {
        var i :| 0 <= i < |xs| && xs[i] == (c, k, m[c][k]);
        assert xs[i].0 == c && xs[i].1 == k;
      }
    }
    forall c ensures c in Regrouped(xs) <==> c in NonEmpty(m) {
      RegroupedFinds(xs, m, c, "");
      if c in NonEmpty(m) { var k :| k in m[c]; assert k in Regrouped(xs)[c]; }
      if c in Regrouped(xs) { var k :| k in Regrouped(xs)[c]; assert k in m[c]; }
    }
    forall c | c in NonEmpty(m) ensures Regrouped(xs)[c] == m[c] {
      forall k | k in m[c] ensures Regrouped(xs)[c][k] == m[c][k] { RegroupedFinds(xs, m, c, k); }
    }
  }

  function Lookup(m: Methods, c: nat, k: string): Option<nat> {
    if c in m && k in m[c] then Some(m[c][k]) else None
  }

  /** Every method query answers as before; the table itself is the same iff no class is empty. */
  lemma MethodQueriesSurvive(xs: seq<Triple>, m: Methods)
    requires Flattens(xs, m)
    ensures forall c, k :: Lookup(Regrouped(xs), c, k) == Lookup(m, c, k)
    ensures Regrouped(xs) == m <==> forall c :: c in m ==> m[c] != map[]
  {
    RegroupUndoesFlatten(xs, m);
    hide Regrouped, Flattens;
    if Regrouped(xs) == m {
      forall c | c in m ensures m[c] != map[] { assert c in NonEmpty(m); }
    }
  }

  /** `build`: one triple per method, classes and methods in arbitrary order. */
  method Flatten(m: Methods) returns (xs: seq<Triple>)
    ensures Flattens(xs, m)
  {
    xs := [];
    var classes := m.Keys;
    while classes != {}
      invariant classes <= m.Keys
      invariant forall i :: 0 <= i < |xs| ==> xs[i].0 in m && xs[i].1 in m[xs[i].0] && m[xs[i].0][xs[i].1] == xs[i].2
      invariant forall c, k :: c in m && c !in classes && k in m[c] ==> (c, k, m[c][k]) in xs
      decreases classes
    {
      var c :| c in classes;
      var names := m[c].Keys;
      while names != {}
        invariant names <= m[c].Keys
        invariant forall i :: 0 <= i < |xs| ==> xs[i].0 in m && xs[i].1 in m[xs[i].0] && m[xs[i].0][xs[i].1] == xs[i].2
        invariant forall c', k :: c' in m && c' !in classes && k in m[c'] ==> (c', k, m[c'][k]) in xs
        invariant forall k :: k in m[c] && k !in names ==> (c, k, m[c][k]) in xs
        decreases names
      {
        var k :| k in names;
        xs := xs + [(c, k, m[c][k])];
        names := names - {k};
      }
      classes := classes - {c};
    }
  }

  /** `install`: the triples inserted one by one. */
  method Regroup(xs: seq<Triple>) returns (m: Methods)
    ensures m == Regrouped(xs)
  {
    m := map[];
    for i := 0 to |xs|
      invariant m == Regrouped(xs[..i])
    {
      assert xs[..i + 1][..i] == xs[..i];
      m := Grouped(m, xs[i]);
    }
    assert xs[..|xs|] == xs;
  }

  // ---- All tables together ----

  /** The runtime's dispatch tables. */
  datatype Tables = Tables(
    methodResolve: Methods,
    staticInit: map<(nat, string), nat>,
    userFnIdx: map<nat, nat>,
    exactArity: set<nat>,
    classStringMethod: map<nat, nat>,
    lambdaByref: map<nat, seq<bool>>,
    classParent: map<nat, Option<(nat, string)>>,
    classCtorThunk: map<nat, nat>,
    classReflect: map<nat, map<string, seq<string>>>,
    staticFieldOwner: map<nat, map<string, nat>>,
    staticMethodResolve: map<nat, map<string, nat>>,
    lambdaFns: map<nat, (nat, nat)>)

  /** The serialised form, and the address entries the generated harness passes beside it. */
  datatype Meta = Meta(
    methodResolve: seq<Triple>,
    staticInit: seq<((nat, string), nat)>,
    userFnIdx: seq<(nat, nat)>,
    exactArity: seq<nat>,
    classStringMethod: seq<(nat, nat)>,
    lambdaByref: seq<(nat, seq<bool>)>,
    classParent: seq<(nat, Option<(nat, string)>)>,
    classCtorThunk: seq<(nat, nat)>,
    classReflect: seq<(nat, seq<(string, seq<string>)>)>,
    staticFieldOwner: seq<(nat, seq<(string, nat)>)>,
    staticMethodResolve: seq<(nat, seq<(string, nat)>)>,
    lambdaEntries: seq<(nat, nat)>)

  /** `install`, with the function addresses `idx -> (addr, arity)` of the linked program. */
  function Installed(meta: Meta, entries: seq<(nat, (nat, nat))>): Tables {
    Tables(Regrouped(meta.methodResolve), Collect(meta.staticInit), Collect(meta.userFnIdx),
           (set i | 0 <= i < |meta.exactArity| :: meta.exactArity[i]), Collect(meta.classStringMethod),
           Collect(meta.lambdaByref), Collect(meta.classParent), Collect(meta.classCtorThunk),
           CollectNested(meta.classReflect), CollectNested(meta.staticFieldOwner),
           CollectNested(meta.staticMethodResolve), Collect(entries))
  }

  /** The harness registers the address of each listed function, with its arity. */
  function Entries(lambdas: seq<(nat, nat)>, addr: nat -> nat): seq<(nat, (nat, nat))> {
    seq(|lambdas|, i requires 0 <= i < |lambdas| => (lambdas[i].0, (addr(lambdas[i].0), lambdas[i].1)))
  }

  /** `build`: each table listed in whatever order its map is walked. */
  ghost predicate Built(meta: Meta, t: Tables, arity: map<nat, nat>) {
    && Flattens(meta.methodResolve, t.methodResolve) && Lists(meta.staticInit, t.staticInit)
    && Lists(meta.userFnIdx, t.userFnIdx) && (forall x :: x in meta.exactArity <==> x in t.exactArity)
    && Lists(meta.classStringMethod, t.classStringMethod) && Lists(meta.lambdaByref, t.lambdaByref)
    && Lists(meta.classParent, t.classParent) && Lists(meta.classCtorThunk, t.classCtorThunk)
    && ListsNested(meta.classReflect, t.classReflect) && ListsNested(meta.staticFieldOwner, t.staticFieldOwner)
    && ListsNested(meta.staticMethodResolve, t.staticMethodResolve) && Lists(meta.lambdaEntries, arity)
  }

  lemma EntriesListAddresses(lambdas: seq<(nat, nat)>, arity: map<nat, nat>, addr: nat -> nat)
    requires Lists(lambdas, arity)
    ensures Lists(Entries(lambdas, addr), map k | k in arity :: (addr(k), arity[k]))
  {
    var m := map k | k in arity :: (addr(k), arity[k]);
    forall k | k in m ensures (k, m[k]) in Entries(lambdas, addr) {
      var i :| 0 <= i < |lambdas| && lambdas[i] == (k, arity[k]);
      assert Entries(lambdas, addr)[i] == (k, m[k]);
    }
  }

  /** What the started program installs is what the compiler had: every table as it was, the method
      table up to empty classes, and every uniform function at its linked address and arity. */
  lemma InstallUndoesBuild(meta: Meta, t: Tables, arity: map<nat, nat>, addr: nat -> nat)
    requires Built(meta, t, arity)
    ensures Installed(meta, Entries(meta.lambdaEntries, addr))
         == t.(methodResolve := NonEmpty(t.methodResolve), lambdaFns := map k | k in arity :: (addr(k), arity[k]))
  {
    RegroupUndoesFlatten(meta.methodResolve, t.methodResolve);
    CollectUndoesListing(meta.staticInit, t.staticInit);
    CollectUndoesListing(meta.userFnIdx, t.userFnIdx);
    CollectUndoesListing(meta.classStringMethod, t.classStringMethod);
    CollectUndoesListing(meta.lambdaByref, t.lambdaByref);
    CollectUndoesListing(meta.classParent, t.classParent);
    CollectUndoesListing(meta.classCtorThunk, t.classCtorThunk);
    CollectNestedUndoesListing(meta.classReflect, t.classReflect);
    CollectNestedUndoesListing(meta.staticFieldOwner, t.staticFieldOwner);
    CollectNestedUndoesListing(meta.staticMethodResolve, t.staticMethodResolve);
    EntriesListAddresses(meta.lambdaEntries, arity, addr);
    CollectUndoesListing(Entries(meta.lambdaEntries, addr), map k | k in arity :: (addr(k), arity[k]));
    hide Lists, ListsNested, Flattens, Collect, CollectNested, Regrouped;
  }

  // ---- The entry point ----

  const INSTALL_OK := 0
  const INSTALL_BAD_BLOB := 1
  const INSTALL_BAD_ARGS := 2

  /** `leek_aot_install`: null arguments and an unreadable blob leave the runtime's tables alone. */
  method LeekAotInstall(blobIsNull: bool, entriesAreNull: bool, blob: Option<Meta>, entries: seq<(nat, (nat, nat))>,
                        before: Tables) returns (status: nat, after: Tables)
    ensures status == INSTALL_BAD_ARGS <==> blobIsNull || entriesAreNull
    ensures status == INSTALL_BAD_BLOB <==> !blobIsNull && !entriesAreNull && blob.None?
    ensures status in {INSTALL_OK, INSTALL_BAD_BLOB, INSTALL_BAD_ARGS}
    ensures after == if status == INSTALL_OK then Installed(blob.value, entries) else before
  {
    if blobIsNull || entriesAreNull {
      return INSTALL_BAD_ARGS, before;
    }
    if blob.None? {
      return INSTALL_BAD_BLOB, before;
    }
    var addrs: map<nat, (nat, nat)> := map[];
    for i := 0 to |entries|
      invariant addrs == Collect(entries[..i])
    {
      assert entries[..i + 1][..i] == entries[..i];
      addrs := addrs[entries[i].0 := entries[i].1];
    }
    assert entries[..|entries|] == entries;
    var methods := Regroup(blob.value.methodResolve);
    return INSTALL_OK, Installed(blob.value, entries).(methodResolve := methods, lambdaFns := addrs);
  }
}
