/** v1 box-return analysis: which functions and lambda-holding variables hand a box back to
    their caller. `crates/backends/leek-backend-java/src/analysis.rs`, `v1_box_returners`,
    from the evidence tables on. */
module BoxReturns {
  /** A forwarded call: of a named function or of a variable holding a lambda. */
  datatype Dep = Fn(id: nat) | Var(id: nat)

  /** What the returns of one body show: a returned variable or element, and forwarded calls. */
  datatype Ev = Ev(direct: bool, deps: seq<Dep>)

  type Table = map<nat, Ev>

  // ---- The meaning: a chain of forwarded calls that ends in direct evidence ----

  ghost predicate Known(fnEv: Table, varEv: Table, d: Dep) {
    match d case Fn(k) => k in fnEv case Var(k) => k in varEv
  }

  ghost function Evidence(fnEv: Table, varEv: Table, d: Dep): Ev
    requires Known(fnEv, varEv, d)
  {
    match d case Fn(k) => fnEv[k] case Var(k) => varEv[k]
  }

  ghost predicate IsChain(fnEv: Table, varEv: Table, p: seq<Dep>) {
    && p != []
    && (forall i :: 0 <= i < |p| ==> Known(fnEv, varEv, p[i]))
    && (forall i :: 0 <= i < |p| - 1 ==> p[i + 1] in Evidence(fnEv, varEv, p[i]).deps)
    && Evidence(fnEv, varEv, p[|p| - 1]).direct
  }

  ghost predicate ReturnsBox(fnEv: Table, varEv: Table, d: Dep) {
    exists p :: IsChain(fnEv, varEv, p) && p[0] == d
  }

  // ---- Fixpoints ----

  predicate Resolved(fns: set<nat>, vars: set<nat>, d: Dep) {
    match d case Fn(k) => k in fns case Var(k) => k in vars
  }

  predicate AnyResolved(fns: set<nat>, vars: set<nat>, deps: seq<Dep>) {
    exists i :: 0 <= i < |deps| && Resolved(fns, vars, deps[i])
  }

  /** Direct evidence is in, and so is everything that forwards to a member. */
  ghost predicate ClosedUnderForwarding(fnEv: Table, varEv: Table, fns: set<nat>, vars: set<nat>) {
    forall d: Dep :: Known(fnEv, varEv, d) ==>
      (Evidence(fnEv, varEv, d).direct || AnyResolved(fns, vars, Evidence(fnEv, varEv, d).deps)) ==>
      Resolved(fns, vars, d)
  }

  /** Only nodes with a chain to direct evidence are in. */
  ghost predicate Justified(fnEv: Table, varEv: Table, fns: set<nat>, vars: set<nat>) {
    forall d: Dep :: Resolved(fns, vars, d) ==> ReturnsBox(fnEv, varEv, d)
  }

  lemma {:induction false} ClosedContainsChains(fnEv: Table, varEv: Table, fns: set<nat>, vars: set<nat>, p: seq<Dep>)
    requires ClosedUnderForwarding(fnEv, varEv, fns, vars) && IsChain(fnEv, varEv, p)
    ensures Resolved(fns, vars, p[0])
    decreases |p|
  {
    if |p| <= 1 {
    } else {
      var q := p[1..];
      assert forall i :: 0 <= i < |q| ==> q[i] == p[i + 1];
      ClosedContainsChains(fnEv, varEv, fns, vars, q);
      var deps := Evidence(fnEv, varEv, p[0]).deps;
      assert p[0 + 1] in deps;
      var i :| 0 <= i < |deps| && deps[i] == p[1];
      assert Resolved(fns, vars, deps[i]);
    }
  }

  /** The answer lies inside every closed pair of sets: it is the least fixpoint. */
  lemma ReturnsBoxIsLeast(fnEv: Table, varEv: Table, fns: set<nat>, vars: set<nat>, d: Dep)
    requires ClosedUnderForwarding(fnEv, varEv, fns, vars) && ReturnsBox(fnEv, varEv, d)
    ensures Resolved(fns, vars, d)
  {
    var p :| IsChain(fnEv, varEv, p) && p[0] == d;
    ClosedContainsChains(fnEv, varEv, fns, vars, p);
  }

  lemma ForwardingExtends(fnEv: Table, varEv: Table, fns: set<nat>, vars: set<nat>, d: Dep)
    requires Justified(fnEv, varEv, fns, vars) && Known(fnEv, varEv, d)
    requires AnyResolved(fns, vars, Evidence(fnEv, varEv, d).deps)
    ensures ReturnsBox(fnEv, varEv, d)
  {
    var deps := Evidence(fnEv, varEv, d).deps;
    var i :| 0 <= i < |deps| && Resolved(fns, vars, deps[i]);
    var p :| IsChain(fnEv, varEv, p) && p[0] == deps[i];
    var q := [d] + p;
    assert q[1..] == p;
    assert forall k :: 1 <= k < |q| ==> q[k] == p[k - 1];
    assert IsChain(fnEv, varEv, q) && q[0] == d;
  }

  lemma DirectIsChain(fnEv: Table, varEv: Table, d: Dep)
    requires Known(fnEv, varEv, d) && Evidence(fnEv, varEv, d).direct
    ensures ReturnsBox(fnEv, varEv, d)
  {
    assert IsChain(fnEv, varEv, [d]) && [d][0] == d;
  }

  /** The nodes forward to each other only, and none of them is direct. */
  ghost predicate ForwardsInside(fnEv: Table, varEv: Table, nodes: iset<Dep>) {
    forall c: Dep :: c in nodes && Known(fnEv, varEv, c) ==>
      !Evidence(fnEv, varEv, c).direct && forall e :: e in Evidence(fnEv, varEv, c).deps ==> e in nodes
  }

  lemma {:induction false} NoChainInside(fnEv: Table, varEv: Table, nodes: iset<Dep>, p: seq<Dep>)
    requires ForwardsInside(fnEv, varEv, nodes) && IsChain(fnEv, varEv, p)
    ensures p[0] !in nodes
    decreases |p|
  {
    if |p| <= 1 {
    } else {
      assert p[1] in Evidence(fnEv, varEv, p[0]).deps;
      assert IsChain(fnEv, varEv, p[1..]) by { assert forall i :: 0 <= i < |p| - 1 ==> p[1..][i] == p[i + 1]; }
      NoChainInside(fnEv, varEv, nodes, p[1..]);
    }
  }

  lemma ForwardingIsChain(fnEv: Table, varEv: Table, c: Dep, e: Dep)
    requires Known(fnEv, varEv, c) && e in Evidence(fnEv, varEv, c).deps && ReturnsBox(fnEv, varEv, e)
    ensures ReturnsBox(fnEv, varEv, c)
  {
    var p :| IsChain(fnEv, varEv, p) && p[0] == e;
    var q := [c] + p;
    assert forall i :: 0 < i < |q| ==> q[i] == p[i - 1];
    assert IsChain(fnEv, varEv, q) && q[0] == c;
  }

  /** A node stays out exactly when it lies in a set that forwards inside itself, such as a cycle,
      and has no direct member. */
  lemma CyclesAloneStayOut(fnEv: Table, varEv: Table, d: Dep)
    ensures !ReturnsBox(fnEv, varEv, d) <==> exists nodes: iset<Dep> :: d in nodes && ForwardsInside(fnEv, varEv, nodes)
  {
    if ReturnsBox(fnEv, varEv, d) {
      var p :| IsChain(fnEv, varEv, p) && p[0] == d;
      forall nodes: iset<Dep> | ForwardsInside(fnEv, varEv, nodes) ensures d !in nodes {
        NoChainInside(fnEv, varEv, nodes, p);
      }
    } else {
      var nodes := iset c: Dep | !ReturnsBox(fnEv, varEv, c);
      forall c: Dep | c in nodes && Known(fnEv, varEv, c)
        ensures !Evidence(fnEv, varEv, c).direct && forall e :: e in Evidence(fnEv, varEv, c).deps ==> e in nodes
      {
        if Evidence(fnEv, varEv, c).direct { DirectIsChain(fnEv, varEv, c); }
        forall e | e in Evidence(fnEv, varEv, c).deps ensures e in nodes {
          if ReturnsBox(fnEv, varEv, e) { ForwardingIsChain(fnEv, varEv, c, e); }
        }
      }
      assert ForwardsInside(fnEv, varEv, nodes);
    }
  }

  // ---- The algorithm ----

  method HasResolved(fns: set<nat>, vars: set<nat>, deps: seq<Dep>) returns (r: bool)
    ensures r == AnyResolved(fns, vars, deps)
  {
    for i := 0 to |deps|
      invariant forall k :: 0 <= k < i ==> !Resolved(fns, vars, deps[k])
    {
      if Resolved(fns, vars, deps[i]) {
        return true;
      }
    }
    return false;
  }

  /** Entries of one table that the pass may still skip over. */
  ghost predicate Settled(fns: set<nat>, vars: set<nat>, table: Table, members: set<nat>, keys: set<nat>) {
    forall k :: k in keys && k in table ==> k in members || !AnyResolved(fns, vars, table[k].deps)
  }

  ghost function Missing(fnEv: Table, varEv: Table, fns: set<nat>, vars: set<nat>): nat {
    |fnEv.Keys - fns| + |varEv.Keys - vars|
  }

  lemma MissingShrinks(keys: set<nat>, members: set<nat>, k: nat)
    requires k in keys && k !in members
    ensures |keys - (members + {k})| == |keys - members| - 1
  {
    assert keys - (members + {k}) == (keys - members) - {k};
  }

  /** One pass over the function table, in any order, growing `fns` as it goes. */
  method PassFns(fnEv: Table, varEv: Table, fns0: set<nat>, vars: set<nat>) returns (fns: set<nat>, changed: bool)
    requires Justified(fnEv, varEv, fns0, vars) && fns0 <= fnEv.Keys
    ensures Justified(fnEv, varEv, fns, vars) && fns0 <= fns <= fnEv.Keys
    ensures !changed ==> fns == fns0 && Settled(fns, vars, fnEv, fns, fnEv.Keys)
    ensures changed ==> |fnEv.Keys - fns| < |fnEv.Keys - fns0|
  {
    fns, changed := fns0, false;
    var todo := fnEv.Keys;
    while todo != {}
      invariant todo <= fnEv.Keys
      invariant Justified(fnEv, varEv, fns, vars) && fns0 <= fns <= fnEv.Keys
      invariant !changed ==> fns == fns0 && Settled(fns, vars, fnEv, fns, fnEv.Keys - todo)
      invariant changed ==> |fnEv.Keys - fns| < |fnEv.Keys - fns0|
      decreases todo
    {
      var k :| k in todo;
      todo := todo - {k};
      if k !in fns {
        var forwards := HasResolved(fns, vars, fnEv[k].deps);
        if forwards {
          ForwardingExtends(fnEv, varEv, fns, vars, Fn(k));
          MissingShrinks(fnEv.Keys, fns, k);
          fns := fns + {k};
          changed := true;
        }
      }
    }
  }

  /** One pass over the variable table. */
  method PassVars(fnEv: Table, varEv: Table, fns: set<nat>, vars0: set<nat>) returns (vars: set<nat>, changed: bool)
    requires Justified(fnEv, varEv, fns, vars0) && vars0 <= varEv.Keys
    ensures Justified(fnEv, varEv, fns, vars) && vars0 <= vars <= varEv.Keys
    ensures !changed ==> vars == vars0 && Settled(fns, vars, varEv, vars, varEv.Keys)
    ensures changed ==> |varEv.Keys - vars| < |varEv.Keys - vars0|
  {
    vars, changed := vars0, false;
    var todo := varEv.Keys;
    while todo != {}
      invariant todo <= varEv.Keys
      invariant Justified(fnEv, varEv, fns, vars) && vars0 <= vars <= varEv.Keys
      invariant !changed ==> vars == vars0 && Settled(fns, vars, varEv, vars, varEv.Keys - todo)
      invariant changed ==> |varEv.Keys - vars| < |varEv.Keys - vars0|
      decreases todo
    {
      var k :| k in todo;
      todo := todo - {k};
      if k !in vars {
        var forwards := HasResolved(fns, vars, varEv[k].deps);
        if forwards {
          ForwardingExtends(fnEv, varEv, fns, vars, Var(k));
          MissingShrinks(varEv.Keys, vars, k);
          vars := vars + {k};
          changed := true;
        }
      }
    }
  }

  lemma CardinalityMonotone(a: set<nat>, b: set<nat>)
    requires a <= b
    ensures |a| <= |b|
  {
    assert b == a + (b - a);
  }

  function Seed(table: Table): set<nat> {
    set k | k in table && table[k].direct
  }

  lemma SeedsJustified(fnEv: Table, varEv: Table)
    ensures Justified(fnEv, varEv, Seed(fnEv), Seed(varEv))
  {
    forall d: Dep | Resolved(Seed(fnEv), Seed(varEv), d) ensures ReturnsBox(fnEv, varEv, d) {
      DirectIsChain(fnEv, varEv, d);
    }
  }

  /** A pass without a change leaves closed sets. */
  lemma SettledIsClosed(fnEv: Table, varEv: Table, fns: set<nat>, vars: set<nat>)
    requires Settled(fns, vars, fnEv, fns, fnEv.Keys) && Settled(fns, vars, varEv, vars, varEv.Keys)
    requires Seed(fnEv) <= fns && Seed(varEv) <= vars
    ensures ClosedUnderForwarding(fnEv, varEv, fns, vars)
  {
    forall d: Dep | Known(fnEv, varEv, d)
      && (Evidence(fnEv, varEv, d).direct || AnyResolved(fns, vars, Evidence(fnEv, varEv, d).deps))
      ensures Resolved(fns, vars, d)
    {
      match d
      case Fn(k) => assert fnEv[k].direct ==> k in Seed(fnEv);
      case Var(k) => assert varEv[k].direct ==> k in Seed(varEv);
    }
  }

  lemma JustifiedAndClosedIsExact(fnEv: Table, varEv: Table, fns: set<nat>, vars: set<nat>, d: Dep)
    requires Justified(fnEv, varEv, fns, vars) && ClosedUnderForwarding(fnEv, varEv, fns, vars)
    ensures Resolved(fns, vars, d) <==> ReturnsBox(fnEv, varEv, d)
  {
    if ReturnsBox(fnEv, varEv, d) { ReturnsBoxIsLeast(fnEv, varEv, fns, vars, d); }
  }

  /** The mutual fixpoint returns exactly the nodes with a chain to direct evidence,
      whatever the iteration order and although the sets grow while a pass runs. */
  method V1BoxReturners(fnEv: Table, varEv: Table) returns (fns: set<nat>, vars: set<nat>)
    ensures forall k :: k in fns <==> ReturnsBox(fnEv, varEv, Fn(k))
    ensures forall k :: k in vars <==> ReturnsBox(fnEv, varEv, Var(k))
  {
    hide Justified, ReturnsBox, Settled, ClosedUnderForwarding;
    fns, vars := Seed(fnEv), Seed(varEv);
    SeedsJustified(fnEv, varEv);
    while true
      invariant Justified(fnEv, varEv, fns, vars)
      invariant Seed(fnEv) <= fns <= fnEv.Keys && Seed(varEv) <= vars <= varEv.Keys
      decreases Missing(fnEv, varEv, fns, vars)
    {
      ghost var fns0, vars0 := fns, vars;
      var changedFns, changedVars;
      fns, changedFns := PassFns(fnEv, varEv, fns, vars);
      vars, changedVars := PassVars(fnEv, varEv, fns, vars);
      if !(changedFns || changedVars) {
        SettledIsClosed(fnEv, varEv, fns, vars);
        break;
      }
      CardinalityMonotone(fnEv.Keys - fns, fnEv.Keys - fns0);
      CardinalityMonotone(varEv.Keys - vars, varEv.Keys - vars0);
    }
    forall k ensures k in fns <==> ReturnsBox(fnEv, varEv, Fn(k)) {
      JustifiedAndClosedIsExact(fnEv, varEv, fns, vars, Fn(k));
    }
    forall k ensures k in vars <==> ReturnsBox(fnEv, varEv, Var(k)) {
      JustifiedAndClosedIsExact(fnEv, varEv, fns, vars, Var(k));
    }
  }
}
