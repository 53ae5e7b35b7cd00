/** The crate layering rule, `xtask/src/layers.rs`: single edges, the allowlist match, and what a
    clean report means for whole dependency paths. */
module Layers {
  import opened Options

  datatype Layer = Core | Frontend | Middle | Db | Backends | Game | Tools | Testing | Bins | Xtask

  function Rank(l: Layer): nat {
    match l
    case Core => 0
    case Frontend => 1
    case Middle => 2
    case Db => 3
    case Backends => 4
    case Game => 5
    case Tools | Testing => 6
    case Bins | Xtask => 7
  }

  /** The layers from the bottom of the stack up; layers that share a place are peers. */
  const STACK: seq<set<Layer>> :=
    [{Core}, {Frontend}, {Middle}, {Db}, {Backends}, {Game}, {Tools, Testing}, {Bins, Xtask}]

  lemma RankIsPlaceInStack(l: Layer, r: nat)
    ensures Rank(l) == r <==> r < |STACK| && l in STACK[r]
  {
    match l case _ =>
  }

  datatype DepKind = Normal | Build | Dev

  datatype Breach = Upward | Peer | DevTooHigh

  /** What is wrong, if anything, with an edge between two layers. */
  function BreachOf(from: Layer, to: Layer, kind: DepKind): Option<Breach> {
    if from == to then None
    else
      match kind
      case Normal | Build =>
        if Rank(to) < Rank(from) then None else if Rank(to) == Rank(from) then Some(Peer) else Some(Upward)
      case Dev => if Rank(to) > Rank(from) + 1 then Some(DevTooHigh) else None
  }

  datatype Edge = Edge(from: string, to: string, kind: DepKind)

  /** Members with their layers, and the edges in the order the edge set is walked. */
  datatype Workspace = Workspace(crates: map<string, Layer>, edges: seq<Edge>)

  datatype AllowEntry = AllowEntry(line: nat, reason: string)

  type Allowlist = map<(string, string), AllowEntry>

  datatype Violation = Violation(edge: Edge, fromLayer: Layer, toLayer: Layer, breach: Breach)

  datatype Report = Report(violations: seq<Violation>, allowed: seq<Violation>, stale: map<(string, string), nat>)

  /** The violation an edge is, if it is one. */
  function ViolationOf(ws: Workspace, e: Edge): Option<Violation> {
    if e.from !in ws.crates || e.to !in ws.crates then None
    else
      match BreachOf(ws.crates[e.from], ws.crates[e.to], e.kind)
      case None => None
      case Some(b) => Some(Violation(e, ws.crates[e.from], ws.crates[e.to], b))
  }

  function Key(e: Edge): (string, string) { (e.from, e.to) }

  /** The violations among some edges, in order, that are (or are not) allowlisted. */
  function Breaches(ws: Workspace, edges: seq<Edge>, allow: Allowlist, listed: bool): seq<Violation> {
    if edges == [] then []
    else
      var front, e := edges[..|edges| - 1], edges[|edges| - 1];
      Breaches(ws, front, allow, listed)
      + if ViolationOf(ws, e).Some? && (Key(e) in allow) == listed then [ViolationOf(ws, e).value] else []
  }

  /** Some breaching edge has this key. */
  ghost predicate Matched(ws: Workspace, edges: seq<Edge>, key: (string, string)) {
    exists i :: 0 <= i < |edges| && ViolationOf(ws, edges[i]).Some? && Key(edges[i]) == key
  }

  /** `check`: the breaching edges split by the allowlist, and the entries that matched nothing. */
  method Check(ws: Workspace, allow: Allowlist) returns (r: Report)
    ensures r.violations == Breaches(ws, ws.edges, allow, false)
    ensures r.allowed == Breaches(ws, ws.edges, allow, true)
    ensures forall v :: v in r.violations <==> v.edge in ws.edges && Breaks(ws, v) && Key(v.edge) !in allow
    ensures forall v :: v in r.allowed <==> v.edge in ws.edges && Breaks(ws, v) && Key(v.edge) in allow
    ensures forall key :: key in r.stale <==>
              key in allow && forall e :: e in ws.edges && Key(e) == key ==> Legal(ws, e)
    ensures forall key :: key in r.stale ==> r.stale[key] == allow[key].line
  {
    hide ViolationOf, Breaches, Matched, Legal, Breaks;
    var violations, allowed: seq<Violation> := [], [];
    var used: set<(string, string)> := {};
    NoEdges(ws, allow);
    for i := 0 to |ws.edges|
      invariant violations == Breaches(ws, ws.edges[..i], allow, false)
      invariant allowed == Breaches(ws, ws.edges[..i], allow, true)
      invariant forall key :: key in used <==> key in allow && Matched(ws, ws.edges[..i], key)
    {
      var edge := ws.edges[i];
      OneEdge(ws, ws.edges[..i], edge, allow);
      assert ws.edges[..i + 1] == ws.edges[..i] + [edge];
      var violation := ViolationOf(ws, edge);
      if violation.Some? {
        if Key(edge) in allow {
          used := used + {Key(edge)};
          allowed := allowed + [violation.value];
        } else {
          violations := violations + [violation.value];
        }
      }
    }
    assert ws.edges[..|ws.edges|] == ws.edges;
    ListsAreIllegal(ws, allow);
    r := Report(violations, allowed, map key | key in allow && key !in used :: allow[key].line);
  }

  /** What the lists and the matched keys are, in terms of the rule. */
  lemma ListsAreIllegal(ws: Workspace, allow: Allowlist)
    ensures forall listed, v :: v in Breaches(ws, ws.edges, allow, listed) <==>
              v.edge in ws.edges && Breaks(ws, v) && (Key(v.edge) in allow) == listed
    ensures forall key :: !Matched(ws, ws.edges, key) <==> forall e :: e in ws.edges && Key(e) == key ==> Legal(ws, e)
  {
    hide Breaches, Legal, Breaks, ViolationOf;
    forall listed, v
      ensures v in Breaches(ws, ws.edges, allow, listed) <==>
                v.edge in ws.edges && Breaks(ws, v) && (Key(v.edge) in allow) == listed
    {
      ListsPartitionBreaches(ws, ws.edges, allow, listed, v);
    }
    forall e ensures ViolationOf(ws, e).None? <==> Legal(ws, e) { ViolationsAreIllegal(ws, e); }
  }

  lemma NoEdges(ws: Workspace, allow: Allowlist)
    ensures forall listed :: Breaches(ws, [], allow, listed) == []
    ensures forall key :: !Matched(ws, [], key)
  {}

  lemma OneEdge(ws: Workspace, edges: seq<Edge>, e: Edge, allow: Allowlist)
    ensures forall listed :: Breaches(ws, edges + [e], allow, listed)
                             == Breaches(ws, edges, allow, listed)
                                + if ViolationOf(ws, e).Some? && (Key(e) in allow) == listed
                                  then [ViolationOf(ws, e).value] else []
    ensures forall key :: Matched(ws, edges + [e], key)
                          <==> Matched(ws, edges, key) || (ViolationOf(ws, e).Some? && Key(e) == key)
  {
    hide ViolationOf;
    var longer := edges + [e];
    assert longer[..|edges|] == edges && longer[|edges|] == e;
    forall key | Matched(ws, edges, key) ensures Matched(ws, longer, key) {
      var i :| 0 <= i < |edges| && ViolationOf(ws, edges[i]).Some? && Key(edges[i]) == key;
      assert longer[i] == edges[i];
    }
  }

  /** The dependency rule: a member's dependencies are in its own layer or, apart from tests, in a
      strictly lower one; its tests may reach one rank up. */
  predicate Legal(ws: Workspace, e: Edge) {
    e.from in ws.crates && e.to in ws.crates ==>
      var from, to := ws.crates[e.from], ws.crates[e.to];
      from == to || if e.kind == Dev then Rank(to) <= Rank(from) + 1 else Rank(to) < Rank(from)
  }

  /** How an edge breaks the rule: a test too far up, another layer of the same rank, or upward. */
  predicate Breaks(ws: Workspace, v: Violation) {
    && v.edge.from in ws.crates && v.edge.to in ws.crates && !Legal(ws, v.edge)
    && v.fromLayer == ws.crates[v.edge.from] && v.toLayer == ws.crates[v.edge.to]
    && (v.breach == DevTooHigh <==> v.edge.kind == Dev)
    && (v.breach == Peer <==> v.edge.kind != Dev && Rank(v.toLayer) == Rank(v.fromLayer))
  }

  /** An edge is a violation exactly when it breaks the rule, and says how. */
  lemma ViolationsAreIllegal(ws: Workspace, e: Edge)
    ensures ViolationOf(ws, e).None? <==> Legal(ws, e)
    ensures forall v :: ViolationOf(ws, e) == Some(v) <==> v.edge == e && Breaks(ws, v)
  {}

  /** Both lists hold exactly the edges that break the rule, each as often as it occurs, in the list
      that its key decides. */
  lemma {:induction false} ListsPartitionBreaches(ws: Workspace, edges: seq<Edge>, allow: Allowlist, listed: bool,
                                                  v: Violation)
    ensures multiset(Breaches(ws, edges, allow, listed))[v]
         == if Breaks(ws, v) && (Key(v.edge) in allow) == listed then multiset(edges)[v.edge] else 0
    ensures v in Breaches(ws, edges, allow, listed) <==>
              v.edge in edges && Breaks(ws, v) && (Key(v.edge) in allow) == listed
  {
    hide Breaks, ViolationOf, Key;
    if edges == [] {
    } else {
      var front, e := edges[..|edges| - 1], edges[|edges| - 1];
      ListsPartitionBreaches(ws, front, allow, listed, v);
      LastBreach(ws, e, allow, listed, v);
      assert edges == front + [e];
      var found := Breaches(ws, front, allow, listed);
      assert Breaches(ws, edges, allow, listed) == found + LastBreaches(ws, e, allow, listed);
      hide Breaches, LastBreaches;
      assert v in found + LastBreaches(ws, e, allow, listed) <==>
             multiset(found + LastBreaches(ws, e, allow, listed))[v] > 0;
      assert v.edge in edges <==> multiset(edges)[v.edge] > 0;
    }
  }

  function LastBreaches(ws: Workspace, e: Edge, allow: Allowlist, listed: bool): seq<Violation> {
    if ViolationOf(ws, e).Some? && (Key(e) in allow) == listed then [ViolationOf(ws, e).value] else []
  }

  lemma LastBreach(ws: Workspace, e: Edge, allow: Allowlist, listed: bool, v: Violation)
    ensures multiset(LastBreaches(ws, e, allow, listed))[v]
         == if Breaks(ws, v) && (Key(v.edge) in allow) == listed && v.edge == e then 1 else 0
  {
    ViolationsAreIllegal(ws, e);
    hide ViolationOf, Breaks, Key;
  }

  /** The report is empty exactly when every dependency is legal. */
  lemma CleanIffLegal(ws: Workspace, allow: Allowlist)
    ensures Breaches(ws, ws.edges, allow, false) == [] && Breaches(ws, ws.edges, allow, true) == []
       <==> forall e :: e in ws.edges ==> Legal(ws, e)
    ensures Breaches(ws, ws.edges, allow, false) == []
       <==> forall e :: e in ws.edges && Key(e) !in allow ==> Legal(ws, e)
  {
    hide Breaches, Legal, Breaks;
    forall listed
      ensures Breaches(ws, ws.edges, allow, listed) == []
         <==> forall e :: e in ws.edges && (Key(e) in allow) == listed ==> Legal(ws, e)
    {
      EmptyIffLegal(ws, allow, listed);
    }
  }

  lemma EmptyIffLegal(ws: Workspace, allow: Allowlist, listed: bool)
    ensures Breaches(ws, ws.edges, allow, listed) == []
       <==> forall e :: e in ws.edges && (Key(e) in allow) == listed ==> Legal(ws, e)
  {
    hide Breaches, Legal, Breaks, ViolationOf;
    var found := Breaches(ws, ws.edges, allow, listed);
    if found != [] {
      ListsPartitionBreaches(ws, ws.edges, allow, listed, found[0]);
      ViolationsAreIllegal(ws, found[0].edge);
      assert ViolationOf(ws, found[0].edge) == Some(found[0]);
    }
    forall e | e in ws.edges && (Key(e) in allow) == listed && found == [] ensures Legal(ws, e) {
      ViolationsAreIllegal(ws, e);
      if ViolationOf(ws, e).Some? {
        ListsPartitionBreaches(ws, ws.edges, allow, listed, ViolationOf(ws, e).value);
      }
    }
  }

  /** The lists keep the order of the edges. */
  lemma {:induction false} BreachesKeepOrder(ws: Workspace, a: seq<Edge>, b: seq<Edge>, allow: Allowlist, listed: bool)
    ensures Breaches(ws, a + b, allow, listed) == Breaches(ws, a, allow, listed) + Breaches(ws, b, allow, listed)
  {
    hide ViolationOf;
    if b == [] {
      assert a + b == a;
    } else {
      var front := b[..|b| - 1];
      assert (a + b)[..|a + b| - 1] == a + front;
      BreachesKeepOrder(ws, a, front, allow, listed);
    }
  }

  // ---- What a clean report means ----

  /** A normal or build dependency between two crates. */
  ghost predicate Linked(ws: Workspace, from: string, to: string) {
    Edge(from, to, Normal) in ws.edges || Edge(from, to, Build) in ws.edges
  }

  /** Consecutive crates joined by normal or build dependencies. */
  ghost predicate IsPath(ws: Workspace, p: seq<string>) {
    && p != []
    && (forall i :: 0 <= i < |p| ==> p[i] in ws.crates)
    && (forall i :: 0 <= i < |p| - 1 ==> Linked(ws, p[i], p[i + 1]))
  }

  /** No step of the path is a breach that the allowlist lets through. */
  ghost predicate UsesNoException(ws: Workspace, allow: Allowlist, p: seq<string>) {
    forall i :: 0 <= i < |p| - 1 && (p[i], p[i + 1]) in allow ==> Legal(ws, Edge(p[i], p[i + 1], Normal))
  }

  lemma CleanEdgesDescend(ws: Workspace, allow: Allowlist, from: string, to: string)
    requires Linked(ws, from, to) && from in ws.crates && to in ws.crates
    requires Breaches(ws, ws.edges, allow, false) == []
    requires (from, to) in allow ==> Legal(ws, Edge(from, to, Normal))
    ensures ws.crates[from] == ws.crates[to] || Rank(ws.crates[to]) < Rank(ws.crates[from])
  {
    hide Breaches;
    CleanIffLegal(ws, allow);
    assert Legal(ws, Edge(from, to, Normal)) <==> Legal(ws, Edge(from, to, Build));
  }

  /** With no violation, under any allowlist, every path that uses none of its exceptions stays
      inside one layer all along, or ends at a strictly lower rank. */
  lemma {:induction false} PathsDescend(ws: Workspace, allow: Allowlist, p: seq<string>)
    requires IsPath(ws, p) && Breaches(ws, ws.edges, allow, false) == [] && UsesNoException(ws, allow, p)
    ensures (forall i :: 0 <= i < |p| ==> ws.crates[p[i]] == ws.crates[p[0]])
            || Rank(ws.crates[p[|p| - 1]]) < Rank(ws.crates[p[0]])
    decreases |p|
  {
    hide Breaches, Rank, Linked, Legal;
    if |p| == 1 {
    } else {
      var n := |p| - 1;
      var front := p[..n];
      assert forall i :: 0 <= i < |front| ==> front[i] == p[i];
      assert IsPath(ws, front) && UsesNoException(ws, allow, front);
      PathsDescend(ws, allow, front);
      assert p[n] == p[(n - 1) + 1];
      CleanEdgesDescend(ws, allow, p[n - 1], p[n]);
    }
  }

  /** So no dependency cycle without an exception crosses layers, and with an empty allowlist none does. */
  lemma CyclesStayInOneLayer(ws: Workspace, allow: Allowlist, p: seq<string>)
    requires IsPath(ws, p) && p[0] == p[|p| - 1] && Breaches(ws, ws.edges, allow, false) == []
    requires allow == map[] || UsesNoException(ws, allow, p)
    ensures forall i :: 0 <= i < |p| ==> ws.crates[p[i]] == ws.crates[p[0]]
  {
    PathsDescend(ws, allow, p);
  }

  /** With the report clean, a dev dependency that is no exception reaches at most one rank up. */
  lemma CleanDevEdges(ws: Workspace, allow: Allowlist, e: Edge)
    requires e in ws.edges && e.from in ws.crates && e.to in ws.crates && Key(e) !in allow
    requires Breaches(ws, ws.edges, allow, false) == []
    ensures Rank(ws.crates[e.to]) <= Rank(ws.crates[e.from]) + if e.kind == Dev then 1 else 0
  {
    hide Breaches;
    CleanIffLegal(ws, allow);
  }
}
