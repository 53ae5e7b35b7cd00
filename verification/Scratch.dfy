/** Exclusive scratch directories, `crates/backends/leek-backend-native/src/aot.rs`: `Scratch::new_in`
    and its `Drop`, over every interleaving of any number of processes and threads sharing one
    base directory. */
module Scratch {
  import opened Decimals

  const TRIES := 1024
  /** `AtomicUsize` counters wrap around. */
  const COUNTER_RANGE := 0x1_0000_0000_0000_0000

  function DirName(pid: nat, seqNo: nat): string {
    "leek-aot-" + Decimal(pid) + "-" + Decimal(seqNo)
  }

  /** The process id comes first. */
  lemma DirNameExample()
    ensures DirName(7, 12) == "leek-aot-7-12"
  {
    assert Decimal(1) == "1" && Decimal(12) == "12" && Decimal(7) == "7";
  }

  lemma {:induction false} SplitAtDash(a: string, b: string, x: string, y: string)
    requires a + "-" + x == b + "-" + y && '-' !in a && '-' !in b
    ensures a == b && x == y
    decreases |a|
  {
    var s, t := a + "-" + x, b + "-" + y;
    if a == "" || b == "" {
      assert s[0] == t[0];
      assert a == b == "";
      assert s[1..] == x && t[1..] == y;
    } else {
      assert s[0] == a[0] && t[0] == b[0];
      assert s[1..] == a[1..] + "-" + x && t[1..] == b[1..] + "-" + y;
      SplitAtDash(a[1..], b[1..], x, y);
      assert a == [a[0]] + a[1..] && b == [b[0]] + b[1..];
    }
  }

  /** Different process ids or sequence numbers give different names. */
  lemma DirNameIsInjective(p: nat, i: nat, q: nat, j: nat)
    requires DirName(p, i) == DirName(q, j)
    ensures p == q && i == j
  {
    DecimalIsDigits(p);
    DecimalIsDigits(q);
    var a, b, x, y := Decimal(p), Decimal(q), Decimal(i), Decimal(j);
    hide Decimal;
    var prefix := "leek-aot-";
    assert DirName(p, i) == prefix + (a + "-" + x) && DirName(q, j) == prefix + (b + "-" + y);
    assert DirName(p, i)[|prefix|..] == a + "-" + x && DirName(q, j)[|prefix|..] == b + "-" + y;
    SplitAtDash(a, b, x, y);
    DecimalIsInjective(p, q);
    DecimalIsInjective(i, j);
  }

  // ---- The protocol ----

  type OwnerId = nat
  type ProcId = nat
  type ThreadId = nat

  /** Who made a directory: a scratch owner of the protocol, or anybody else. */
  datatype Creator = Outsider | By(owner: OwnerId)

  /** A live `Scratch` value. */
  datatype Live = Live(proc: ProcId, path: string, keep: bool)

  /** A thread inside `new_in`: `Counting` before the counter is read, `Creating` with its name. */
  datatype Attempt =
    | Counting(keep: bool, left: nat)
    | Creating(path: string, keep: bool, left: nat)

  /** One process: its id, which may be reused, its shared counter and its threads in `new_in`. */
  datatype Process = Process(pid: nat, counter: nat, attempts: map<ThreadId, Attempt>)

  datatype World = World(dirs: map<string, Creator>, procs: map<ProcId, Process>, live: map<OwnerId, Live>,
                         fresh_: OwnerId)

  datatype Action =
    | Spawn(p: ProcId, pid: nat)
    | Enter(p: ProcId, t: ThreadId, keep: bool)
    | FetchAdd(p: ProcId, t: ThreadId)
    | CreateDir(p: ProcId, t: ThreadId)
    | CreateError(p: ProcId, t: ThreadId)
    | Drop(o: OwnerId)
    | DropError(o: OwnerId)
    | Exit(p: ProcId)
    | Plant(path: string)
    | Sweep(path: string)

  function WithAttempt(w: World, p: ProcId, t: ThreadId, a: Attempt): World
    requires p in w.procs
  {
    w.(procs := w.procs[p := w.procs[p].(attempts := w.procs[p].attempts[t := a])])
  }

  function WithoutAttempt(w: World, p: ProcId, t: ThreadId): World
    requires p in w.procs
  {
    w.(procs := w.procs[p := w.procs[p].(attempts := w.procs[p].attempts - {t})])
  }

  predicate Attempting(w: World, p: ProcId, t: ThreadId) { p in w.procs && t in w.procs[p].attempts }

  /** Some live scratch value holds this path. */
  predicate Held(w: World, path: string) { exists o :: o in w.live && w.live[o].path == path }

  /** One atomic step; an action whose guard fails leaves the world as it is. */
  function Apply(w: World, a: Action): World {
    match a
    case Spawn(p, pid) => if p in w.procs then w else w.(procs := w.procs[p := Process(pid, 0, map[])])
    case Enter(p, t, keep) =>
      if p !in w.procs || Attempting(w, p, t) then w else WithAttempt(w, p, t, Counting(keep, TRIES))
    case FetchAdd(p, t) =>
      if !Attempting(w, p, t) || !w.procs[p].attempts[t].Counting? then w
      else
        var proc, at := w.procs[p], w.procs[p].attempts[t];
        if at.left == 0 then WithoutAttempt(w, p, t)
        else
          var path := DirName(proc.pid, proc.counter);
          var counted := w.(procs := w.procs[p := proc.(counter := (proc.counter + 1) % COUNTER_RANGE)]);
          WithAttempt(counted, p, t, Creating(path, at.keep, at.left - 1))
    case CreateDir(p, t) =>
      if !Attempting(w, p, t) || !w.procs[p].attempts[t].Creating? then w
      else
        var at := w.procs[p].attempts[t];
        if at.path in w.dirs then WithAttempt(w, p, t, Counting(at.keep, at.left))
        else
          WithoutAttempt(w, p, t).(dirs := w.dirs[at.path := By(w.fresh_)],
                                   live := w.live[w.fresh_ := Live(p, at.path, at.keep)],
                                   fresh_ := w.fresh_ + 1)
    case CreateError(p, t) =>
      if !Attempting(w, p, t) || !w.procs[p].attempts[t].Creating? then w else WithoutAttempt(w, p, t)
    case Drop(o) =>
      if o !in w.live then w
      else if w.live[o].keep then w.(live := w.live - {o})
      else w.(dirs := w.dirs - {w.live[o].path}, live := w.live - {o})
    case DropError(o) => if o !in w.live then w else w.(live := w.live - {o})
    case Exit(p) =>
      w.(procs := w.procs - {p}, live := map o | o in w.live && w.live[o].proc != p :: w.live[o])
    case Plant(path) => if path in w.dirs then w else w.(dirs := w.dirs[path := Outsider])
    // Clean-up of directories nobody holds.
    case Sweep(path) => if Held(w, path) then w else w.(dirs := w.dirs - {path})
  }

  function Run(w: World, actions: seq<Action>): World
    decreases |actions|
  {
    if actions == [] then w else Run(Apply(w, actions[0]), actions[1..])
  }

  /** Nobody has started yet; the base directory may hold anything. */
  predicate Initial(w: World) {
    && w.procs == map[] && w.live == map[]
    && forall path :: path in w.dirs ==> w.dirs[path] == Outsider
  }

  /** Every live scratch value's directory exists and was made by that very value. */
  ghost predicate Inv(w: World) {
    && (forall o :: o in w.live ==> o < w.fresh_ && w.live[o].path in w.dirs && w.dirs[w.live[o].path] == By(o))
    && (forall path :: path in w.dirs && w.dirs[path].By? ==> w.dirs[path].owner < w.fresh_)
  }

  lemma ApplyKeepsInv(w: World, a: Action)
    requires Inv(w)
    ensures Inv(Apply(w, a))
  {
    hide DirName;
    match a
    case CreateDir(p, t) =>
    case Drop(o) =>
    case Sweep(path) =>
    case _ =>
  }

  lemma {:induction false} RunKeepsInv(w: World, actions: seq<Action>)
    requires Inv(w)
    ensures Inv(Run(w, actions))
    decreases |actions|
  {
    hide Apply;
    if actions == [] {
    } else {
      ApplyKeepsInv(w, actions[0]);
      RunKeepsInv(Apply(w, actions[0]), actions[1..]);
    }
  }

  /** Over every run no two live scratch values hold the same path, and each path exists. */
  lemma ScratchIsExclusive(w: World, actions: seq<Action>)
    requires Initial(w)
    ensures var end := Run(w, actions);
            && (forall o, o' :: o in end.live && o' in end.live && end.live[o].path == end.live[o'].path ==> o == o')
            && (forall o :: o in end.live ==> end.live[o].path in end.dirs)
  {
    RunKeepsInv(w, actions);
    hide Run;
  }

  /** A step removes a directory only if it is the drop of the value that made it, or a clean-up. */
  lemma OnlyTheMakerRemoves(w: World, a: Action, path: string)
    requires Inv(w) && path in w.dirs && path !in Apply(w, a).dirs
    ensures (a.Drop? && w.dirs[path] == By(a.o)) || (a == Sweep(path) && !Held(w, path))
  {}

  /** A step never changes who made an existing directory. */
  lemma MakersStay(w: World, a: Action, path: string)
    requires path in w.dirs && path in Apply(w, a).dirs
    ensures Apply(w, a).dirs[path] == w.dirs[path]
  {}

  /** Without clean-ups, whatever others put into the base directory is still there after any run. */
  lemma {:induction false} PlantedDirectoriesSurvive(w: World, actions: seq<Action>, path: string)
    requires Inv(w) && path in w.dirs && w.dirs[path] == Outsider
    requires forall i :: 0 <= i < |actions| ==> actions[i] != Sweep(path)
    ensures path in Run(w, actions).dirs && Run(w, actions).dirs[path] == Outsider
    decreases |actions|
  {
    hide Apply;
    if actions == [] {
    } else {
      var a := actions[0];
      ApplyKeepsInv(w, a);
      if path !in Apply(w, a).dirs { OnlyTheMakerRemoves(w, a, path); }
      MakersStay(w, a, path);
      PlantedDirectoriesSurvive(Apply(w, a), actions[1..], path);
    }
  }

  /** A live value keeps its directory through any run in which it is not dropped and its
      process does not exit. */
  lemma {:induction false} LiveKeepsItsDirectory(w: World, actions: seq<Action>, o: OwnerId)
    requires Inv(w) && o in w.live
    requires forall i :: 0 <= i < |actions| ==>
               actions[i] != Drop(o) && actions[i] != DropError(o) && actions[i] != Exit(w.live[o].proc)
    ensures var end := Run(w, actions);
            o in end.live && end.live[o] == w.live[o] && end.live[o].path in end.dirs
            && end.dirs[end.live[o].path] == By(o)
    decreases |actions|
  {
    hide Apply;
    if actions == [] {
    } else {
      var a := actions[0];
      ApplyKeepsInv(w, a);
      LiveStays(w, a, o);
      LiveKeepsItsDirectory(Apply(w, a), actions[1..], o);
    }
  }

  lemma LiveStays(w: World, a: Action, o: OwnerId)
    requires Inv(w) && o in w.live && a != Drop(o) && a != DropError(o) && a != Exit(w.live[o].proc)
    ensures o in Apply(w, a).live && Apply(w, a).live[o] == w.live[o]
  {}

  /** Dropping a value removes its directory unless it is kept, and touches no other. */
  lemma DropRemovesItsDirectory(w: World, o: OwnerId)
    requires Inv(w) && o in w.live
    ensures var path := w.live[o].path;
            Apply(w, Drop(o)).dirs == if w.live[o].keep then w.dirs else w.dirs - {path}
    ensures Apply(w, Drop(o)).live == w.live - {o}
  {}

  // ---- `new_in` run without interference ----

  /** The `k`-th name tried when the counter stands at `start`. */
  function Candidate(pid: nat, start: nat, k: nat): string {
    DirName(pid, (start + k) % COUNTER_RANGE)
  }

  /** The 1024 tries are 1024 different names, also across a wrap-around of the counter. */
  lemma CandidatesDiffer(pid: nat, start: nat, j: nat, k: nat)
    requires j < k < TRIES
    ensures Candidate(pid, start, j) != Candidate(pid, start, k)
  {
    if Candidate(pid, start, j) == Candidate(pid, start, k) {
      DirNameIsInjective(pid, (start + j) % COUNTER_RANGE, pid, (start + k) % COUNTER_RANGE);
    }
  }

  function Counter(start: nat, k: nat): nat { (start + k) % COUNTER_RANGE }

  lemma CounterSteps(pid: nat, start: nat, k: nat)
    ensures (Counter(start, k) + 1) % COUNTER_RANGE == Counter(start, k + 1)
    ensures DirName(pid, Counter(start, k)) == Candidate(pid, start, k)
  {
    hide DirName;
  }

  /** `n` tries of one thread: read the counter, create the directory. */
  function Tries(p: ProcId, t: ThreadId, n: nat): seq<Action> {
    if n == 0 then [] else Tries(p, t, n - 1) + [FetchAdd(p, t), CreateDir(p, t)]
  }

  /** The world of `w` with the thread of process `p` after `j` tries that found their names taken. */
  function Trying(w: World, p: ProcId, t: ThreadId, keep: bool, j: nat): World
    requires p in w.procs && j <= TRIES
  {
    var proc := w.procs[p];
    w.(procs := w.procs[p := Process(proc.pid, Counter(proc.counter, j),
                                     proc.attempts[t := Counting(keep, TRIES - j)])])
  }

  lemma {:induction false} RunConcat(w: World, a: seq<Action>, b: seq<Action>)
    ensures Run(w, a + b) == Run(Run(w, a), b)
    decreases |a|
  {
    hide Apply;
    if a == [] {
      assert a + b == b;
    } else {
      assert (a + b)[0] == a[0] && (a + b)[1..] == a[1..] + b;
      RunConcat(Apply(w, a[0]), a[1..], b);
    }
  }

  lemma RunTwo(w: World, a: Action, b: Action)
    ensures Run(w, [a, b]) == Apply(Apply(w, a), b)
  {
    hide Apply;
    assert [a, b][1..] == [b] && [b][1..] == [];
    assert Run(Apply(Apply(w, a), b), []) == Apply(Apply(w, a), b);
  }

  /** The thread's own name for its `j`-th try. */
  function NameTried(w: World, p: ProcId, j: nat): string
    requires p in w.procs
  {
    Candidate(w.procs[p].pid, w.procs[p].counter, j)
  }

  lemma OneTry(w: World, p: ProcId, t: ThreadId, keep: bool, j: nat)
    requires p in w.procs && j < TRIES
    ensures var named := Apply(Trying(w, p, t, keep, j), FetchAdd(p, t));
            Attempting(named, p, t)
            && named == WithAttempt(Trying(w, p, t, keep, j + 1), p, t,
                                    Creating(NameTried(w, p, j), keep, TRIES - j - 1))
  {
    var proc := w.procs[p];
    CounterSteps(proc.pid, proc.counter, j);
    hide DirName, Candidate, Counter;
    var here, named := Trying(w, p, t, keep, j), Apply(Trying(w, p, t, keep, j), FetchAdd(p, t));
    var goal := WithAttempt(Trying(w, p, t, keep, j + 1), p, t, Creating(NameTried(w, p, j), keep, TRIES - j - 1));
    assert here.procs[p].attempts[t] == Counting(keep, TRIES - j);
    assert named.procs[p].attempts == goal.procs[p].attempts;
    assert named.procs == goal.procs;
  }

  lemma {:induction false} TriesFail(w: World, p: ProcId, t: ThreadId, keep: bool, j: nat)
    requires p in w.procs && j <= TRIES && forall i: nat :: i < j ==> NameTried(w, p, i) in w.dirs
    ensures Run(Trying(w, p, t, keep, 0), Tries(p, t, j)) == Trying(w, p, t, keep, j)
  {
    hide NameTried, Trying, Apply;
    if j == 0 {
    } else {
      TriesFail(w, p, t, keep, j - 1);
      RunConcat(Trying(w, p, t, keep, 0), Tries(p, t, j - 1), [FetchAdd(p, t), CreateDir(p, t)]);
      RunTwo(Trying(w, p, t, keep, j - 1), FetchAdd(p, t), CreateDir(p, t));
      OneTry(w, p, t, keep, j - 1);
      assert NameTried(w, p, j - 1) in w.dirs;
      TakenName(w, p, t, keep, j - 1);
    }
  }

  lemma TakenName(w: World, p: ProcId, t: ThreadId, keep: bool, j: nat)
    requires p in w.procs && j < TRIES && NameTried(w, p, j) in w.dirs
    ensures Apply(WithAttempt(Trying(w, p, t, keep, j + 1), p, t, Creating(NameTried(w, p, j), keep, TRIES - j - 1)),
                  CreateDir(p, t)) == Trying(w, p, t, keep, j + 1)
  {
    hide NameTried, Counter;
    var goal := Trying(w, p, t, keep, j + 1);
    var next := Apply(WithAttempt(goal, p, t, Creating(NameTried(w, p, j), keep, TRIES - j - 1)), CreateDir(p, t));
    assert next.procs[p].attempts == goal.procs[p].attempts;
    assert next.procs == goal.procs;
  }

  lemma FreeName(w: World, p: ProcId, t: ThreadId, keep: bool, j: nat)
    requires p in w.procs && j < TRIES && NameTried(w, p, j) !in w.dirs
    ensures var end := Apply(WithAttempt(Trying(w, p, t, keep, j + 1), p, t,
                                         Creating(NameTried(w, p, j), keep, TRIES - j - 1)), CreateDir(p, t));
            && end.dirs == w.dirs[NameTried(w, p, j) := By(w.fresh_)]
            && end.live == w.live[w.fresh_ := Live(p, NameTried(w, p, j), keep)]
            && end.procs.Keys == w.procs.Keys && t !in end.procs[p].attempts
  {
    hide NameTried, Counter;
  }

  lemma Entered(w: World, p: ProcId, t: ThreadId, keep: bool)
    requires p in w.procs && !Attempting(w, p, t) && w.procs[p].counter < COUNTER_RANGE
    ensures Apply(w, Enter(p, t, keep)) == Trying(w, p, t, keep, 0)
  {}

  /** A thread of the protocol that nobody disturbs makes the first of its 1024 names that is free, and
      holds it; dropping the value leaves the directories as they were, unless it is kept. */
  lemma LoneThreadMakesFirstFree(w: World, p: ProcId, t: ThreadId, keep: bool, k: nat)
    requires Inv(w) && p in w.procs && !Attempting(w, p, t) && w.procs[p].counter < COUNTER_RANGE
    requires k < TRIES && NameTried(w, p, k) !in w.dirs && forall i: nat :: i < k ==> NameTried(w, p, i) in w.dirs
    ensures var end := Run(w, [Enter(p, t, keep)] + Tries(p, t, k + 1));
            && end.dirs == w.dirs[NameTried(w, p, k) := By(w.fresh_)]
            && end.live == w.live[w.fresh_ := Live(p, NameTried(w, p, k), keep)]
            && Apply(end, Drop(w.fresh_)).dirs == (if keep then end.dirs else w.dirs)
            && Apply(end, Drop(w.fresh_)).live == w.live
  {
    ThreadCreates(w, p, t, keep, k);
    hide NameTried, Tries, Run, Trying;
    assert w.fresh_ !in w.live;
  }

  lemma ThreadCreates(w: World, p: ProcId, t: ThreadId, keep: bool, k: nat)
    requires p in w.procs && !Attempting(w, p, t) && w.procs[p].counter < COUNTER_RANGE
    requires k < TRIES && NameTried(w, p, k) !in w.dirs && forall i: nat :: i < k ==> NameTried(w, p, i) in w.dirs
    ensures var end := Run(w, [Enter(p, t, keep)] + Tries(p, t, k + 1));
            && end.dirs == w.dirs[NameTried(w, p, k) := By(w.fresh_)]
            && end.live == w.live[w.fresh_ := Live(p, NameTried(w, p, k), keep)]
  {
    Entered(w, p, t, keep);
    TriesFail(w, p, t, keep, k);
    OneTry(w, p, t, keep, k);
    FreeName(w, p, t, keep, k);
    hide NameTried, Trying, Apply, Attempting;
    var start := Trying(w, p, t, keep, 0);
    assert Run(w, [Enter(p, t, keep)] + Tries(p, t, k + 1)) == Run(start, Tries(p, t, k + 1)) by {
      assert ([Enter(p, t, keep)] + Tries(p, t, k + 1))[1..] == Tries(p, t, k + 1);
    }
    RunConcat(start, Tries(p, t, k), [FetchAdd(p, t), CreateDir(p, t)]);
    RunTwo(Trying(w, p, t, keep, k), FetchAdd(p, t), CreateDir(p, t));
  }

  /** So does the first thread of a process that has just started, whatever is there already. */
  lemma NewProcessMakesFirstFree(w: World, p: ProcId, pid: nat, t: ThreadId, keep: bool, k: nat)
    requires Inv(w) && p !in w.procs
    requires k < TRIES && Candidate(pid, 0, k) !in w.dirs && forall i: nat :: i < k ==> Candidate(pid, 0, i) in w.dirs
    ensures var end := Run(w, [Spawn(p, pid)] + ([Enter(p, t, keep)] + Tries(p, t, k + 1)));
            && end.dirs == w.dirs[Candidate(pid, 0, k) := By(w.fresh_)]
            && end.live == w.live[w.fresh_ := Live(p, Candidate(pid, 0, k), keep)]
  {
    var start, rest := Apply(w, Spawn(p, pid)), [Enter(p, t, keep)] + Tries(p, t, k + 1);
    ApplyKeepsInv(w, Spawn(p, pid));
    assert forall j: nat :: NameTried(start, p, j) == Candidate(pid, 0, j);
    assert start.dirs == w.dirs && start.live == w.live && start.fresh_ == w.fresh_;
    LoneThreadMakesFirstFree(start, p, t, keep, k);
    hide Candidate, Tries, Apply;
    assert ([Spawn(p, pid)] + rest)[1..] == rest;
  }

  /** With all 1024 names taken it gives up and has touched nothing. */
  lemma LoneThreadGivesUp(w: World, p: ProcId, t: ThreadId, keep: bool)
    requires p in w.procs && !Attempting(w, p, t) && w.procs[p].counter < COUNTER_RANGE
    requires forall i: nat :: i < TRIES ==> NameTried(w, p, i) in w.dirs
    ensures var end := Apply(Run(w, [Enter(p, t, keep)] + Tries(p, t, TRIES)), FetchAdd(p, t));
            end.dirs == w.dirs && end.live == w.live && !Attempting(end, p, t)
  {
    Entered(w, p, t, keep);
    TriesFail(w, p, t, keep, TRIES);
    hide Tries, NameTried, Counter, Apply;
    assert ([Enter(p, t, keep)] + Tries(p, t, TRIES))[1..] == Tries(p, t, TRIES);
    GivesUp(w, p, t, keep);
  }

  lemma GivesUp(w: World, p: ProcId, t: ThreadId, keep: bool)
    requires p in w.procs
    ensures var end := Apply(Trying(w, p, t, keep, TRIES), FetchAdd(p, t));
            end.dirs == w.dirs && end.live == w.live && !Attempting(end, p, t)
  {
    hide Counter;
  }

  /** The answers of `new_in`. */
  datatype Made = Created(path: string) | Failed(path: string) | Exhausted

  class ScratchBase {
    /** The directories under the base. */
    var dirs: set<string>
    /** The process-wide sequence counter. */
    var counter: nat

    constructor (dirs0: set<string>)
      ensures dirs == dirs0 && counter == 0
    {
      dirs, counter := dirs0, 0;
    }

    /** The first of 1024 candidate names that is not there yet, unless creating it fails for
        another reason (`broken`), which ends the search at once; existing directories are stepped
        over and left alone. `tried` counts the names looked at. */
    method NewIn(pid: nat, broken: string -> bool) returns (made: Made, tried: nat)
      requires counter < COUNTER_RANGE
      modifies this
      ensures counter == Counter(old(counter), tried) && tried <= TRIES
      ensures made.Exhausted? ==>
                tried == TRIES && dirs == old(dirs)
                && forall j: nat :: j < TRIES ==> Candidate(pid, old(counter), j) in old(dirs)
      ensures !made.Exhausted? ==>
                tried >= 1
                && (forall j: nat :: j < tried - 1 ==> Candidate(pid, old(counter), j) in old(dirs))
                && var path := Candidate(pid, old(counter), tried - 1);
                   path !in old(dirs)
                   && (if broken(path) then made == Failed(path) && dirs == old(dirs)
                       else made == Created(path) && dirs == old(dirs) + {path})
    {
      assert Counter(counter, 0) == counter;
      hide DirName, Candidate, Counter;
      tried := 0;
      while tried < TRIES
        invariant tried <= TRIES && dirs == old(dirs) && counter == Counter(old(counter), tried)
        invariant forall j: nat :: j < tried ==> Candidate(pid, old(counter), j) in old(dirs)
      {
        CounterSteps(pid, old(counter), tried);
        var candidate := DirName(pid, counter);
        counter := (counter + 1) % COUNTER_RANGE;
        tried := tried + 1;
        if candidate !in dirs {
          if broken(candidate) {
            return Failed(candidate), tried;
          }
          dirs := dirs + {candidate};
          return Created(candidate), tried;
        }
      }
      return Exhausted, tried;
    }
  }
}
