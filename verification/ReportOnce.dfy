/** Reporting each file once over overlapping include closures, `bins/miku/src/cmd/scope.rs`. */
module ReportOnce {
  import opened Options

  type Path = string
  /** The canonical identity of a path. */
  type Key = string
  type SourceId = nat

  datatype Diagnostic = Diagnostic(source: SourceId, error: bool, message: string)

  /** One compiled entry: its own source id, its include closure and everything it complains about. */
  datatype Compilation = Compilation(input: SourceId, includes: seq<(SourceId, Path)>, diagnostics: seq<Diagnostic>)

  /** What the run depends on: path identity, the outcome of compiling the `i`-th target
      (`None`: the compile call fails), and whether the per-file hook succeeds. */
  datatype Env = Env(key: Path -> Key, compile: nat -> Option<Compilation>, each: nat -> bool)

  // ---- One compilation ----

  function IncludeMap(env: Env, includes: seq<(SourceId, Path)>, files: map<SourceId, Key>): map<SourceId, Key>
    decreases |includes|
  {
    if includes == [] then files
    else IncludeMap(env, includes[1..], files[includes[0].0 := env.key(includes[0].1)])
  }

  /** `compiled_files`: every file of the compilation by the id its spans carry. */
  function CompiledFiles(env: Env, path: Path, c: Compilation): map<SourceId, Key> {
    IncludeMap(env, c.includes, map[c.input := env.key(path)])
  }

  /** The file with this id has this key: that of the last include with the id, or of the compiled
      path when the id is its own and no include has it. */
  ghost predicate FileHasKey(env: Env, path: Path, c: Compilation, id: SourceId, k: Key) {
    || (exists i: nat :: LastInclude(c.includes, i, id) && k == env.key(c.includes[i].1))
    || (id == c.input && k == env.key(path) && forall i :: 0 <= i < |c.includes| ==> c.includes[i].0 != id)
  }

  ghost predicate LastInclude(includes: seq<(SourceId, Path)>, i: nat, id: SourceId) {
    && i < |includes| && includes[i].0 == id
    && forall j :: i < j < |includes| ==> includes[j].0 != id
  }

  lemma {:induction false} IncludeMapHolds(env: Env, includes: seq<(SourceId, Path)>, files: map<SourceId, Key>,
                                           id: SourceId, k: Key)
    ensures id in IncludeMap(env, includes, files) && IncludeMap(env, includes, files)[id] == k
       <==> (exists i: nat :: LastInclude(includes, i, id) && k == env.key(includes[i].1))
            || (id in files && files[id] == k && forall i :: 0 <= i < |includes| ==> includes[i].0 != id)
    decreases |includes|
  {
    if includes == [] {
    } else {
      var rest := includes[1..];
      IncludeMapHolds(env, rest, files[includes[0].0 := env.key(includes[0].1)], id, k);
      forall i: nat ensures LastInclude(rest, i, id) <==> LastInclude(includes, i + 1, id) {
        assert forall j :: i < j < |rest| ==> rest[j] == includes[j + 1];
        assert forall j :: i + 1 < j < |includes| ==> includes[j] == rest[j - 1];
      }
      assert (forall i :: 0 <= i < |rest| ==> rest[i].0 != id)
        <==> (forall i :: 1 <= i < |includes| ==> includes[i].0 != id) by {
        assert forall i :: 1 <= i < |includes| ==> includes[i] == rest[i - 1];
      }
      if i: nat :| LastInclude(includes, i, id) && k == env.key(includes[i].1) {
        if i > 0 { assert LastInclude(rest, i - 1, id) && rest[i - 1] == includes[i]; }
      }
      if i: nat :| LastInclude(rest, i, id) && k == env.key(rest[i].1) {
        assert LastInclude(includes, i + 1, id) && includes[i + 1] == rest[i];
      }
    }
  }

  /** A compilation covers its own file and every file it includes. */
  lemma CompiledFilesHolds(env: Env, path: Path, c: Compilation, id: SourceId, k: Key)
    ensures id in CompiledFiles(env, path, c) && CompiledFiles(env, path, c)[id] == k
       <==> FileHasKey(env, path, c, id, k)
    ensures id in CompiledFiles(env, path, c) <==>
              id == c.input || exists i :: 0 <= i < |c.includes| && c.includes[i].0 == id
  {
    IncludeMapHolds(env, c.includes, map[c.input := env.key(path)], id, k);
    IdsOf(env, c.includes, map[c.input := env.key(path)], id);
  }

  lemma {:induction false} IdsOf(env: Env, includes: seq<(SourceId, Path)>, files: map<SourceId, Key>, id: SourceId)
    ensures id in IncludeMap(env, includes, files) <==>
              id in files || exists i :: 0 <= i < |includes| && includes[i].0 == id
    decreases |includes|
  {
    if includes == [] {
    } else {
      var rest := includes[1..];
      IdsOf(env, rest, files[includes[0].0 := env.key(includes[0].1)], id);
      assert forall i :: 1 <= i < |includes| ==> includes[i] == rest[i - 1];
      if i :| 0 <= i < |rest| && rest[i].0 == id { assert includes[i + 1].0 == id; }
    }
  }

  /** The diagnostic's file is unknown to the compilation, or nobody reported it yet. */
  predicate IsFresh(d: Diagnostic, covered: map<SourceId, Key>, reported: set<Key>) {
    d.source in covered ==> covered[d.source] !in reported
  }

  /** `unreported`, order kept. */
  function Unreported(ds: seq<Diagnostic>, covered: map<SourceId, Key>, reported: set<Key>): seq<Diagnostic> {
    if ds == [] then []
    else (if IsFresh(ds[0], covered, reported) then [ds[0]] else []) + Unreported(ds[1..], covered, reported)
  }

  lemma {:induction false} UnreportedKeepsExactlyFresh(ds: seq<Diagnostic>, covered: map<SourceId, Key>,
                                                       reported: set<Key>)
    ensures multiset(Unreported(ds, covered, reported)) <= multiset(ds)
    ensures forall d :: multiset(Unreported(ds, covered, reported))[d]
                        == if IsFresh(d, covered, reported) then multiset(ds)[d] else 0
  {
    if ds == [] {
    } else {
      assert ds == [ds[0]] + ds[1..];
      UnreportedKeepsExactlyFresh(ds[1..], covered, reported);
    }
  }

  /** The filter keeps the order: what is kept of a list is what is kept of its parts, in turn. */
  lemma {:induction false} UnreportedKeepsOrder(a: seq<Diagnostic>, b: seq<Diagnostic>, covered: map<SourceId, Key>,
                                                reported: set<Key>)
    ensures Unreported(a + b, covered, reported)
         == Unreported(a, covered, reported) + Unreported(b, covered, reported)
  {
    hide IsFresh;
    if a == [] {
      assert a + b == b;
    } else {
      assert (a + b)[0] == a[0] && (a + b)[1..] == a[1..] + b;
      UnreportedKeepsOrder(a[1..], b, covered, reported);
    }
  }

  function AnyError(ds: seq<Diagnostic>): bool { exists i :: 0 <= i < |ds| && ds[i].error }

  // ---- A run ----

  /** One compiled target and what was printed for it. */
  datatype Emission = Emission(target: nat, fresh_: seq<Diagnostic>)

  ghost function CoveredBy(env: Env, files: seq<Path>, e: Emission): set<Key>
    requires e.target < |files| && env.compile(e.target).Some?
  {
    CompiledFiles(env, files[e.target], env.compile(e.target).value).Values
  }

  ghost predicate Compiled(env: Env, files: seq<Path>, log: seq<Emission>) {
    forall e :: 0 <= e < |log| ==> log[e].target < |files| && env.compile(log[e].target).Some?
  }

  /** Everything the first `n` emissions cover. */
  ghost function Reported(env: Env, files: seq<Path>, log: seq<Emission>, n: nat): set<Key>
    requires Compiled(env, files, log) && n <= |log|
  {
    if n == 0 then {} else Reported(env, files, log, n - 1) + CoveredBy(env, files, log[n - 1])
  }

  /** Emission `e` printed exactly the diagnostics that no earlier emission's files claim. */
  ghost predicate PrintsFresh(env: Env, files: seq<Path>, log: seq<Emission>, e: nat)
    requires Compiled(env, files, log) && e < |log|
  {
    var c := env.compile(log[e].target).value;
    log[e].fresh_ == Unreported(c.diagnostics, CompiledFiles(env, files[log[e].target], c),
                                Reported(env, files, log, e))
  }

  /** Target `t` was compiled by some emission, or skipped because an earlier one covers it. */
  ghost predicate Handled(env: Env, files: seq<Path>, log: seq<Emission>, t: nat)
    requires Compiled(env, files, log) && t < |files|
  {
    exists e :: 0 <= e <= |log| && (forall x :: 0 <= x < e ==> log[x].target < t)
                && (Covered(env, files, log, e, env.key(files[t])) <==> !(e < |log| && log[e].target == t))
  }

  /** What the first `n` emissions compiled has the file with this key in it, itself or included. */
  ghost predicate Covered(env: Env, files: seq<Path>, log: seq<Emission>, n: nat, k: Key)
    requires Compiled(env, files, log) && n <= |log|
  {
    exists e, id :: 0 <= e < n && FileHasKey(env, files[log[e].target], env.compile(log[e].target).value, id, k)
  }

  /** Emission `e` compiled a target that nothing before it covers. */
  ghost predicate CompilesUncovered(env: Env, files: seq<Path>, log: seq<Emission>, e: nat)
    requires Compiled(env, files, log) && e < |log|
  {
    !Covered(env, files, log, e, env.key(files[log[e].target]))
  }

  /** Emission `e` prints no diagnostic of a file that an earlier one covers. */
  ghost predicate RepeatsNothing(env: Env, files: seq<Path>, log: seq<Emission>, e: nat)
    requires Compiled(env, files, log) && e < |log|
  {
    forall d, k :: d in log[e].fresh_
                   && FileHasKey(env, files[log[e].target], env.compile(log[e].target).value, d.source, k)
                   ==> !Covered(env, files, log, e, k)
  }

  lemma {:induction false} ReportedPrefix(env: Env, files: seq<Path>, log: seq<Emission>, more: Emission, n: nat)
    requires Compiled(env, files, log) && Compiled(env, files, log + [more]) && n <= |log|
    ensures Reported(env, files, log + [more], n) == Reported(env, files, log, n)
  {
    hide CompiledFiles;
    if n == 0 {
    } else {
      ReportedPrefix(env, files, log, more, n - 1);
    }
  }

  /** A printed diagnostic is an error. */
  ghost predicate SomeError(log: seq<Emission>) { exists e, d :: 0 <= e < |log| && d in log[e].fresh_ && d.error }

  /** Targets are compiled in the order they are listed. */
  ghost predicate InOrder(log: seq<Emission>) {
    forall e, e' :: 0 <= e < e' < |log| ==> log[e].target < log[e'].target
  }

  lemma InOrderExtends(log: seq<Emission>, more: Emission)
    requires InOrder(log) && forall e :: 0 <= e < |log| ==> log[e].target < more.target
    ensures InOrder(log + [more])
  {}

  lemma ReportedExtends(env: Env, files: seq<Path>, log: seq<Emission>, more: Emission)
    requires Compiled(env, files, log) && Compiled(env, files, log + [more])
    requires more.target < |files| && env.compile(more.target).Some?
    ensures Reported(env, files, log + [more], |log|) == Reported(env, files, log, |log|)
    ensures Reported(env, files, log + [more], |log| + 1) == Reported(env, files, log, |log|)
             + CoveredBy(env, files, more)
  {
    ReportedPrefix(env, files, log, more, |log|);
    hide CoveredBy;
    assert (log + [more])[|log|] == more;
  }

  lemma SomeErrorExtends(log: seq<Emission>, more: Emission)
    ensures SomeError(log + [more]) <==> SomeError(log) || AnyError(more.fresh_)
  {
    var longer := log + [more];
    assert longer[|log|] == more;
    if SomeError(log) {
      var e, d :| 0 <= e < |log| && d in log[e].fresh_ && d.error;
      assert longer[e] == log[e];
    }
    if AnyError(more.fresh_) {
      var i :| 0 <= i < |more.fresh_| && more.fresh_[i].error;
      assert more.fresh_[i] in longer[|log|].fresh_;
    }
  }

  lemma PrintsStays(env: Env, files: seq<Path>, log: seq<Emission>, more: Emission, e: nat)
    requires Compiled(env, files, log) && Compiled(env, files, log + [more])
    requires e < |log| && PrintsFresh(env, files, log, e)
    ensures PrintsFresh(env, files, log + [more], e)
  {
    ReportedPrefix(env, files, log, more, e);
    hide CompiledFiles, Unreported, Reported;
    assert (log + [more])[e] == log[e];
  }

  /** What holds of the log at every point of a run. */
  ghost predicate Faithful(env: Env, files: seq<Path>, log: seq<Emission>, reported: set<Key>, hadError: bool,
                           upTo: nat)
    requires upTo <= |files|
  {
    && Compiled(env, files, log)
    && reported == Reported(env, files, log, |log|)
    && (forall e :: 0 <= e < |log| ==> log[e].target < upTo && PrintsFresh(env, files, log, e))
    && (forall e :: 0 <= e < |log| ==> env.key(files[log[e].target]) !in Reported(env, files, log, e))
    && InOrder(log)
    && hadError == SomeError(log)
  }

  lemma Extend(env: Env, files: seq<Path>, log: seq<Emission>, reported: set<Key>, hadError: bool, i: nat)
    requires i < |files| && Faithful(env, files, log, reported, hadError, i) && env.compile(i).Some?
    requires env.key(files[i]) !in reported
    ensures var c := env.compile(i).value;
            var covered := CompiledFiles(env, files[i], c);
            var fresh_ := Unreported(c.diagnostics, covered, reported);
            Faithful(env, files, log + [Emission(i, fresh_)], reported + covered.Values,
                     hadError || AnyError(fresh_), i + 1)
  {
    hide CompiledFiles, Unreported, AnyError, SomeError, Reported, InOrder;
    var c := env.compile(i).value;
    var fresh_ := Unreported(c.diagnostics, CompiledFiles(env, files[i], c), reported);
    var more := Emission(i, fresh_);
    var longer := log + [more];
    assert Compiled(env, files, longer);
    ReportedExtends(env, files, log, more);
    SomeErrorExtends(log, more);
    InOrderExtends(log, more);
    assert longer[|log|] == more && |longer| == |log| + 1;
    assert PrintsFresh(env, files, longer, |log|);
    forall e | 0 <= e < |log| ensures PrintsFresh(env, files, longer, e) {
      PrintsStays(env, files, log, more, e);
    }
    forall e | 0 <= e < |longer| ensures env.key(files[longer[e].target]) !in Reported(env, files, longer, e) {
      ReportedPrefix(env, files, log, more, e);
      if e < |log| { assert longer[e] == log[e]; }
    }
    hide PrintsFresh;
  }

  lemma HandledStays(env: Env, files: seq<Path>, log: seq<Emission>, more: Emission, t: nat)
    requires Compiled(env, files, log) && Compiled(env, files, log + [more]) && t < |files|
    requires Handled(env, files, log, t) && more.target > t
    ensures Handled(env, files, log + [more], t)
  {
    hide Covered;
    var e :| 0 <= e <= |log| && (forall x :: 0 <= x < e ==> log[x].target < t)
             && (Covered(env, files, log, e, env.key(files[t])) <==> !(e < |log| && log[e].target == t));
    CoveredPrefix(env, files, log, more, e, env.key(files[t]));
    var longer := log + [more];
    assert forall x :: 0 <= x < e ==> longer[x] == log[x];
  }

  lemma CoveredPrefix(env: Env, files: seq<Path>, log: seq<Emission>, more: Emission, n: nat, k: Key)
    requires Compiled(env, files, log) && Compiled(env, files, log + [more]) && n <= |log|
    ensures Covered(env, files, log + [more], n, k) <==> Covered(env, files, log, n, k)
  {
    hide FileHasKey;
    assert forall x :: 0 <= x < |log| ==> (log + [more])[x] == log[x];
  }

  /** `compile_and_report`. `None` is the early return when a compile call or the hook fails; what
      was printed until then obeys the same rules. */
  method CompileAndReport(env: Env, files: seq<Path>) returns (result: Option<bool>, ghost log: seq<Emission>,
                                                              ghost reported: set<Key>, hadError: bool)
    ensures Faithful(env, files, log, reported, hadError, |files|)
    ensures result.Some? ==> result.value == hadError && forall t :: 0 <= t < |files| ==> Handled(env, files, log, t)
    ensures forall e :: 0 <= e < |log| ==>
              CompilesUncovered(env, files, log, e) && RepeatsNothing(env, files, log, e)
    ensures result.None? ==> exists t :: 0 <= t < |files| && (env.compile(t).None? || !env.each(t))
  {
    hide CompiledFiles, Unreported, AnyError, Handled, SomeError, PrintsFresh, CompilesUncovered, RepeatsNothing,
         Reported, InOrder, FileHasKey, Covered;
    var seen: set<Key> := {};
    log, reported, hadError := [], {}, false;
    NothingYet(env, files);
    for i := 0 to |files|
      invariant seen == reported
      invariant Faithful(env, files, log, reported, hadError, i)
      invariant forall t :: 0 <= t < i ==> Handled(env, files, log, t)
    {
      if env.key(files[i]) in seen {
        SkippedIsHandled(env, files, log, reported, hadError, i);
        continue;
      }
      var compiled := env.compile(i);
      if compiled.None? {
        NothingTwice(env, files, log, reported, hadError, i);
        return None, log, reported, hadError;
      }
      var covered := CompiledFiles(env, files[i], compiled.value);
      var fresh_ := Unreported(compiled.value.diagnostics, covered, seen);
      var fileError := AnyError(fresh_);
      Extend(env, files, log, reported, hadError, i);
      ghost var before := log;
      log := log + [Emission(i, fresh_)];
      reported := reported + covered.Values;
      hadError := hadError || fileError;
      if !env.each(i) {
        NothingTwice(env, files, log, reported, hadError, i + 1);
        return None, log, reported, hadError;
      }
      forall t | 0 <= t < i ensures Handled(env, files, log, t) {
        HandledStays(env, files, before, Emission(i, fresh_), t);
      }
      CompiledIsHandled(env, files, before, Emission(i, fresh_), i, seen);
      seen := seen + covered.Values;
    }
    NothingTwice(env, files, log, reported, hadError, |files|);
    return Some(hadError), log, reported, hadError;
  }

  /** No file is compiled or printed again once a compilation covers it. */
  lemma NothingTwice(env: Env, files: seq<Path>, log: seq<Emission>, reported: set<Key>, hadError: bool, upTo: nat)
    requires upTo <= |files| && Faithful(env, files, log, reported, hadError, upTo)
    ensures forall e :: 0 <= e < |log| ==>
              CompilesUncovered(env, files, log, e) && RepeatsNothing(env, files, log, e)
  {
    forall e | 0 <= e < |log|
      ensures CompilesUncovered(env, files, log, e) && RepeatsNothing(env, files, log, e)
    {
      CoveredIsReported(env, files, log, e, env.key(files[log[e].target]));
      FreshIsUncovered(env, files, log, e);
    }
  }

  lemma CoveredIsReported(env: Env, files: seq<Path>, log: seq<Emission>, n: nat, k: Key)
    requires Compiled(env, files, log) && n <= |log|
    ensures Covered(env, files, log, n, k) <==> k in Reported(env, files, log, n)
  {
    hide CompiledFiles, FileHasKey, Reported;
    ReportedIffCovered(env, files, log, n, k);
    forall e | 0 <= e < n
      ensures k in CoveredBy(env, files, log[e])
         <==> exists id :: FileHasKey(env, files[log[e].target], env.compile(log[e].target).value, id, k)
    {
      var path, c := files[log[e].target], env.compile(log[e].target).value;
      forall id ensures id in CompiledFiles(env, path, c) && CompiledFiles(env, path, c)[id] == k
                   <==> FileHasKey(env, path, c, id, k) {
        CompiledFilesHolds(env, path, c, id, k);
      }
    }
  }

  lemma FreshIsUncovered(env: Env, files: seq<Path>, log: seq<Emission>, e: nat)
    requires Compiled(env, files, log) && e < |log| && PrintsFresh(env, files, log, e)
    ensures RepeatsNothing(env, files, log, e)
  {
    hide CompiledFiles, FileHasKey, Reported, Covered, Unreported;
    var path, c := files[log[e].target], env.compile(log[e].target).value;
    forall d, k | d in log[e].fresh_ && FileHasKey(env, path, c, d.source, k) ensures !Covered(env, files, log, e, k) {
      CompiledFilesHolds(env, path, c, d.source, k);
      CoveredIsReported(env, files, log, e, k);
      UnreportedKeepsExactlyFresh(c.diagnostics, CompiledFiles(env, path, c), Reported(env, files, log, e));
      assert d in multiset(log[e].fresh_);
    }
  }

  lemma NothingYet(env: Env, files: seq<Path>)
    ensures Faithful(env, files, [], {}, false, 0)
  {}

  lemma SkippedIsHandled(env: Env, files: seq<Path>, log: seq<Emission>, reported: set<Key>, hadError: bool, i: nat)
    requires i < |files| && Faithful(env, files, log, reported, hadError, i) && env.key(files[i]) in reported
    ensures Handled(env, files, log, i)
  {
    hide Covered, Reported;
    CoveredIsReported(env, files, log, |log|, env.key(files[i]));
    assert forall x :: 0 <= x < |log| ==> log[x].target < i;
  }

  lemma CompiledIsHandled(env: Env, files: seq<Path>, log: seq<Emission>, more: Emission, i: nat, reported: set<Key>)
    requires i < |files| && Compiled(env, files, log) && Compiled(env, files, log + [more])
    requires more.target == i && reported == Reported(env, files, log, |log|) && env.key(files[i]) !in reported
    requires forall x :: 0 <= x < |log| ==> log[x].target < i
    ensures Handled(env, files, log + [more], i)
  {
    hide Covered, Reported;
    CoveredIsReported(env, files, log + [more], |log|, env.key(files[i]));
    ReportedPrefix(env, files, log, more, |log|);
    var longer := log + [more];
    assert longer[|log|] == more && forall x :: 0 <= x < |log| ==> longer[x] == log[x];
  }

  // ---- What this means for one file ----

  lemma {:induction false} ReportedIffCovered(env: Env, files: seq<Path>, log: seq<Emission>, n: nat, k: Key)
    requires Compiled(env, files, log) && n <= |log|
    ensures k in Reported(env, files, log, n) <==> exists e :: 0 <= e < n && k in CoveredBy(env, files, log[e])
  {
    hide CoveredBy;
    if n == 0 {
    } else {
      ReportedIffCovered(env, files, log, n - 1, k);
    }
  }

  /** Every diagnostic is printed by an emission in full when it is the first to cover the file,
      or when the file is unknown to its compilation, and not at all otherwise. */
  lemma PrintedByFirstCover(env: Env, files: seq<Path>, log: seq<Emission>, e: nat, d: Diagnostic)
    requires Compiled(env, files, log) && e < |log| && PrintsFresh(env, files, log, e)
    ensures var c := env.compile(log[e].target).value;
            multiset(log[e].fresh_)[d]
            == if exists k :: FileHasKey(env, files[log[e].target], c, d.source, k) && Covered(env, files, log, e, k)
               then 0 else multiset(c.diagnostics)[d]
  {
    hide CompiledFiles, Unreported, FileHasKey, Covered, Reported;
    var path, c := files[log[e].target], env.compile(log[e].target).value;
    var covered := CompiledFiles(env, path, c);
    UnreportedKeepsExactlyFresh(c.diagnostics, covered, Reported(env, files, log, e));
    forall k
      ensures d.source in covered && covered[d.source] == k <==> FileHasKey(env, path, c, d.source, k)
      ensures Covered(env, files, log, e, k) <==> k in Reported(env, files, log, e)
    {
      CompiledFilesHolds(env, path, c, d.source, k);
      CoveredIsReported(env, files, log, e, k);
    }
  }

  // ---- The targets ----

  /** Later paths to a file already listed dropped. */
  function Deduplicated(env: Env, files: seq<Path>): seq<Path> {
    if files == [] then []
    else
      var front, last := files[..|files| - 1], files[|files| - 1];
      var kept := Deduplicated(env, front);
      if Lists(env, front, env.key(last)) then kept else kept + [last]
  }

  predicate Lists(env: Env, files: seq<Path>, k: Key) {
    exists i :: 0 <= i < |files| && env.key(files[i]) == k
  }

  lemma ListsConcat(env: Env, files: seq<Path>, last: Path, k: Key)
    ensures Lists(env, files + [last], k) <==> Lists(env, files, k) || env.key(last) == k
  {
    var longer := files + [last];
    assert longer[|files|] == last;
    if Lists(env, files, k) {
      var i :| 0 <= i < |files| && env.key(files[i]) == k;
      assert longer[i] == files[i];
    }
  }

  /** The same files are listed, each once, and the first path stays first. */
  lemma {:induction false} DeduplicatedListsEachFileOnce(env: Env, files: seq<Path>)
    ensures forall i, j :: 0 <= i < j < |Deduplicated(env, files)| ==>
              env.key(Deduplicated(env, files)[i]) != env.key(Deduplicated(env, files)[j])
    ensures forall k :: Lists(env, Deduplicated(env, files), k) <==> Lists(env, files, k)
    ensures files != [] ==> Deduplicated(env, files) != [] && Deduplicated(env, files)[0] == files[0]
  {
    if files == [] {
    } else {
      var front, last := files[..|files| - 1], files[|files| - 1];
      DeduplicatedListsEachFileOnce(env, front);
      var kept := Deduplicated(env, front);
      assert files == front + [last];
      var longer := kept + [last];
      assert forall i :: 0 <= i < |kept| ==> longer[i] == kept[i];
      hide Deduplicated;
      forall k ensures Lists(env, Deduplicated(env, files), k) <==> Lists(env, files, k) {
        ListsConcat(env, front, last, k);
        ListsConcat(env, kept, last, k);
      }
      if !Lists(env, front, env.key(last)) {
        assert !Lists(env, kept, env.key(last));
      }
    }
  }

  /** File `i` is the first one listed with its key. */
  ghost predicate First(env: Env, files: seq<Path>, i: nat) {
    i < |files| && forall j :: 0 <= j < i ==> env.key(files[j]) != env.key(files[i])
  }

  /** What is kept are the first paths to each file, in the order they were listed. */
  lemma {:induction false} DeduplicatedKeepsFirsts(env: Env, files: seq<Path>) returns (at: seq<nat>)
    ensures |at| == |Deduplicated(env, files)|
    ensures forall x :: 0 <= x < |at| ==> First(env, files, at[x]) && Deduplicated(env, files)[x] == files[at[x]]
    ensures forall x, y :: 0 <= x < y < |at| ==> at[x] < at[y]
    ensures forall i :: First(env, files, i) ==> i in at
  {
    if files == [] {
      at := [];
    } else {
      var n := |files| - 1;
      var front := files[..n];
      at := DeduplicatedKeepsFirsts(env, front);
      assert forall i: nat :: i < n ==> (First(env, files, i) <==> First(env, front, i)) by {
        assert forall i :: 0 <= i < n ==> front[i] == files[i];
      }
      if !Lists(env, front, env.key(files[n])) {
        assert First(env, files, n);
        at := at + [n];
      }
    }
  }

  /** `targets`: the entry alone, or the entry, the sources and the tests, each file once. */
  method Targets(env: Env, entry: Path, sources: seq<Path>, tests: seq<Path>, all: bool) returns (files: seq<Path>)
    ensures files == if all then Deduplicated(env, [entry] + sources + tests) else [entry]
  {
    if !all {
      return [entry];
    }
    var listed := [entry] + sources + tests;
    var seen: set<Key> := {};
    files := [];
    for i := 0 to |listed|
      invariant files == Deduplicated(env, listed[..i])
      invariant forall k :: k in seen <==> exists j :: 0 <= j < i && env.key(listed[j]) == k
    {
      var k := env.key(listed[i]);
      assert listed[..i + 1][..i] == listed[..i];
      assert (exists j :: 0 <= j < i && env.key(listed[..i][j]) == k) <==> k in seen;
      if k !in seen {
        files := files + [listed[i]];
      }
      seen := seen + {k};
    }
    assert listed[..|listed|] == listed;
  }
}
