/** The host game-library seam, `crates/backends/leek-backend-native/src/game.rs`: a runtime is
    moved out of its thread-local slot for the duration of a call and put back afterwards, on
    return and on panic alike. */
module GameDispatch {
  import opened Options
  import opened Sequences

  /** The identity of a boxed runtime; Rust ownership makes every installed box a new one. */
  type RtId = nat

  /** A finite run of host code: what a runtime does during a call, or what the host does. */
  datatype Script =
    | Done
    | Panic
    | Install(rt: Option<RtId>, next: Script)
    | Dispatch(callee: Script, catches: bool, next: Script)

  /** The slot and the runtimes destroyed so far. */
  datatype Store = Store(slot: Option<RtId>, dropped: set<RtId>)

  /** A runtime was entered while these runtimes were on the call stack. */
  datatype Entry = Entry(rt: RtId, stack: seq<RtId>)

  datatype Outcome = Outcome(store: Store, panicked: bool, entries: seq<Entry>)

  function Dropped(old_: Option<RtId>): set<RtId> { if old_.Some? then {old_.value} else {} }

  /** `set_game_runtime`. */
  function SetRuntime(st: Store, rt: Option<RtId>): Store {
    Store(rt, st.dropped + Dropped(st.slot))
  }

  /** The `Reinstall` guard: back into an empty slot, else the taken runtime is dropped. */
  function Reinstall(st: Store, taken: RtId): Store {
    if st.slot.None? then st.(slot := Some(taken)) else st.(dropped := st.dropped + {taken})
  }

  /** A script run with `stack` already on the call stack. */
  function Run(s: Script, st: Store, stack: seq<RtId>): Outcome {
    match s
    case Done => Outcome(st, false, [])
    case Panic => Outcome(st, true, [])
    case Install(rt, next) => Run(next, SetRuntime(st, rt), stack)
    case Dispatch(callee, catches, next) =>
      if st.slot.None? then Run(next, st, stack)
      else
        var rt := st.slot.value;
        var inner := Run(callee, st.(slot := None), stack + [rt]);
        var after := Reinstall(inner.store, rt);
        var entries := [Entry(rt, stack)] + inner.entries;
        if inner.panicked && !catches then Outcome(after, true, entries)
        else
          var rest := Run(next, after, stack);
          Outcome(rest.store, rest.panicked, entries + rest.entries)
  }

  // ---- Ownership ----

  /** The runtimes a script may install, in order. */
  function Installs(s: Script): seq<RtId> {
    match s
    case Done => []
    case Panic => []
    case Install(rt, next) => (if rt.Some? then [rt.value] else []) + Installs(next)
    case Dispatch(callee, _, next) => Installs(callee) + Installs(next)
  }

  function Elements(ids: seq<RtId>): set<RtId> { set i | 0 <= i < |ids| :: ids[i] }

  /** Every runtime that exists or existed. */
  function Known(st: Store, stack: seq<RtId>): set<RtId> { Dropped(st.slot) + st.dropped + Elements(stack) }

  /** No runtime is in two places: slot, call stack, destroyed; nor twice on the stack. */
  ghost predicate Separate(st: Store, stack: seq<RtId>) {
    && Distinct(stack)
    && Dropped(st.slot) !! st.dropped !! Elements(stack)
  }

  /** The script's installs are new boxes. */
  ghost predicate Fresh(s: Script, st: Store, stack: seq<RtId>) {
    Distinct(Installs(s)) && Elements(Installs(s)) !! Known(st, stack)
  }

  lemma DistinctConcat(a: seq<RtId>, b: seq<RtId>)
    ensures Distinct(a + b) ==> Distinct(a) && Distinct(b) && Elements(a) !! Elements(b)
    ensures Elements(a + b) == Elements(a) + Elements(b)
  {
    var ab := a + b;
    forall x ensures x in Elements(ab) <==> x in Elements(a) + Elements(b) {
      if x in Elements(a) {
        var i :| 0 <= i < |a| && a[i] == x;
        assert ab[i] == x;
      }
      if x in Elements(b) {
        var i :| 0 <= i < |b| && b[i] == x;
        assert ab[|a| + i] == x;
      }
    }
    if Distinct(ab) {
      forall i, j | 0 <= i < j < |a| ensures a[i] != a[j] { assert ab[i] != ab[j]; }
      forall i, j | 0 <= i < j < |b| ensures b[i] != b[j] { assert ab[|a| + i] != ab[|a| + j]; }
      forall i, j | 0 <= i < |a| && 0 <= j < |b| ensures a[i] != b[j] { assert ab[i] != ab[|a| + j]; }
    }
  }

  lemma DistinctPush(stack: seq<RtId>, rt: RtId)
    requires Distinct(stack) && rt !in Elements(stack)
    ensures Distinct(stack + [rt]) && Elements(stack + [rt]) == Elements(stack) + {rt}
  {
    DistinctConcat(stack, [rt]);
    assert [rt][0] == rt;
    assert Elements([rt]) == {rt};
  }

  /** What every run keeps: no runtime is in two places, none is lost, none comes from nowhere,
      and none is entered while it is already on the call stack. */
  ghost predicate Sound(s: Script, st: Store, stack: seq<RtId>) {
    var o := Run(s, st, stack);
    && Separate(o.store, stack)
    && Known(st, stack) <= Known(o.store, stack) <= Known(st, stack) + Elements(Installs(s))
    && forall i :: 0 <= i < |o.entries| ==> o.entries[i].rt !in Elements(o.entries[i].stack)
  }

  lemma {:induction false} RunIsSound(s: Script, st: Store, stack: seq<RtId>)
    requires Separate(st, stack) && Fresh(s, st, stack)
    ensures Sound(s, st, stack)
    decreases s
  {
    match s
    case Done =>
    case Panic =>
    case Install(rt, next) => InstallIsSound(rt, next, st, stack);
    case Dispatch(callee, catches, next) =>
      DistinctConcat(Installs(callee), Installs(next));
      if st.slot.None? {
        RunIsSound(next, st, stack);
      } else {
        DispatchIsSound(callee, catches, next, st, stack);
      }
  }

  lemma {:induction false} InstallIsSound(rt: Option<RtId>, next: Script, st: Store, stack: seq<RtId>)
    requires Separate(st, stack) && Fresh(Install(rt, next), st, stack)
    ensures Sound(Install(rt, next), st, stack)
    decreases Install(rt, next), 0
  {
    var one := if rt.Some? then [rt.value] else [];
    DistinctConcat(one, Installs(next));
    assert Elements(one) == Dropped(rt) by {
      if rt.Some? { assert one[0] == rt.value; }
    }
    RunIsSound(next, SetRuntime(st, rt), stack);
  }

  lemma {:induction false} DispatchIsSound(callee: Script, catches: bool, next: Script, st: Store, stack: seq<RtId>)
    requires Separate(st, stack) && Fresh(Dispatch(callee, catches, next), st, stack) && st.slot.Some?
    ensures Sound(Dispatch(callee, catches, next), st, stack)
    decreases Dispatch(callee, catches, next), 0
  {
    DistinctConcat(Installs(callee), Installs(next));
    var rt := st.slot.value;
    var taken := st.(slot := None);
    DistinctPush(stack, rt);
    RunIsSound(callee, taken, stack + [rt]);
    var inner := Run(callee, taken, stack + [rt]);
    var after := Reinstall(inner.store, rt);
    assert Known(after, stack) == Known(inner.store, stack + [rt]);
    assert Separate(after, stack);
    if !inner.panicked || catches {
      RunIsSound(next, after, stack);
    }
  }

  // ---- What callers see ----

  /** A slot that nothing installs into is restored by any run, however it ends. */
  lemma {:induction false} NoInstallKeepsStore(s: Script, st: Store, stack: seq<RtId>)
    requires Installs(s) == [] && !ClearsSlot(s)
    ensures Run(s, st, stack).store == st
    decreases s
  {
    match s
    case Done =>
    case Panic =>
    case Install(_, _) =>
    case Dispatch(callee, _, next) =>
      if st.slot.Some? {
        NoInstallKeepsStore(callee, st.(slot := None), stack + [st.slot.value]);
      }
      NoInstallKeepsStore(next, st, stack);
  }

  /** Some `set_game_runtime(None)` occurs. */
  predicate ClearsSlot(s: Script) {
    match s
    case Done => false
    case Panic => false
    case Install(rt, next) => rt.None? || ClearsSlot(next)
    case Dispatch(callee, _, next) => ClearsSlot(callee) || ClearsSlot(next)
  }

  /** While the slot is empty and nothing is installed, re-entrant dispatches enter nobody. */
  lemma {:induction false} EmptySlotEntersNobody(s: Script, st: Store, stack: seq<RtId>)
    requires st.slot.None? && Installs(s) == []
    ensures Run(s, st, stack).entries == [] && Run(s, st, stack).store == st
    decreases s
  {
    match s
    case Done =>
    case Panic =>
    case Install(_, next) =>
      assert SetRuntime(st, None) == st;
      EmptySlotEntersNobody(next, st, stack);
    case Dispatch(_, _, next) => EmptySlotEntersNobody(next, st, stack);
  }

  /** After a dispatch the slot holds what the callee left installed, else the runtime that was
      taken; a callee that installs nothing cannot change it, even by panicking. */
  lemma DispatchRestoresSlot(callee: Script, catches: bool, st: Store, stack: seq<RtId>)
    requires st.slot.Some?
    ensures var left := Run(callee, st.(slot := None), stack + [st.slot.value]).store.slot;
            Run(Dispatch(callee, catches, Done), st, stack).store.slot == if left.Some? then left else st.slot
    ensures Installs(callee) == [] ==>
              Run(Dispatch(callee, catches, Done), st, stack).store == st
              && Run(Dispatch(callee, catches, Done), st, stack).entries == [Entry(st.slot.value, stack)]
  {
    if Installs(callee) == [] {
      EmptySlotEntersNobody(callee, st.(slot := None), stack + [st.slot.value]);
    }
  }

  /** How often the host itself dispatches, up to a panic of its own. */
  function HostDispatches(s: Script): nat {
    match s
    case Done => 0
    case Panic => 0
    case Install(_, next) => HostDispatches(next)
    case Dispatch(_, _, next) => 1 + HostDispatches(next)
  }

  /** The script's own steps end in a panic. */
  predicate EndsInPanic(s: Script) {
    match s
    case Done => false
    case Panic => true
    case Install(_, next) => EndsInPanic(next)
    case Dispatch(_, _, next) => EndsInPanic(next)
  }

  /** So do they, or those of a callee whose panic is not caught. */
  predicate PanicEscapes(s: Script) {
    match s
    case Done => false
    case Panic => true
    case Install(_, next) => PanicEscapes(next)
    case Dispatch(callee, catches, next) => (EndsInPanic(callee) && !catches) || PanicEscapes(next)
  }

  /** Every panic of a callee is caught. */
  predicate AllCaught(s: Script) {
    match s
    case Done => true
    case Panic => true
    case Install(_, next) => AllCaught(next)
    case Dispatch(callee, catches, next) => (EndsInPanic(callee) ==> catches) && AllCaught(next)
  }

  /** Without installs a run panics exactly when its own steps do or an entered runtime does whose
      panic nobody catches; what a runtime calls in turn enters nobody and cannot panic. */
  lemma {:induction false} PanicsIffEscapes(s: Script, st: Store, stack: seq<RtId>)
    requires Installs(s) == [] && !ClearsSlot(s)
    ensures Run(s, st, stack).panicked <==> if st.slot.Some? then PanicEscapes(s) else EndsInPanic(s)
    decreases s
  {
    match s
    case Done =>
    case Panic =>
    case Install(_, _) =>
    case Dispatch(callee, _, next) =>
      if st.slot.Some? {
        PanicsIffEscapes(callee, st.(slot := None), stack + [st.slot.value]);
        NoInstallKeepsStore(callee, st.(slot := None), stack + [st.slot.value]);
      }
      PanicsIffEscapes(next, st, stack);
  }

  /** Behind an uncaught panic nothing runs: the outcome does not depend on what comes next. */
  lemma UncaughtPanicEndsTheRun(callee: Script, next: Script, other: Script, st: Store, stack: seq<RtId>)
    requires st.slot.Some? && Run(callee, st.(slot := None), stack + [st.slot.value]).panicked
    ensures Run(Dispatch(callee, false, next), st, stack) == Run(Dispatch(callee, false, other), st, stack)
    ensures Run(Dispatch(callee, false, next), st, stack).panicked
  {}

  /** Without installs and uncaught panics the occupant is entered once for every dispatch of the host,
      and nobody else ever is. */
  lemma {:induction false} EveryDispatchEnters(s: Script, st: Store, stack: seq<RtId>)
    requires Installs(s) == [] && !ClearsSlot(s) && st.slot.Some? && AllCaught(s)
    ensures Run(s, st, stack).entries == seq(HostDispatches(s), _ => Entry(st.slot.value, stack))
    decreases s
  {
    match s
    case Done =>
    case Panic =>
    case Install(_, _) =>
    case Dispatch(callee, catches, next) =>
      var rt := st.slot.value;
      EmptySlotEntersNobody(callee, st.(slot := None), stack + [rt]);
      NoInstallKeepsStore(callee, st.(slot := None), stack + [rt]);
      PanicsIffEscapes(callee, st.(slot := None), stack + [rt]);
      EveryDispatchEnters(next, st, stack);
  }

  /** What the host installed last, if it did, or cleared. */
  function LastSet(s: Script, slot: Option<RtId>): Option<RtId> {
    match s
    case Done => slot
    case Panic => slot
    case Install(rt, next) => LastSet(next, rt)
    case Dispatch(_, _, next) => LastSet(next, slot)
  }

  /** No callee installs anything. */
  predicate OnlyHostInstalls(s: Script) {
    match s
    case Done => true
    case Panic => true
    case Install(_, next) => OnlyHostInstalls(next)
    case Dispatch(callee, _, next) => Installs(callee) == [] && OnlyHostInstalls(next)
  }

  /** Where only the host installs, the slot ends up with what it installed last. */
  lemma {:induction false} SlotHoldsLastInstalled(s: Script, st: Store, stack: seq<RtId>)
    requires OnlyHostInstalls(s) && AllCaught(s)
    ensures Run(s, st, stack).store.slot == LastSet(s, st.slot)
    decreases s
  {
    match s
    case Done =>
    case Panic =>
    case Install(rt, next) => SlotHoldsLastInstalled(next, SetRuntime(st, rt), stack);
    case Dispatch(callee, _, next) =>
      if st.slot.Some? {
        EmptySlotEntersNobody(callee, st.(slot := None), stack + [st.slot.value]);
        EmptyCalleePanics(callee, st.(slot := None), stack + [st.slot.value]);
      }
      SlotHoldsLastInstalled(next, st, stack);
  }

  /** A callee that installs nothing runs on an empty slot, and panics exactly when its own steps do. */
  lemma {:induction false} EmptyCalleePanics(s: Script, st: Store, stack: seq<RtId>)
    requires st.slot.None? && Installs(s) == []
    ensures Run(s, st, stack).panicked <==> EndsInPanic(s)
    decreases s
  {
    match s
    case Done =>
    case Panic =>
    case Install(_, next) =>
      assert SetRuntime(st, None) == st;
      EmptyCalleePanics(next, st, stack);
    case Dispatch(_, _, next) => EmptyCalleePanics(next, st, stack);
  }

  // ---- The thread-local slot as the object it is ----

  class GameSlot {
    var slot: Option<RtId>
    ghost var dropped: set<RtId>
    ghost var entries: seq<Entry>

    ghost function View(): Store
      reads this
    {
      Store(slot, dropped)
    }

    constructor ()
      ensures View() == Store(None, {}) && entries == []
    {
      slot, dropped, entries := None, {}, [];
    }

    method SetGameRuntime(rt: Option<RtId>)
      modifies this
      ensures View() == SetRuntime(old(View()), rt) && entries == old(entries)
    {
      dropped := dropped + Dropped(slot);
      slot := rt;
    }

    /** `dispatch`: take the runtime out, call it, put it back unless a new one is there. */
    method DispatchCall(callee: Script, ghost stack: seq<RtId>) returns (panicked: bool)
      modifies this
      ensures var o := Run(Dispatch(callee, false, Done), old(View()), stack);
              View() == o.store && panicked == o.panicked && entries == old(entries) + o.entries
      decreases callee, 1
    {
      if slot.None? {
        return false;
      }
      var taken := slot.value;
      slot := None;
      entries := entries + [Entry(taken, stack)];
      panicked := Execute(callee, stack + [taken]);
      if slot.None? {
        slot := Some(taken);
      } else {
        dropped := dropped + {taken};
      }
    }

    /** Run a script on the slot; a panic ends it unless the dispatching code catches it. */
    method Execute(s: Script, ghost stack: seq<RtId>) returns (panicked: bool)
      modifies this
      ensures var o := Run(s, old(View()), stack);
              View() == o.store && panicked == o.panicked && entries == old(entries) + o.entries
      decreases s, 0
    {
      match s
      case Done => return false;
      case Panic => return true;
      case Install(rt, next) =>
        SetGameRuntime(rt);
        panicked := Execute(next, stack);
      case Dispatch(callee, catches, next) =>
        var inner := DispatchCall(callee, stack);
        if inner && !catches {
          return true;
        }
        panicked := Execute(next, stack);
    }
  }
}
