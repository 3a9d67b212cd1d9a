/**
 The wake-up protocol shared by the reconciler, the Kea syncer and the lease poller: a worker loop that runs
 once, then waits on a ticker and a one-slot trigger channel. Every interleaving is a sequence of actions.
 A run reads the store after it begins, so it sees at least the version that was current when it began.
 */
module Wakeup {
  import opened Basics

  datatype Worker = AtSelect | Woken | Running | Stopped

  datatype Action =
    | Mutate       // a handler changes the store
    | Trigger      // a handler asks for a run; a full slot drops the request
    | TickFires    // the ticker puts a tick in its own one-slot channel, or drops it
    | TakeTick     // the waiting worker receives a tick
    | TakeTrigger  // the waiting worker receives from the trigger slot
    | Begin        // a run starts
    | Finish       // a run ends and the worker waits again
    | Cancel       // the context is cancelled
    | Stop         // the waiting worker sees the cancellation and returns

  datatype State = State(version: nat, slot: bool, tick: bool, worker: Worker, cancelled: bool,
                         began: Option<nat>, runs: nat, ticks: nat, triggers: nat)

  /** `Start` runs once before it waits; without a client it returns at once and `Trigger` does nothing. */
  function Init(version: nat, client: bool): State {
    State(version, false, false, if client then Woken else Stopped, false, None, 0, 0, 0)
  }

  function Step(client: bool, s: State, a: Action): Option<State> {
    match a
    case Mutate => Some(s.(version := s.version + 1))
    case Trigger => Some(if client then s.(slot := true, triggers := s.triggers + 1) else s)
    case TickFires => Some(s.(tick := true, ticks := s.ticks + 1))
    case TakeTick => if s.worker == AtSelect && s.tick then Some(s.(tick := false, worker := Woken)) else None
    case TakeTrigger => if s.worker == AtSelect && s.slot then Some(s.(slot := false, worker := Woken)) else None
    case Begin => if s.worker == Woken then Some(s.(worker := Running, began := Some(s.version), runs := s.runs + 1)) else None
    case Finish => if s.worker == Running then Some(s.(worker := AtSelect)) else None
    case Cancel => Some(s.(cancelled := true))
    case Stop => if s.worker == AtSelect && s.cancelled then Some(s.(worker := Stopped)) else None
  }

  /** The state after a sequence of actions, if each was possible when its turn came. */
  function Exec(client: bool, s: State, acts: seq<Action>): Option<State> {
    if acts == [] then Some(s)
    else
      match Exec(client, s, acts[..|acts| - 1])
      case None => None
      case Some(t) => Step(client, t, acts[|acts| - 1])
  }

  lemma {:induction false} ExecConcat(client: bool, s: State, xs: seq<Action>, ys: seq<Action>)
    ensures Exec(client, s, xs + ys) ==
            match Exec(client, s, xs) case None => None case Some(t) => Exec(client, t, ys)
  {
    if ys == [] {
      assert xs + ys == xs;
    } else {
      ExecConcat(client, s, xs, ys[..|ys| - 1]);
      assert (xs + ys)[..|xs + ys| - 1] == xs + ys[..|ys| - 1];
    }
  }

  lemma ExecTrigger(s0: State, before: seq<Action>, after: seq<Action>)
    requires Exec(true, s0, before + [Trigger] + after).Some?
    ensures Exec(true, s0, before).Some? && Exec(true, s0, before + [Trigger]).Some?
    ensures Step(true, Exec(true, s0, before).value, Trigger) == Some(Exec(true, s0, before + [Trigger]).value)
    ensures Exec(true, Exec(true, s0, before + [Trigger]).value, after) == Exec(true, s0, before + [Trigger] + after)
  {
    ExecConcat(true, s0, before + [Trigger], after);
    var acts := before + [Trigger];
    assert acts[..|acts| - 1] == before && acts[|acts| - 1] == Trigger;
  }

  // ---------- No lost wake-up ----------

  /** A run that sees version `v` has begun, is about to begin, or is requested; or the worker has returned. */
  ghost predicate Covered(s: State, v: nat) {
    s.slot || s.worker == Woken || s.worker == Stopped || (s.began.Some? && s.began.value >= v)
  }

  ghost predicate Sound(s: State) {
    && (s.began.Some? ==> s.began.value <= s.version)
    && s.runs + (if s.slot then 1 else 0) + (if s.tick then 1 else 0) + (if s.worker == Woken then 1 else 0)
         <= 1 + s.ticks + s.triggers
  }

  lemma StepKeeps(client: bool, s: State, a: Action, v: nat)
    requires Step(client, s, a).Some? && Sound(s) && v <= s.version && Covered(s, v)
    ensures var t := Step(client, s, a).value; Sound(t) && v <= t.version && Covered(t, v)
  {
  }

  lemma {:induction false} ExecKeeps(client: bool, s: State, acts: seq<Action>, v: nat)
    requires Exec(client, s, acts).Some? && Sound(s) && v <= s.version && Covered(s, v)
    ensures var t := Exec(client, s, acts).value; Sound(t) && v <= t.version && Covered(t, v)
  {
    if acts != [] {
      ExecKeeps(client, s, acts[..|acts| - 1], v);
      StepKeeps(client, Exec(client, s, acts[..|acts| - 1]).value, acts[|acts| - 1], v);
    }
  }

  lemma {:induction false} ExecSound(client: bool, v0: nat, acts: seq<Action>)
    requires Exec(client, Init(v0, client), acts).Some?
    ensures Sound(Exec(client, Init(v0, client), acts).value)
  {
    ExecKeeps(client, Init(v0, client), acts, 0);
  }

  lemma TriggerCovers(s: State)
    requires Step(true, s, Trigger).Some? && Sound(s)
    ensures var t := Step(true, s, Trigger).value; Sound(t) && t.version == s.version && Covered(t, s.version)
  {
  }

  /**
   In every interleaving: once a trigger has followed store version `v`, the slot is full, or a run is about to
   start, or a run has begun at version `v` or later, for as long as the worker has not been stopped.
   */
  lemma NoLostWakeup(v0: nat, before: seq<Action>, after: seq<Action>)
    requires Exec(true, Init(v0, true), before + [Trigger] + after).Some?
    ensures Exec(true, Init(v0, true), before).Some?
    ensures var v := Exec(true, Init(v0, true), before).value.version;
            Covered(Exec(true, Init(v0, true), before + [Trigger] + after).value, v)
  {
    var init := Init(v0, true);
    ExecTrigger(init, before, after);
    ExecSound(true, v0, before);
    var s := Exec(true, init, before).value;
    TriggerCovers(s);
    ExecKeeps(true, Exec(true, init, before + [Trigger]).value, after, s.version);
  }

  /** Runs started never outnumber the initial one plus every tick and every trigger. */
  lemma RunsAreRequested(client: bool, v0: nat, acts: seq<Action>)
    requires Exec(client, Init(v0, client), acts).Some?
    ensures var s := Exec(client, Init(v0, client), acts).value; s.runs <= 1 + s.ticks + s.triggers
  {
    ExecSound(client, v0, acts);
  }

  lemma {:induction false} ManyTriggers(s: State, n: nat)
    ensures Exec(true, s, seq(n, _ => Trigger)).Some?
    ensures var t := Exec(true, s, seq(n, _ => Trigger)).value;
            t == s.(slot := s.slot || n > 0, triggers := s.triggers + n)
  {
    if n > 0 {
      ManyTriggers(s, n - 1);
      assert seq(n, _ => Trigger)[..n - 1] == seq(n - 1, _ => Trigger);
    }
  }

  /** Triggers coalesce: any number of them, with nothing in between, queues one run, as a single one does. */
  lemma TriggersCoalesce(s: State, n: nat)
    requires n >= 1
    ensures Exec(true, s, seq(n, _ => Trigger)).Some?
    ensures Exec(true, s, seq(n, _ => Trigger)).value.(triggers := 0) == Step(true, s, Trigger).value.(triggers := 0)
  {
    ManyTriggers(s, n);
  }

  // ---------- The wake-up is served ----------

  predicate WorkerMoves(a: Action) {
    a == TakeTick || a == TakeTrigger || a == Begin || a == Finish
  }

  function Moves(acts: seq<Action>): nat {
    if acts == [] then 0 else Moves(acts[..|acts| - 1]) + if WorkerMoves(acts[|acts| - 1]) then 1 else 0
  }

  /** Worker moves still needed before a run has begun at version `v` or later. */
  function Debt(s: State, v: nat): nat {
    if s.began.Some? && s.began.value >= v then 0
    else match s.worker
      case Woken => 1
      case AtSelect => 2
      case Running => 3
      case Stopped => 0
  }

  lemma StepPays(s: State, a: Action, v: nat)
    requires Step(true, s, a).Some? && v <= s.version && Sound(s) && s.worker != Stopped
    ensures var t := Step(true, s, a).value;
            Debt(t, v) <= Debt(s, v) && (WorkerMoves(a) && Debt(s, v) > 0 ==> Debt(t, v) < Debt(s, v))
  {
  }

  lemma {:induction false} ExecPays(s: State, acts: seq<Action>, v: nat)
    requires Exec(true, s, acts).Some? && Sound(s) && v <= s.version && Covered(s, v)
    requires Exec(true, s, acts).value.worker != Stopped
    ensures Debt(Exec(true, s, acts).value, v) <= Max(0, Debt(s, v) - Moves(acts))
  {
    if acts != [] {
      var front := acts[..|acts| - 1];
      ExecKeeps(true, s, front, v);
      var t := Exec(true, s, front).value;
      assert t.worker != Stopped;
      ExecPays(s, front, v);
      StepPays(t, acts[|acts| - 1], v);
    }
  }

  /** After a trigger that followed version `v`, any three moves of the worker contain the start of a run that sees `v`. */
  lemma ServedWithinThreeMoves(v0: nat, before: seq<Action>, after: seq<Action>)
    requires Exec(true, Init(v0, true), before + [Trigger] + after).Some?
    requires Exec(true, Init(v0, true), before + [Trigger] + after).value.worker != Stopped
    requires Moves(after) >= 3
    ensures Exec(true, Init(v0, true), before).Some?
    ensures var v := Exec(true, Init(v0, true), before).value.version;
            var began := Exec(true, Init(v0, true), before + [Trigger] + after).value.began;
            began.Some? && began.value >= v
  {
    var init := Init(v0, true);
    ExecTrigger(init, before, after);
    ExecSound(true, v0, before);
    var s := Exec(true, init, before).value;
    TriggerCovers(s);
    var t := Exec(true, init, before + [Trigger]).value;
    ExecPays(t, after, s.version);
    NoDebtMeansBegun(Exec(true, t, after).value, s.version);
  }

  lemma NoDebtMeansBegun(s: State, v: nat)
    requires Debt(s, v) == 0 && s.worker != Stopped
    ensures s.began.Some? && s.began.value >= v
  {
  }

  /** And the worker is never stuck on the way: while a wake-up is owed, some move of the worker is possible. */
  lemma OwedMeansEnabled(s: State, v: nat)
    requires Covered(s, v) && Debt(s, v) > 0
    ensures exists a :: WorkerMoves(a) && Step(true, s, a).Some?
  {
    var a := match s.worker case Woken => Begin case Running => Finish case _ => TakeTrigger;
    assert WorkerMoves(a) && Step(true, s, a).Some?;
  }

  /** Without a client the worker never runs, whatever happens. */
  lemma {:induction false} NoClientNoRuns(v0: nat, acts: seq<Action>)
    requires Exec(false, Init(v0, false), acts).Some?
    ensures var s := Exec(false, Init(v0, false), acts).value; s.worker == Stopped && s.runs == 0 && !s.slot
  {
    if acts != [] {
      NoClientNoRuns(v0, acts[..|acts| - 1]);
    }
  }

  // ---------- What an interleaving did ----------

  function Count(acts: seq<Action>, a: Action): nat {
    if acts == [] then 0 else Count(acts[..|acts| - 1], a) + if acts[|acts| - 1] == a then 1 else 0
  }

  lemma {:induction false} Counted(v0: nat, acts: seq<Action>)
    requires Exec(true, Init(v0, true), acts).Some?
    ensures var s := Exec(true, Init(v0, true), acts).value;
            && s.version == v0 + Count(acts, Mutate) && s.runs == Count(acts, Begin)
            && s.ticks == Count(acts, TickFires) && s.triggers == Count(acts, Trigger)
  {
    if acts != [] {
      Counted(v0, acts[..|acts| - 1]);
    }
  }

  /** In every interleaving the runs begun are at most one more than the ticks and the triggers in it together. */
  lemma BeginsAreAskedFor(v0: nat, acts: seq<Action>)
    requires Exec(true, Init(v0, true), acts).Some?
    ensures Count(acts, Begin) <= 1 + Count(acts, TickFires) + Count(acts, Trigger)
  {
    Counted(v0, acts);
    RunsAreRequested(true, v0, acts);
  }

  /** A worker with a client returns only after a cancellation, and never before its first run has begun. */
  lemma {:induction false} StopsOnlyOnCancel(v0: nat, acts: seq<Action>)
    requires Exec(true, Init(v0, true), acts).Some?
    ensures var s := Exec(true, Init(v0, true), acts).value;
            && (s.cancelled <==> Cancel in acts) && (s.worker == Stopped ==> Cancel in acts)
            && (Begin !in acts ==> s.worker == Woken && Finish !in acts)
  {
    if acts != [] {
      var front, a := acts[..|acts| - 1], acts[|acts| - 1];
      StopsOnlyOnCancel(v0, front);
      assert acts == front + [a];
    }
  }

  lemma ThenThese(client: bool, s: State, acts: seq<Action>, x: Action, y: Action)
    requires Exec(client, s, acts).Some? && Step(client, Exec(client, s, acts).value, x).Some?
    requires Step(client, Step(client, Exec(client, s, acts).value, x).value, y).Some?
    ensures Exec(client, s, acts + [x, y]) == Step(client, Step(client, Exec(client, s, acts).value, x).value, y)
  {
    var one, two := acts + [x], acts + [x, y];
    assert one[..|one| - 1] == acts && two[..|two| - 1] == one;
  }

  lemma OneMore(client: bool, s: State, acts: seq<Action>, x: Action)
    requires Exec(client, s, acts).Some?
    ensures Exec(client, s, acts + [x]) == Step(client, Exec(client, s, acts).value, x)
  {
    var one := acts + [x];
    assert one[..|one| - 1] == acts;
  }

  /** A waiting worker answers whatever comes: a tick or a trigger with a run, a cancellation by returning. */
  lemma WaitingWorkerAnswers(v0: nat, acts: seq<Action>)
    requires Exec(true, Init(v0, true), acts).Some? && Exec(true, Init(v0, true), acts).value.worker == AtSelect
    ensures Exec(true, Init(v0, true), acts + [TickFires] + [TakeTick, Begin]).Some?
    ensures Exec(true, Init(v0, true), acts + [Trigger] + [TakeTrigger, Begin]).Some?
    ensures Exec(true, Init(v0, true), acts + [Cancel] + [Stop]).Some?
  {
    var init := Init(v0, true);
    OneMore(true, init, acts, TickFires);
    ThenThese(true, init, acts + [TickFires], TakeTick, Begin);
    OneMore(true, init, acts, Trigger);
    ThenThese(true, init, acts + [Trigger], TakeTrigger, Begin);
    OneMore(true, init, acts, Cancel);
    OneMore(true, init, acts + [Cancel], Stop);
  }
}
