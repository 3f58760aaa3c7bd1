/** Ownership of the proxy's connection, upstream and tunnel tasks, against a
    concurrent shutdown. */
module TrackedTasks {
  import opened Common

  type Task = nat

  /** What the mutex protects, and the tasks whose handle was told to abort. */
  datatype Tracked = Tracked(closed: bool, handles: seq<Task>, aborted: set<Task>)

  function Live(handles: seq<Task>, finished: set<Task>): seq<Task>
  {
    if handles == [] then []
    else (if handles[0] in finished then [] else [handles[0]]) + Live(handles[1..], finished)
  }

  /** One locked spawn: the new state and whether the task was accepted. */
  function Spawn(t: Tracked, task: Task, finished: set<Task>): (Tracked, bool)
  {
    var live := Live(t.handles, finished);
    if t.closed then (t.(handles := live), false) else (t.(handles := live + [task]), true)
  }

  function Close(t: Tracked): Tracked
  {
    t.(closed := true, aborted := t.aborted + set task | task in t.handles)
  }

  function CloseAndTake(t: Tracked): (Tracked, seq<Task>) { (t.(closed := true, handles := []), t.handles) }

  class TaskSet {
    var closed: bool
    var handles: seq<Task>
    var aborted: set<Task>

    ghost function Value(): Tracked
      reads this
    {
      Tracked(closed, handles, aborted)
    }

    constructor ()
      ensures Value() == Tracked(false, [], {})
    {
      closed, handles, aborted := false, [], {};
    }

    method SpawnTask(task: Task, finished: set<Task>) returns (accepted: bool)
      modifies this
      ensures (Value(), accepted) == Spawn(old(Value()), task, finished)
    {
      var live := [];
      for i := 0 to |handles|
        invariant live + Live(handles[i..], finished) == Live(handles, finished)
        invariant handles == old(handles) && closed == old(closed) && aborted == old(aborted)
      {
        assert handles[i..][1..] == handles[i + 1..];
        if handles[i] !in finished { live := live + [handles[i]]; }
      }
      assert handles[|handles|..] == [] && live == Live(handles, finished);
      handles := live;
      if closed { return false; }
      handles := handles + [task];
      return true;
    }

    method AbortAll()
      modifies this
      ensures Value() == Close(old(Value()))
    {
      closed := true;
      for i := 0 to |handles|
        invariant closed && handles == old(handles)
        invariant aborted == old(aborted) + set task | task in handles[..i]
      {
        assert handles[..i + 1] == handles[..i] + [handles[i]];
        aborted := aborted + {handles[i]};
      }
      assert handles[..|handles|] == handles;
    }

    method TakeAll() returns (taken: seq<Task>)
      modifies this
      ensures (Value(), taken) == CloseAndTake(old(Value()))
    {
      closed := true;
      taken := handles;
      handles := [];
    }
  }

  // ------------------------------------------------------ the whole protocol

  /** How far RunningProxy::shutdown has come. */
  datatype Shutdown =
    | NotStarted
    | Signalled
    | AwaitingListeners(next: nat)
    | AwaitingTasks(taken: seq<Task>)
    | Returned

  datatype World = World(
    tracked: Tracked,
    accepted: set<Task>,
    finished: set<Task>,
    listenersUp: seq<bool>,
    shutdown: Shutdown)

  datatype Spawner = ByListener(listener: nat) | ByTask(task: Task)

  datatype Step =
    | TrySpawn(spawner: Spawner, task: Task)
    | Finish(task: Task)
    | ListenerFails(listener: nat)
    | ListenerReturns(listener: nat)
    | SendSignal
    | AbortTasks
    | ListenerJoined
    | TakeTasks
    | TaskJoined
    | Return

  predicate IsUp(w: World, listener: nat) { listener < |w.listenersUp| && w.listenersUp[listener] }

  predicate IsLive(w: World, task: Task) { task in w.accepted && task !in w.finished }

  /** Only running listeners and live tasks spawn; a task finishes at any time
      once accepted, of itself or because it was aborted; joining waits for
      the joined party. */
  predicate Enabled(w: World, step: Step)
  {
    match step
    case TrySpawn(spawner, task) =>
      && task !in w.accepted
      && (match spawner case ByListener(l) => IsUp(w, l) case ByTask(t) => IsLive(w, t))
    case Finish(task) => IsLive(w, task)
    case ListenerFails(l) => IsUp(w, l)
    case ListenerReturns(l) => IsUp(w, l)
    case SendSignal => w.shutdown.NotStarted?
    case AbortTasks => w.shutdown.Signalled?
    case ListenerJoined =>
      w.shutdown.AwaitingListeners? && w.shutdown.next < |w.listenersUp| && !w.listenersUp[w.shutdown.next]
    case TakeTasks => w.shutdown.AwaitingListeners? && w.shutdown.next == |w.listenersUp|
    case TaskJoined => w.shutdown.AwaitingTasks? && w.shutdown.taken != [] && w.shutdown.taken[0] in w.finished
    case Return => w.shutdown.AwaitingTasks? && w.shutdown.taken == []
  }

  function Next(w: World, step: Step): World
    requires Enabled(w, step)
  {
    match step
    case TrySpawn(_, task) =>
      var (tracked, ok) := Spawn(w.tracked, task, w.finished);
      w.(tracked := tracked, accepted := if ok then w.accepted + {task} else w.accepted)
    case Finish(task) => w.(finished := w.finished + {task})
    case ListenerFails(l) => w.(tracked := Close(w.tracked), listenersUp := w.listenersUp[l := false])
    case ListenerReturns(l) => w.(listenersUp := w.listenersUp[l := false])
    case SendSignal => w.(shutdown := Signalled)
    case AbortTasks => w.(tracked := Close(w.tracked), shutdown := AwaitingListeners(0))
    case ListenerJoined => w.(shutdown := AwaitingListeners(w.shutdown.next + 1))
    case TakeTasks =>
      var (tracked, taken) := CloseAndTake(w.tracked);
      w.(tracked := tracked.(aborted := tracked.aborted + set task | task in taken), shutdown := AwaitingTasks(taken))
    case TaskJoined => w.(shutdown := AwaitingTasks(w.shutdown.taken[1..]))
    case Return => w.(shutdown := Returned)
  }

  ghost predicate IsRun(steps: seq<Step>, worlds: seq<World>)
  {
    && |worlds| == |steps| + 1
    && worlds[0] == World(Tracked(false, [], {}), {}, {}, [true, true], NotStarted)
    && forall i :: 0 <= i < |steps| ==> Enabled(worlds[i], steps[i]) && worlds[i + 1] == Next(worlds[i], steps[i])
  }

  function Pending(w: World): seq<Task> { if w.shutdown.AwaitingTasks? then w.shutdown.taken else [] }

  ghost predicate Inv(w: World)
  {
    && (forall task :: IsLive(w, task) ==> task in w.tracked.handles || task in Pending(w))
    && (!w.shutdown.NotStarted? && !w.shutdown.Signalled? ==> w.tracked.closed)
    && (w.tracked.closed ==> forall task :: IsLive(w, task) ==> task in w.tracked.aborted)
    && (w.shutdown.AwaitingListeners? ==>
          w.shutdown.next <= |w.listenersUp| && forall l :: 0 <= l < w.shutdown.next ==> !w.listenersUp[l])
    && (w.shutdown.AwaitingTasks? || w.shutdown.Returned? ==>
          w.tracked.handles == [] && forall l :: 0 <= l < |w.listenersUp| ==> !w.listenersUp[l])
  }

  lemma {:induction false} LiveKeepsUnfinished(handles: seq<Task>, finished: set<Task>)
    ensures forall task :: task in handles && task !in finished ==> task in Live(handles, finished)
    ensures forall task :: task in Live(handles, finished) ==> task in handles
  {
    if handles != [] { LiveKeepsUnfinished(handles[1..], finished); }
  }

  lemma SpawnStepKeepsInv(w: World, step: Step)
    requires Inv(w) && Enabled(w, step) && step.TrySpawn?
    ensures Inv(Next(w, step))
    ensures w.tracked.closed ==> Next(w, step).accepted == w.accepted
  {
    LiveKeepsUnfinished(w.tracked.handles, w.finished);
    var w' := Next(w, step);
    forall task | IsLive(w', task) ensures task in w'.tracked.handles || task in Pending(w') {
      if task != step.task { assert IsLive(w, task); }
    }
  }

  lemma StepKeepsInv(w: World, step: Step)
    requires Inv(w) && Enabled(w, step)
    ensures Inv(Next(w, step))
  {
    if step.TrySpawn? {
      SpawnStepKeepsInv(w, step);
    } else {
      var w' := Next(w, step);
      forall task | IsLive(w', task) ensures task in w'.tracked.handles || task in Pending(w') {
        assert IsLive(w, task);
      }
    }
  }

  lemma {:induction false} RunKeepsInv(steps: seq<Step>, worlds: seq<World>, i: nat)
    requires IsRun(steps, worlds) && i < |worlds|
    ensures Inv(worlds[i])
  {
    if i > 0 {
      RunKeepsInv(steps, worlds, i - 1);
      StepKeepsInv(worlds[i - 1], steps[i - 1]);
    }
  }

  /** Main result. In every interleaving, when shutdown has returned no
      accepted task is live, no listener is up and the set is closed. */
  lemma ShutdownLeavesNothingLive(steps: seq<Step>, worlds: seq<World>, i: nat)
    requires IsRun(steps, worlds) && i < |worlds| && worlds[i].shutdown.Returned?
    ensures worlds[i].accepted <= worlds[i].finished
    ensures worlds[i].tracked.closed && worlds[i].tracked.handles == []
    ensures forall l :: 0 <= l < |worlds[i].listenersUp| ==> !worlds[i].listenersUp[l]
  {
    RunKeepsInv(steps, worlds, i);
    var w := worlds[i];
    forall task | task in w.accepted ensures task in w.finished {
      assert IsLive(w, task) ==> task in w.tracked.handles || task in Pending(w);
    }
  }

  /** Throughout the run every live accepted task is owned by the handle list
      or by the shutdown that took it. */
  lemma LiveTasksAreOwned(steps: seq<Step>, worlds: seq<World>, i: nat, task: Task)
    requires IsRun(steps, worlds) && i < |worlds| && IsLive(worlds[i], task)
    ensures task in worlds[i].tracked.handles || task in Pending(worlds[i])
  {
    RunKeepsInv(steps, worlds, i);
  }

  /** Once the set is closed, every task still live has been told to abort: the
      task a shutdown waits for is never one that nobody cancelled. */
  lemma ClosingAbortsEverything(steps: seq<Step>, worlds: seq<World>, i: nat, task: Task)
    requires IsRun(steps, worlds) && i < |worlds| && worlds[i].tracked.closed && IsLive(worlds[i], task)
    ensures task in worlds[i].tracked.aborted
  {
    RunKeepsInv(steps, worlds, i);
  }

  lemma CloseIsPermanentStep(w: World, step: Step)
    requires Enabled(w, step) && w.tracked.closed
    ensures Next(w, step).tracked.closed && Next(w, step).accepted == w.accepted
  {
  }

  /** Once the set is closed, no later step of the run accepts a task. */
  lemma {:induction false} NothingAcceptedOnceClosed(steps: seq<Step>, worlds: seq<World>, i: nat, j: nat)
    requires IsRun(steps, worlds) && i <= j < |worlds| && worlds[i].tracked.closed
    ensures worlds[j].tracked.closed && worlds[j].accepted == worlds[i].accepted
    decreases j - i
  {
    if i < j {
      assert Enabled(worlds[i], steps[i]);
      CloseIsPermanentStep(worlds[i], steps[i]);
      NothingAcceptedOnceClosed(steps, worlds, i + 1, j);
    }
  }

  // ----------------------------------------------- exactly what is accepted

  ghost predicate Closes(step: Step) { step.AbortTasks? || step.ListenerFails? || step.TakeTasks? }

  ghost predicate ClosedBy(steps: seq<Step>, i: nat)
    requires i <= |steps|
  {
    exists j :: 0 <= j < i && Closes(steps[j])
  }

  /** The set is closed exactly when one of three steps has been taken. */
  lemma {:induction false} ClosedIsExact(steps: seq<Step>, worlds: seq<World>, i: nat)
    requires IsRun(steps, worlds) && i < |worlds|
    ensures worlds[i].tracked.closed <==> ClosedBy(steps, i)
  {
    if i > 0 {
      ClosedIsExact(steps, worlds, i - 1);
      assert Enabled(worlds[i - 1], steps[i - 1]) && worlds[i] == Next(worlds[i - 1], steps[i - 1]);
      if ClosedBy(steps, i - 1) {
        var j :| 0 <= j < i - 1 && Closes(steps[j]);
        assert ClosedBy(steps, i);
      }
    }
  }

  /** The unfinished ones, in their order. */
  function Unfinished(handles: seq<Task>, finished: set<Task>): seq<Task>
  {
    if handles == [] then []
    else
      var last := handles[|handles| - 1];
      Unfinished(handles[..|handles| - 1], finished) + (if last in finished then [] else [last])
  }

  lemma {:induction false} LiveAppend(handles: seq<Task>, last: Task, finished: set<Task>)
    ensures Live(handles + [last], finished) == Live(handles, finished) + if last in finished then [] else [last]
  {
    if handles == [] {
      assert handles + [last] == [last] && Live([last][1..], finished) == [];
    } else {
      var more := handles + [last];
      assert more[1..] == handles[1..] + [last] && more[0] == handles[0];
      LiveAppend(handles[1..], last, finished);
      var head := if handles[0] in finished then [] else [handles[0]];
      var tail := if last in finished then [] else [last];
      assert head + (Live(handles[1..], finished) + tail) == head + Live(handles[1..], finished) + tail;
    }
  }

  lemma {:induction false} LiveIsUnfinished(handles: seq<Task>, finished: set<Task>)
    ensures Live(handles, finished) == Unfinished(handles, finished)
  {
    if handles != [] {
      var init := handles[..|handles| - 1];
      LiveIsUnfinished(init, finished);
      LiveAppend(init, handles[|handles| - 1], finished);
      assert handles == init + [handles[|handles| - 1]];
    }
  }

  /** Main result, the other direction: every task offered before the set was
      closed is accepted and owned, however many others are live, and none
      later; only finished handles are ever dropped on the way. */
  lemma AcceptanceIsExact(steps: seq<Step>, worlds: seq<World>, i: nat)
    requires IsRun(steps, worlds) && i < |steps| && steps[i].TrySpawn?
    ensures steps[i].task in worlds[i + 1].accepted <==> !ClosedBy(steps, i)
    ensures worlds[i + 1].tracked.handles
         == Unfinished(worlds[i].tracked.handles, worlds[i].finished)
            + if ClosedBy(steps, i) then [] else [steps[i].task]
    ensures worlds[i + 1].finished == worlds[i].finished && worlds[i + 1].shutdown == worlds[i].shutdown
  {
    hide Live, Unfinished, ClosedBy;
    assert Enabled(worlds[i], steps[i]) && worlds[i + 1] == Next(worlds[i], steps[i]);
    ClosedIsExact(steps, worlds, i);
    LiveIsUnfinished(worlds[i].tracked.handles, worlds[i].finished);
  }

  /** Nothing but a spawn accepts a task, and nothing else changes the list but
      the shutdown that takes it. */
  lemma OnlySpawnsAndTakesChangeTheList(steps: seq<Step>, worlds: seq<World>, i: nat)
    requires IsRun(steps, worlds) && i < |steps| && !steps[i].TrySpawn?
    ensures worlds[i + 1].accepted == worlds[i].accepted
    ensures worlds[i + 1].tracked.handles == if steps[i].TakeTasks? then [] else worlds[i].tracked.handles
    ensures steps[i].TakeTasks? ==> Pending(worlds[i + 1]) == worlds[i].tracked.handles
  {
    assert Enabled(worlds[i], steps[i]) && worlds[i + 1] == Next(worlds[i], steps[i]);
  }

  // ----------------------------------------------------- shutdown gets through

  /** Every handle belongs to a task that was accepted. */
  ghost predicate Known(w: World)
  {
    && (forall task :: task in w.tracked.handles ==> task in w.accepted)
    && (forall task :: task in Pending(w) ==> task in w.accepted)
  }

  lemma StepKeepsKnown(w: World, step: Step)
    requires Known(w) && Enabled(w, step)
    ensures Known(Next(w, step))
  {
    LiveKeepsUnfinished(w.tracked.handles, w.finished);
  }

  lemma {:induction false} RunKeepsKnown(steps: seq<Step>, worlds: seq<World>, i: nat)
    requires IsRun(steps, worlds) && i < |worlds|
    ensures Known(worlds[i])
  {
    if i > 0 {
      RunKeepsKnown(steps, worlds, i - 1);
      StepKeepsKnown(worlds[i - 1], steps[i - 1]);
    }
  }

  function Stage(w: World): nat
  {
    match w.shutdown
    case NotStarted => 4
    case Signalled => 3
    case AwaitingListeners(_) => 2
    case AwaitingTasks(_) => 1
    case Returned => 0
  }

  /** What the current stage still waits for. */
  function Waiting(w: World): nat
  {
    match w.shutdown
    case AwaitingListeners(next) =>
      if next < |w.listenersUp| then 2 * (|w.listenersUp| - next) + (if w.listenersUp[next] then 1 else 0) else 0
    case AwaitingTasks(taken) =>
      2 * |taken| + (if taken != [] && taken[0] !in w.finished then 1 else 0)
    case _ => 0
  }

  /** A step that brings shutdown nearer to its return: its own, or the one of
      the listener or task it waits for. */
  lemma Onward(w: World) returns (step: Step)
    requires Inv(w) && Known(w) && !w.shutdown.Returned?
    ensures Enabled(w, step)
    ensures Stage(Next(w, step)) < Stage(w) || (Stage(Next(w, step)) == Stage(w) && Waiting(Next(w, step)) < Waiting(w))
  {
    match w.shutdown {
      case NotStarted => step := SendSignal;
      case Signalled => step := AbortTasks;
      case AwaitingListeners(next) =>
        step := if next == |w.listenersUp| then TakeTasks
                else if w.listenersUp[next] then ListenerReturns(next) else ListenerJoined;
      case AwaitingTasks(taken) =>
        step := if taken == [] then Return else if taken[0] in w.finished then TaskJoined else Finish(taken[0]);
    }
  }

  function After(w: World, steps: seq<Step>): Option<World>
    decreases |steps|
  {
    if steps == [] then Some(w)
    else if Enabled(w, steps[0]) then After(Next(w, steps[0]), steps[1..]) else None
  }

  lemma {:induction false} CanReturnFrom(w: World) returns (steps: seq<Step>)
    requires Inv(w) && Known(w)
    ensures After(w, steps).Some? && After(w, steps).value.shutdown.Returned?
    decreases Stage(w), Waiting(w)
  {
    if w.shutdown.Returned? {
      steps := [];
    } else {
      var step := Onward(w);
      StepKeepsInv(w, step);
      StepKeepsKnown(w, step);
      var later := CanReturnFrom(Next(w, step));
      steps := [step] + later;
      assert steps[1..] == later;
    }
  }

  /** Main result on progress: shutdown is never stuck. From every world of every
      run it can still return, once the listeners and tasks it has told to stop
      do stop. */
  lemma ShutdownIsNeverStuck(steps: seq<Step>, worlds: seq<World>, i: nat) returns (rest: seq<Step>)
    requires IsRun(steps, worlds) && i < |worlds|
    ensures After(worlds[i], rest).Some? && After(worlds[i], rest).value.shutdown.Returned?
  {
    RunKeepsInv(steps, worlds, i);
    RunKeepsKnown(steps, worlds, i);
    rest := CanReturnFrom(worlds[i]);
  }

  /** A listener that has failed or returned stays down, and a finished task
      stays finished. */
  lemma {:induction false} WhatEndsStaysEnded(steps: seq<Step>, worlds: seq<World>, i: nat, j: nat)
    requires IsRun(steps, worlds) && i < j < |worlds|
    ensures steps[i].ListenerFails? || steps[i].ListenerReturns? ==>
              steps[i].listener < |worlds[j].listenersUp| && !worlds[j].listenersUp[steps[i].listener]
    ensures steps[i].Finish? ==> steps[i].task in worlds[j].finished
    decreases j
  {
    assert Enabled(worlds[j - 1], steps[j - 1]) && worlds[j] == Next(worlds[j - 1], steps[j - 1]);
    if j > i + 1 { WhatEndsStaysEnded(steps, worlds, i, j - 1); }
  }
}
