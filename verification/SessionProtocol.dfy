/** Sessions with a device, any number of them at once. Each takes a process-wide mutex,
    starts a daemon thread, watches the daemon's published state, runs its action, stops
    the daemon through one shared flag, waits for it to be gone and closes the connection.
    Every step below is one atomic effect; a run is any interleaving of enabled steps. */
module SessionProtocol {
  import opened Wrappers

  /** Where a caller is, from before the mutex to after it. */
  datatype Client = Idle | Locked | Opened | Cleared | Waiting | Ready | Acting | Acted
                  | Stopping | Stopped | Closed | Done

  /** Where a daemon thread is. Testing, Polling and Dispatching are inside loop_main. */
  datatype Daemon = Absent | Spawned | Prepared | Published | Testing | Polling | Dispatching
                  | Exited | Freed | Gone

  datatype DaemonState = NotStarted | Started | Terminated

  /** `lost` and `failed` are history: a stop written before loop_main's reset, and a
      dispatch pass that gave up. Nothing in the protocol reads them. */
  datatype Session = Session(client: Client, daemon: Daemon, flow: DaemonState, lost: bool, failed: bool)

  datatype State = State(mutex: Option<nat>, shouldExit: bool, sessions: seq<Session>)

  datatype Action =
    // the caller: UsbCommandProcessor.execute and runMobileDeviceAction
    | Lock | Open | ClearDirectory | Spawn | SeeStarted | BeginAction | EndAction
    | WriteStop | SeeTerminated | Close | Unlock
    // the daemon thread and loop_main
    | Prepare | PublishStarted | ResetFlag | TestGo | TestExit | PollError | CheckGo | CheckExit
    | EndPass | FailPass | Free | PublishTerminated

  datatype Step = Step(id: nat, action: Action)

  function Initial(n: nat): State {
    State(None, false, seq(n, _ => Session(Idle, Absent, NotStarted, false, false)))
  }

  /** What each step needs of its own session, of the mutex and of the flag. */
  predicate Guard(x: Session, free: bool, flag: bool, a: Action) {
    match a
    case Lock => x.client.Idle? && free
    case Open => x.client.Locked?
    case ClearDirectory => x.client.Opened?
    case Spawn => x.client.Cleared?
    case SeeStarted => x.client.Waiting? && x.flow.Started?
    case BeginAction => x.client.Ready?
    case EndAction => x.client.Acting?
    case WriteStop => x.client.Acted?
    case SeeTerminated => x.client.Stopping? && x.flow.Terminated?
    case Close => x.client.Stopped?
    case Unlock => x.client.Closed?
    case Prepare => x.daemon.Spawned?
    case PublishStarted => x.daemon.Prepared?
    case ResetFlag => x.daemon.Published?
    case TestGo => x.daemon.Testing? && !flag
    case TestExit => x.daemon.Testing? && flag
    case PollError => x.daemon.Polling? && !flag
    case CheckGo => x.daemon.Polling? && !flag
    case CheckExit => x.daemon.Polling? && flag
    case EndPass => x.daemon.Dispatching?
    case FailPass => x.daemon.Dispatching?
    case Free => x.daemon.Exited?
    case PublishTerminated => x.daemon.Freed?
  }

  function Effect(x: Session, a: Action): Session {
    match a
    case Lock => x.(client := Locked)
    case Open => x.(client := Opened)
    case ClearDirectory => x.(client := Cleared)
    case Spawn => x.(client := Waiting, daemon := Spawned)
    case SeeStarted => x.(client := Ready)
    case BeginAction => x.(client := Acting)
    case EndAction => x.(client := Acted)
    case WriteStop => x.(client := Stopping)
    case SeeTerminated => x.(client := Stopped)
    case Close => x.(client := Closed)
    case Unlock => x.(client := Done)
    case Prepare => x.(daemon := Prepared)
    case PublishStarted => x.(daemon := Published, flow := Started)
    case ResetFlag => x.(daemon := Testing, lost := x.client.Stopping?)
    case TestGo => x.(daemon := Polling)
    case TestExit => x.(daemon := Exited)
    case PollError => x.(daemon := Testing)
    case CheckGo => x.(daemon := Dispatching)
    case CheckExit => x.(daemon := Exited)
    case EndPass => x.(daemon := Testing)
    case FailPass => x.(daemon := Exited, failed := true)
    case Free => x.(daemon := Freed)
    case PublishTerminated => x.(daemon := Gone, flow := Terminated)
  }

  predicate Enabled(s: State, t: Step) {
    t.id < |s.sessions| && Guard(s.sessions[t.id], s.mutex.None?, s.shouldExit, t.action)
  }

  function Apply(s: State, t: Step): State
    requires Enabled(s, t)
  {
    State(
      if t.action.Lock? then Some(t.id) else if t.action.Unlock? then None else s.mutex,
      if t.action.WriteStop? then true else if t.action.ResetFlag? then false else s.shouldExit,
      s.sessions[t.id := Effect(s.sessions[t.id], t.action)])
  }

  // ---------- Runs ----------

  /** The state after a sequence of steps; None if one of them was not enabled. */
  function Execute(n: nat, run: seq<Step>): (r: Option<State>)
    ensures r.Some? ==> |r.value.sessions| == n
    decreases |run|
  {
    if run == [] then Some(Initial(n))
    else
      var before := Execute(n, run[..|run| - 1]);
      if before.Some? && Enabled(before.value, run[|run| - 1])
      then Some(Apply(before.value, run[|run| - 1])) else None
  }

  predicate IsRun(n: nat, run: seq<Step>) {
    Execute(n, run).Some?
  }

  /** The state in which step `k` of a run finds the system. */
  function At(n: nat, run: seq<Step>, k: nat): (s: State)
    requires IsRun(n, run) && k <= |run|
    ensures |s.sessions| == n
  {
    PrefixIsRun(n, run, k);
    Execute(n, run[..k]).value
  }

  lemma {:induction false} PrefixIsRun(n: nat, run: seq<Step>, k: nat)
    requires IsRun(n, run) && k <= |run|
    ensures IsRun(n, run[..k])
    decreases |run|
  {
    if k == |run| {
      assert run[..k] == run;
    } else {
      PrefixIsRun(n, run[..|run| - 1], k);
      assert run[..|run| - 1][..k] == run[..k];
    }
  }

  lemma StepOfRun(n: nat, run: seq<Step>, k: nat)
    requires IsRun(n, run) && k < |run|
    ensures Enabled(At(n, run, k), run[k])
    ensures At(n, run, k + 1) == Apply(At(n, run, k), run[k])
  {
    PrefixIsRun(n, run, k);
    PrefixIsRun(n, run, k + 1);
    assert run[..k + 1][..k] == run[..k];
  }

  // ---------- The invariant ----------

  function ClientRank(c: Client): nat {
    match c
    case Idle => 0 case Locked => 1 case Opened => 2 case Cleared => 3 case Waiting => 4
    case Ready => 5 case Acting => 6 case Acted => 7 case Stopping => 8 case Stopped => 9
    case Closed => 10 case Done => 11
  }

  function DaemonRank(d: Daemon): nat {
    match d
    case Absent => 0 case Spawned => 1 case Prepared => 2 case Published => 3
    case Testing => 4 case Polling => 4 case Dispatching => 4
    case Exited => 5 case Freed => 6 case Gone => 7
  }

  predicate Inside(x: Session) {
    !x.client.Idle? && !x.client.Done?
  }

  predicate Looping(x: Session) {
    x.daemon.Testing? || x.daemon.Polling? || x.daemon.Dispatching?
  }

  predicate StopWritten(x: Session) {
    ClientRank(x.client) >= 8
  }

  predicate Consistent(x: Session, flag: bool) {
    && (ClientRank(x.client) < 4 <==> x.daemon.Absent?)
    && (ClientRank(x.client) >= 5 ==> DaemonRank(x.daemon) >= 3)
    && (ClientRank(x.client) >= 9 ==> x.daemon.Gone?)
    && x.flow == (if DaemonRank(x.daemon) < 3 then NotStarted else if x.daemon.Gone? then Terminated else Started)
    && (x.lost ==> StopWritten(x) && DaemonRank(x.daemon) >= 4)
    && (Looping(x) ==> flag == (StopWritten(x) && !x.lost))
    && (DaemonRank(x.daemon) >= 5 && !x.failed ==> StopWritten(x) && !x.lost)
  }

  predicate Invariant(s: State) {
    && (s.mutex.Some? ==> s.mutex.value < |s.sessions|)
    && forall i :: 0 <= i < |s.sessions| ==>
      && (Inside(s.sessions[i]) <==> s.mutex == Some(i))
      && Consistent(s.sessions[i], s.shouldExit)
  }

  /** A session that holds no mutex is untouched by the flag, whatever it becomes. */
  lemma OutsideIgnoresFlag(x: Session, flag: bool, flag': bool)
    requires Consistent(x, flag) && !Inside(x)
    ensures Consistent(x, flag')
  {
  }

  lemma StepKeepsOwn(x: Session, free: bool, flag: bool, a: Action)
    requires Consistent(x, flag) && Guard(x, free, flag, a)
    ensures Consistent(Effect(x, a), if a.WriteStop? then true else if a.ResetFlag? then false else flag)
    ensures Inside(Effect(x, a)) <==> !a.Unlock?
    ensures a.Lock? || Inside(x)
  {
  }

  lemma StepKeepsInvariant(s: State, t: Step)
    requires Invariant(s) && Enabled(s, t)
    ensures Invariant(Apply(s, t))
  {
    var s' := Apply(s, t);
    StepKeepsOwn(s.sessions[t.id], s.mutex.None?, s.shouldExit, t.action);
    forall i | 0 <= i < |s'.sessions|
      ensures (Inside(s'.sessions[i]) <==> s'.mutex == Some(i)) && Consistent(s'.sessions[i], s'.shouldExit)
    {
      if i != t.id {
        OutsideIgnoresFlag(s.sessions[i], s.shouldExit, s'.shouldExit);
      }
    }
  }

  /** Every reachable state, over any number of sessions and every interleaving. */
  lemma {:induction false} ReachableInvariant(n: nat, run: seq<Step>, k: nat)
    requires IsRun(n, run) && k <= |run|
    ensures Invariant(At(n, run, k))
  {
    if k > 0 {
      ReachableInvariant(n, run, k - 1);
      StepOfRun(n, run, k - 1);
      StepKeepsInvariant(At(n, run, k - 1), run[k - 1]);
    }
  }

  // ---------- Mutual exclusion ----------

  /** The daemon is between preparing its resources and publishing Terminated. */
  predicate Live(x: Session) {
    2 <= DaemonRank(x.daemon) <= 6
  }

  lemma AtMostOneDaemonLives(n: nat, run: seq<Step>, k: nat, i: nat, j: nat)
    requires IsRun(n, run) && k <= |run| && i < j < n
    ensures !(Live(At(n, run, k).sessions[i]) && Live(At(n, run, k).sessions[j]))
  {
    ReachableInvariant(n, run, k);
  }

  /** Only the holder of the mutex moves, on either side of the thread boundary. */
  lemma OnlyHolderMoves(n: nat, run: seq<Step>, k: nat)
    requires IsRun(n, run) && k < |run|
    ensures run[k].id < n
    ensures var s := At(n, run, k);
      if run[k].action.Lock? then s.mutex == None && s.sessions[run[k].id].client.Idle?
      else s.mutex == Some(run[k].id) && Inside(s.sessions[run[k].id])
  {
    ReachableInvariant(n, run, k);
    StepOfRun(n, run, k);
  }

  lemma EffectMovesForward(x: Session, free: bool, flag: bool, a: Action)
    requires Guard(x, free, flag, a)
    ensures ClientRank(Effect(x, a).client) >= ClientRank(x.client)
    ensures DaemonRank(Effect(x, a).daemon) >= DaemonRank(x.daemon) || a.Spawn?
  {
  }

  lemma StepMovesForward(s: State, t: Step, i: nat)
    requires Enabled(s, t) && i < |s.sessions|
    ensures ClientRank(Apply(s, t).sessions[i].client) >= ClientRank(s.sessions[i].client)
  {
    EffectMovesForward(s.sessions[t.id], s.mutex.None?, s.shouldExit, t.action);
  }

  lemma {:induction false} ClientMovesForward(n: nat, run: seq<Step>, p: nat, q: nat, i: nat)
    requires IsRun(n, run) && p <= q <= |run| && i < n
    ensures ClientRank(At(n, run, p).sessions[i].client) <= ClientRank(At(n, run, q).sessions[i].client)
    decreases q - p
  {
    if p < q {
      StepOfRun(n, run, q - 1);
      StepMovesForward(At(n, run, q - 1), run[q - 1], i);
      ClientMovesForward(n, run, p, q - 1, i);
    }
  }

  lemma StillInside(n: nat, run: seq<Step>, p: nat, q: nat, r: nat, i: nat)
    requires IsRun(n, run) && p <= q <= r <= |run| && i < n
    requires ClientRank(At(n, run, p).sessions[i].client) >= 1
    requires ClientRank(At(n, run, r).sessions[i].client) <= 10
    ensures At(n, run, q).mutex == Some(i)
  {
    ClientMovesForward(n, run, p, q, i);
    ClientMovesForward(n, run, q, r, i);
    ReachableInvariant(n, run, q);
  }

  lemma EntersAndStays(n: nat, run: seq<Step>, p: nat)
    requires IsRun(n, run) && p < |run| && run[p].id < n
    ensures ClientRank(At(n, run, p).sessions[run[p].id].client) <= 10
    ensures ClientRank(At(n, run, p + 1).sessions[run[p].id].client) >= 1
  {
    OnlyHolderMoves(n, run, p);
    StepOfRun(n, run, p);
    StepMovesForward(At(n, run, p), run[p], run[p].id);
  }

  /** Sessions do not interleave: all steps of a session, its daemon's included, are
      consecutive in every run. */
  lemma SessionsAreConsecutive(n: nat, run: seq<Step>, p: nat, q: nat, r: nat)
    requires IsRun(n, run) && p < q < r < |run|
    requires run[p].id == run[r].id
    ensures run[q].id == run[p].id
  {
    OnlyHolderMoves(n, run, p);
    EntersAndStays(n, run, p);
    EntersAndStays(n, run, r);
    StillInside(n, run, p + 1, q, r, run[p].id);
    OnlyHolderMoves(n, run, q);
  }

  // ---------- Prepare and free alternate ----------

  /** Which daemon a run leaves holding the native resources, if every Prepare finds them
      unheld and every Free finds them held by the same session; None otherwise. */
  function Holder(run: seq<Step>): Option<Option<nat>>
    decreases |run|
  {
    if run == [] then Some(None)
    else
      var before, t := Holder(run[..|run| - 1]), run[|run| - 1];
      if before.None? then None
      else if t.action.Prepare? then (if before.value.None? then Some(Some(t.id)) else None)
      else if t.action.Free? then (if before.value == Some(t.id) then Some(None) else None)
      else before
  }

  predicate Holds(x: Session) {
    2 <= DaemonRank(x.daemon) <= 5
  }

  ghost predicate HolderOf(s: State, h: Option<nat>) {
    && (h.Some? ==> h.value < |s.sessions|)
    && forall i :: 0 <= i < |s.sessions| ==> (Holds(s.sessions[i]) <==> h == Some(i))
  }

  lemma EffectOnHolding(x: Session, free: bool, flag: bool, a: Action)
    requires Guard(x, free, flag, a) && Consistent(x, flag)
    ensures a.Prepare? ==> !Holds(x) && Holds(Effect(x, a))
    ensures a.Free? ==> Holds(x) && !Holds(Effect(x, a))
    ensures !a.Prepare? && !a.Free? ==> Holds(Effect(x, a)) == Holds(x)
  {
  }

  lemma OthersHoldNothing(s: State, t: Step, j: nat)
    requires Invariant(s) && Enabled(s, t) && j < |s.sessions| && j != t.id
    ensures !Holds(s.sessions[j])
  {
    StepKeepsOwn(s.sessions[t.id], s.mutex.None?, s.shouldExit, t.action);
  }

  /** Prepare and free strictly alternate, each free by the session that prepared. */
  lemma {:induction false} PrepareAndFreeAlternate(n: nat, run: seq<Step>)
    requires IsRun(n, run)
    ensures Holder(run).Some? && HolderOf(At(n, run, |run|), Holder(run).value)
    decreases |run|
  {
    if run != [] {
      var k := |run| - 1;
      var s, t := At(n, run, k), run[k];
      PrefixIsRun(n, run, k);
      PrepareAndFreeAlternate(n, run[..k]);
      assert run[..k][..k] == run[..k];
      StepOfRun(n, run, k);
      ReachableInvariant(n, run, k);
      EffectOnHolding(s.sessions[t.id], s.mutex.None?, s.shouldExit, t.action);
      forall j | 0 <= j < n && j != t.id
        ensures !Holds(s.sessions[j])
      {
        OthersHoldNothing(s, t, j);
      }
    }
  }

  // ---------- What must have happened before ----------

  /** The state of session `i` is explained by steps in its past. */
  ghost predicate Remembers(x: Session, i: nat, past: seq<Step>) {
    && (DaemonRank(x.daemon) >= 3 ==> Step(i, PublishStarted) in past)
    && (DaemonRank(x.daemon) >= 4 ==> Step(i, ResetFlag) in past)
    && (DaemonRank(x.daemon) >= 6 ==> Step(i, Free) in past)
    && (DaemonRank(x.daemon) >= 7 ==> Step(i, PublishTerminated) in past)
    && (x.failed ==> Step(i, FailPass) in past)
    && (ClientRank(x.client) >= 5 ==> Step(i, SeeStarted) in past)
    && (ClientRank(x.client) >= 11 ==> Step(i, Unlock) in past)
  }

  lemma EffectRemembers(x: Session, i: nat, past: seq<Step>, free: bool, flag: bool, a: Action)
    requires Remembers(x, i, past) && Guard(x, free, flag, a)
    ensures Remembers(Effect(x, a), i, past + [Step(i, a)])
  {
  }

  lemma {:induction false} StateRemembers(n: nat, run: seq<Step>, k: nat, i: nat)
    requires IsRun(n, run) && k <= |run| && i < n
    ensures Remembers(At(n, run, k).sessions[i], i, run[..k])
  {
    if k > 0 {
      var s, t := At(n, run, k - 1), run[k - 1];
      StateRemembers(n, run, k - 1, i);
      StepOfRun(n, run, k - 1);
      assert run[..k] == run[..k - 1] + [t];
      if t.id == i {
        EffectRemembers(s.sessions[i], i, run[..k - 1], s.mutex.None?, s.shouldExit, t.action);
      }
    }
  }

  /** An action starts only after its own daemon published Started. */
  lemma ActionAfterStarted(n: nat, run: seq<Step>, r: nat)
    requires IsRun(n, run) && r < |run| && run[r].action.BeginAction?
    ensures Step(run[r].id, PublishStarted) in run[..r]
  {
    OnlyHolderMoves(n, run, r);
    StepOfRun(n, run, r);
    ReachableInvariant(n, run, r);
    StateRemembers(n, run, r, run[r].id);
  }

  /** The connection closes only after its own daemon freed its resources and said so. */
  lemma CloseAfterFree(n: nat, run: seq<Step>, r: nat)
    requires IsRun(n, run) && r < |run| && run[r].action.Close?
    ensures Step(run[r].id, Free) in run[..r]
    ensures Step(run[r].id, PublishTerminated) in run[..r]
  {
    OnlyHolderMoves(n, run, r);
    StepOfRun(n, run, r);
    ReachableInvariant(n, run, r);
    StateRemembers(n, run, r, run[r].id);
  }

  /** Until the stop is written a daemon leaves its loop only by a failing pass: a stop
      meant for an earlier session never ends a later one. */
  lemma NoStaleStop(n: nat, run: seq<Step>, k: nat, i: nat)
    requires IsRun(n, run) && k <= |run| && i < n
    requires Step(i, FailPass) !in run[..k]
    requires !StopWritten(At(n, run, k).sessions[i])
    ensures DaemonRank(At(n, run, k).sessions[i].daemon) <= 4
  {
    ReachableInvariant(n, run, k);
    StateRemembers(n, run, k, i);
  }

  // ---------- The stop flag ----------

  /** Once past the reset, a daemon stays past it and `lost` is settled. */
  lemma {:induction false} PastReset(n: nat, run: seq<Step>, p: nat, q: nat, i: nat)
    requires IsRun(n, run) && p <= q <= |run| && i < n
    requires DaemonRank(At(n, run, p).sessions[i].daemon) >= 4
    ensures DaemonRank(At(n, run, q).sessions[i].daemon) >= 4
    ensures At(n, run, q).sessions[i].lost == At(n, run, p).sessions[i].lost
    decreases q - p
  {
    if p < q {
      var s, t := At(n, run, q - 1), run[q - 1];
      PastReset(n, run, p, q - 1, i);
      StepOfRun(n, run, q - 1);
      ReachableInvariant(n, run, q - 1);
      EffectMovesForward(s.sessions[t.id], s.mutex.None?, s.shouldExit, t.action);
    }
  }

  /** The state a stop leaves behind when the loop had already reset the flag. */
  lemma StoppedInTime(n: nat, run: seq<Step>, q: nat, r: nat, i: nat)
    requires IsRun(n, run) && q < r <= |run| && i < n
    requires run[q] == Step(i, WriteStop) && DaemonRank(At(n, run, q).sessions[i].daemon) >= 4
    ensures var x := At(n, run, r).sessions[i];
      StopWritten(x) && !x.lost && DaemonRank(x.daemon) >= 4 && (Looping(x) ==> At(n, run, r).shouldExit)
  {
    StepOfRun(n, run, q);
    ReachableInvariant(n, run, q);
    ClientMovesForward(n, run, q + 1, r, i);
    PastReset(n, run, q, r, i);
    ReachableInvariant(n, run, r);
  }

  lemma {:induction false} ResetLeavesMark(n: nat, run: seq<Step>, q: nat, i: nat)
    requires IsRun(n, run) && q <= |run| && i < n
    requires Step(i, ResetFlag) in run[..q]
    ensures DaemonRank(At(n, run, q).sessions[i].daemon) >= 4
  {
    var p :| 0 <= p < q && run[p] == Step(i, ResetFlag);
    StepOfRun(n, run, p);
    PastReset(n, run, p + 1, q, i);
  }

  /** After a stop that follows the reset no dispatch pass starts, and the loop takes none
      of the turns that keep it going. */
  lemma NoPassStartsAfterStop(n: nat, run: seq<Step>, q: nat, r: nat, i: nat)
    requires IsRun(n, run) && q < r < |run|
    requires run[q] == Step(i, WriteStop) && Step(i, ResetFlag) in run[..q]
    requires run[r].id == i
    ensures run[r].action !in {TestGo, PollError, CheckGo}
  {
    StepOfRun(n, run, q);
    StepOfRun(n, run, r);
    ResetLeavesMark(n, run, q, i);
    StoppedInTime(n, run, q, r, i);
  }

  predicate EndsPass(t: Step, i: nat) {
    t == Step(i, EndPass) || t == Step(i, FailPass)
  }

  lemma {:induction false} NotDispatching(n: nat, run: seq<Step>, q: nat, p: nat, r: nat, i: nat)
    requires IsRun(n, run) && q < p <= r <= |run| && i < n
    requires run[q] == Step(i, WriteStop) && Step(i, ResetFlag) in run[..q]
    requires !At(n, run, p).sessions[i].daemon.Dispatching?
    ensures !At(n, run, r).sessions[i].daemon.Dispatching?
    decreases r - p
  {
    if p < r {
      NotDispatching(n, run, q, p, r - 1, i);
      StepOfRun(n, run, r - 1);
      if run[r - 1].id == i {
        NoPassStartsAfterStop(n, run, q, r - 1, i);
      }
    }
  }

  lemma PassEnds(n: nat, run: seq<Step>, p: nat, i: nat)
    requires IsRun(n, run) && p < |run| && EndsPass(run[p], i)
    ensures i < n && At(n, run, p).sessions[i].daemon.Dispatching?
    ensures !At(n, run, p + 1).sessions[i].daemon.Dispatching?
  {
    StepOfRun(n, run, p);
  }

  /** At most one dispatch pass, the one under way, ends after such a stop. */
  lemma AtMostOnePassEndsAfterStop(n: nat, run: seq<Step>, q: nat, p: nat, r: nat, i: nat)
    requires IsRun(n, run) && q < p < r < |run|
    requires run[q] == Step(i, WriteStop) && Step(i, ResetFlag) in run[..q]
    ensures !(EndsPass(run[p], i) && EndsPass(run[r], i))
  {
    if EndsPass(run[p], i) {
      PassEnds(n, run, p, i);
      NotDispatching(n, run, q, p + 1, r, i);
      if EndsPass(run[r], i) {
        PassEnds(n, run, r, i);
      }
    }
  }

  // ---------- A stop before the reset ----------

  /** The daemon has yet to reset the flag that was written, or has reset it. */
  predicate StopIsLost(x: Session) {
    StopWritten(x) && (x.daemon.Published? || x.lost)
  }

  lemma EffectKeepsLost(x: Session, free: bool, flag: bool, a: Action)
    requires Guard(x, free, flag, a) && Consistent(x, flag) && StopIsLost(x)
    ensures StopIsLost(Effect(x, a))
  {
  }

  lemma {:induction false} LostStaysLost(n: nat, run: seq<Step>, q: nat, r: nat, i: nat)
    requires IsRun(n, run) && q < r <= |run| && i < n
    requires run[q] == Step(i, WriteStop) && Step(i, ResetFlag) !in run[..q]
    ensures StopIsLost(At(n, run, r).sessions[i])
    decreases r - q
  {
    var s, t := At(n, run, r - 1), run[r - 1];
    StepOfRun(n, run, r - 1);
    ReachableInvariant(n, run, r - 1);
    if q + 1 < r {
      LostStaysLost(n, run, q, r - 1, i);
      if t.id == i {
        EffectKeepsLost(s.sessions[i], s.mutex.None?, s.shouldExit, t.action);
      }
    } else {
      FirstResetAhead(n, run, q, i);
    }
  }

  /** A caller that writes the stop has seen Started, so its daemon is at the reset if it
      has not passed it. */
  lemma FirstResetAhead(n: nat, run: seq<Step>, q: nat, i: nat)
    requires IsRun(n, run) && q < |run| && i < n
    requires run[q] == Step(i, WriteStop) && Step(i, ResetFlag) !in run[..q]
    ensures At(n, run, q).sessions[i].daemon.Published?
  {
    StepOfRun(n, run, q);
    ReachableInvariant(n, run, q);
    NotYetReset(n, run, q, i);
  }

  lemma {:induction false} NotYetReset(n: nat, run: seq<Step>, q: nat, i: nat)
    requires IsRun(n, run) && q <= |run| && i < n
    requires Step(i, ResetFlag) !in run[..q]
    ensures DaemonRank(At(n, run, q).sessions[i].daemon) < 4
  {
    StateRemembers(n, run, q, i);
  }

  /** A stop written before the reset is lost for good: unless a dispatch pass fails, the
      daemon is never freed, the mutex never released, and no other session ever moves. */
  lemma LostStopIsForever(n: nat, run: seq<Step>, q: nat, r: nat, i: nat)
    requires IsRun(n, run) && q < r < |run| && i < n
    requires run[q] == Step(i, WriteStop) && Step(i, ResetFlag) !in run[..q]
    requires Step(i, FailPass) !in run[..r]
    ensures run[r].id == i && run[r].action !in {Free, SeeTerminated, Unlock}
  {
    LostStaysLost(n, run, q, r, i);
    ReachableInvariant(n, run, r);
    StateRemembers(n, run, r, i);
    OnlyHolderMoves(n, run, r);
    StepOfRun(n, run, r);
  }

  // ---------- Exactly when a stop works ----------

  lemma Extend(n: nat, run: seq<Step>, t: Step)
    requires IsRun(n, run) && Enabled(At(n, run, |run|), t)
    ensures IsRun(n, run + [t])
    ensures At(n, run + [t], |run| + 1) == Apply(At(n, run, |run|), t)
  {
    var next := run + [t];
    assert next[..|next| - 1] == run && run[..|run|] == run && next[..|next|] == next;
  }

  /** The step that takes a stopped daemon nearer its end. */
  function NextToFinish(d: Daemon): Action {
    match d
    case Dispatching => EndPass
    case Testing => TestExit
    case Polling => CheckExit
    case Exited => Free
    case _ => PublishTerminated
  }

  function StepsLeft(d: Daemon): nat {
    match d
    case Dispatching => 4
    case Testing => 3
    case Polling => 3
    case Exited => 2
    case Freed => 1
    case _ => 0
  }

  /** A stopped daemon past its reset can run to its end without any failure, and without
      help from any other session. */
  lemma {:induction false} CanFinish(n: nat, run: seq<Step>, i: nat) returns (ext: seq<Step>)
    requires IsRun(n, run) && i < n
    requires var x := At(n, run, |run|).sessions[i];
      x.client.Stopping? && !x.lost && DaemonRank(x.daemon) >= 4
    ensures IsRun(n, run + ext) && At(n, run + ext, |run + ext|).sessions[i].daemon.Gone?
    ensures Step(i, FailPass) !in ext
    decreases StepsLeft(At(n, run, |run|).sessions[i].daemon)
  {
    var x := At(n, run, |run|).sessions[i];
    ReachableInvariant(n, run, |run|);
    if x.daemon.Gone? {
      assert run + [] == run;
      return [];
    }
    var t := Step(i, NextToFinish(x.daemon));
    Extend(n, run, t);
    var rest := CanFinish(n, run + [t], i);
    ext := [t] + rest;
    assert run + ext == (run + [t]) + rest;
  }

  /** Some continuation without a failing pass gets the daemon freed. */
  ghost predicate CanStillFree(n: nat, run: seq<Step>, i: nat) {
    exists ext :: IsRun(n, run + ext) && Step(i, FailPass) !in run + ext && Step(i, Free) in run + ext
  }

  /** Right after the stop is written, and short of a failing pass, the daemon can end if
      and only if loop_main had already reset the flag. */
  lemma StopWorksExactlyAfterReset(n: nat, run: seq<Step>, i: nat)
    requires IsRun(n, run) && i < n && Step(i, FailPass) !in run
    requires run != [] && run[|run| - 1] == Step(i, WriteStop)
    ensures CanStillFree(n, run, i) <==> Step(i, ResetFlag) in run
  {
    var q := |run| - 1;
    assert run == run[..q] + [run[q]] && run[..|run|] == run;
    if Step(i, ResetFlag) in run {
      StoppedAt(n, run, i);
      var ext := CanFinish(n, run, i);
      StateRemembers(n, run + ext, |run + ext|, i);
      assert (run + ext)[..|run + ext|] == run + ext;
      assert CanStillFree(n, run, i);
    } else {
      forall ext | IsRun(n, run + ext) && Step(i, FailPass) !in run + ext
        ensures Step(i, Free) !in run + ext
      {
        NeverFreed(n, run, ext, i);
      }
    }
  }

  lemma StoppedAt(n: nat, run: seq<Step>, i: nat)
    requires IsRun(n, run) && i < n && Step(i, ResetFlag) in run
    requires run != [] && run[|run| - 1] == Step(i, WriteStop)
    ensures var x := At(n, run, |run|).sessions[i];
      x.client.Stopping? && !x.lost && DaemonRank(x.daemon) >= 4
  {
    var q := |run| - 1;
    assert run == run[..q] + [run[q]];
    ResetLeavesMark(n, run, q, i);
    StoppedInTime(n, run, q, |run|, i);
    StepOfRun(n, run, q);
  }

  lemma NeverFreed(n: nat, run: seq<Step>, ext: seq<Step>, i: nat)
    requires IsRun(n, run + ext) && i < n && Step(i, FailPass) !in run + ext
    requires run != [] && run[|run| - 1] == Step(i, WriteStop) && Step(i, ResetFlag) !in run
    ensures Step(i, Free) !in run + ext
  {
    var all, q := run + ext, |run| - 1;
    assert all[..q] == run[..q];
    forall r | 0 <= r < |all|
      ensures all[r] != Step(i, Free)
    {
      if r > q {
        LostStopIsForever(n, all, q, r, i);
      } else if all[r] == Step(i, Free) {
        StepOfRun(n, all, r);
        StateRemembers(n, all, r, i);
      }
    }
  }

  /** Nothing in the protocol itself rules the bad order out: here is a run, of a single
      session, in which the stop comes first. The code relies on a delay instead. */
  lemma LostStopCanHappen() returns (run: seq<Step>)
    ensures IsRun(1, run) && run != [] && run[|run| - 1] == Step(0, WriteStop)
    ensures Step(0, ResetFlag) !in run && Step(0, FailPass) !in run
    ensures !CanStillFree(1, run, 0)
  {
    run := [];
    var script := [Lock, Open, ClearDirectory, Spawn, Prepare, PublishStarted, SeeStarted,
                   BeginAction, EndAction, WriteStop];
    for k := 0 to |script|
      invariant IsRun(1, run) && |run| == k
      invariant forall j :: 0 <= j < k ==> run[j] == Step(0, script[j])
      invariant At(1, run, k).mutex == (if k == 0 then None else Some(0))
      invariant At(1, run, k).sessions[0] == ScriptState(k)
    {
      Extend(1, run, Step(0, script[k]));
      run := run + [Step(0, script[k])];
    }
    StopWorksExactlyAfterReset(1, run, 0);
  }

  function ScriptState(k: nat): Session {
    Session(
      [Idle, Locked, Opened, Cleared, Waiting, Waiting, Waiting, Ready, Acting, Acted, Stopping]
        [if k <= 10 then k else 10],
      if k < 4 then Absent else if k == 4 then Spawned else if k == 5 then Prepared else Published,
      if k < 6 then NotStarted else Started,
      false, false)
  }
}
