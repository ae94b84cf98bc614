/** Progress of the sessions: how soon a stop in time releases the mutex, and when a state
    is a dead end. */
module SessionProgress {
  import opened Wrappers
  import opened SessionProtocol

  // ---------- A stop in time is followed by the release ----------

  /** The steps that the caller still takes once it has written the stop. */
  function CallerStepsLeft(c: Client): nat {
    match c
    case Stopping => 3
    case Stopped => 2
    case Closed => 1
    case _ => 0
  }

  /** Stopped in time: the stop is written, and the loop will see it or has ended. */
  predicate Winding(x: Session) {
    StopWritten(x) && !x.lost && DaemonRank(x.daemon) >= 4
  }

  function SessionStepsLeft(x: Session): nat {
    StepsLeft(x.daemon) + CallerStepsLeft(x.client)
  }

  /** Every step the session can still take, whichever side takes it, brings it nearer its
      end; passes that fail only shorten the way. */
  lemma EffectWindsDown(x: Session, flag: bool, a: Action)
    requires Consistent(x, flag) && Winding(x) && Inside(x) && Guard(x, false, flag, a)
    ensures Winding(Effect(x, a)) && SessionStepsLeft(Effect(x, a)) < SessionStepsLeft(x)
  {
  }

  /** As long as the mutex is held, every step of the system uses up one of the steps left. */
  lemma {:induction false} WindsDown(n: nat, run: seq<Step>, p: nat, r: nat, i: nat)
    requires IsRun(n, run) && p <= r <= |run| && i < n
    requires Winding(At(n, run, p).sessions[i])
    requires Inside(At(n, run, r).sessions[i])
    ensures Winding(At(n, run, r).sessions[i])
    ensures SessionStepsLeft(At(n, run, r).sessions[i]) + (r - p) <= SessionStepsLeft(At(n, run, p).sessions[i])
    decreases r - p
  {
    if p < r {
      BeforeTheEnd(n, run, p, r - 1, i);
      WindsDown(n, run, p, r - 1, i);
      StepWindsDown(n, run, r - 1, i);
    }
  }

  lemma BeforeTheEnd(n: nat, run: seq<Step>, p: nat, r: nat, i: nat)
    requires IsRun(n, run) && p <= r < |run| && i < n
    requires Winding(At(n, run, p).sessions[i]) && Inside(At(n, run, r + 1).sessions[i])
    ensures Inside(At(n, run, r).sessions[i])
  {
    ClientMovesForward(n, run, p, r, i);
    ClientMovesForward(n, run, r, r + 1, i);
  }

  lemma StepWindsDown(n: nat, run: seq<Step>, r: nat, i: nat)
    requires IsRun(n, run) && r < |run| && i < n
    requires Winding(At(n, run, r).sessions[i]) && Inside(At(n, run, r).sessions[i])
    ensures run[r].id == i && Winding(At(n, run, r + 1).sessions[i])
    ensures SessionStepsLeft(At(n, run, r + 1).sessions[i]) < SessionStepsLeft(At(n, run, r).sessions[i])
  {
    var s := At(n, run, r);
    ReachableInvariant(n, run, r);
    StepOfRun(n, run, r);
    OnlyHolderMoves(n, run, r);
    EffectWindsDown(s.sessions[i], s.shouldExit, run[r].action);
  }

  /** After a stop written behind the reset, every run releases the mutex within seven
      steps: at most four of the daemon and three of its caller. */
  lemma StopReleasesMutex(n: nat, run: seq<Step>, q: nat, i: nat)
    requires IsRun(n, run) && i < n && q + 8 <= |run|
    requires run[q] == Step(i, WriteStop) && Step(i, ResetFlag) in run[..q]
    ensures Step(i, Unlock) in run[..q + 8]
  {
    ResetLeavesMark(n, run, q, i);
    StoppedInTime(n, run, q, q + 1, i);
    StateRemembers(n, run, q + 8, i);
    ClientMovesForward(n, run, q + 1, q + 8, i);
    if Inside(At(n, run, q + 8).sessions[i]) {
      StoppingAfterWrite(n, run, q, i);
      WindsDown(n, run, q + 1, q + 8, i);
      EndIsNotInside(At(n, run, q + 8).sessions[i]);
    }
  }

  lemma StoppingAfterWrite(n: nat, run: seq<Step>, q: nat, i: nat)
    requires IsRun(n, run) && q < |run| && i < n && run[q] == Step(i, WriteStop)
    ensures SessionStepsLeft(At(n, run, q + 1).sessions[i]) <= 7
  {
    StepOfRun(n, run, q);
  }

  lemma EndIsNotInside(x: Session)
    requires StopWritten(x) && Inside(x)
    ensures SessionStepsLeft(x) > 0
  {
  }

  /** And it is never stuck before that. */
  lemma StoppedCanMove(n: nat, run: seq<Step>, i: nat)
    requires IsRun(n, run) && i < n
    requires Step(i, WriteStop) in run && Step(i, Unlock) !in run
    ensures !Stuck(At(n, run, |run|))
  {
    assert run[..|run|] == run;
    var q :| 0 <= q < |run| && run[q] == Step(i, WriteStop);
    var s := At(n, run, |run|);
    StepOfRun(n, run, q);
    ClientMovesForward(n, run, q + 1, |run|, i);
    StateRemembers(n, run, |run|, i);
    ReachableInvariant(n, run, |run|);
    HolderCanMove(s.sessions[i], s.shouldExit);
    assert Enabled(s, Step(i, Move(s.sessions[i], s.shouldExit)));
  }

  // ---------- Deadlock ----------

  /** The daemon went all the way to Terminated before its caller looked: the state flow
      keeps only the latest value, so Started is never seen. */
  predicate MissedStart(x: Session) {
    x.client.Waiting? && x.daemon.Gone?
  }

  predicate AllDone(s: State) {
    forall i :: 0 <= i < |s.sessions| ==> s.sessions[i].client.Done?
  }

  ghost predicate Stuck(s: State) {
    forall t :: !Enabled(s, t)
  }

  /** What the holder of the mutex, or its daemon, can do next. */
  function Move(x: Session, flag: bool): Action {
    match x.client
    case Idle => Lock
    case Locked => Open
    case Opened => ClearDirectory
    case Cleared => Spawn
    case Ready => BeginAction
    case Acting => EndAction
    case Acted => WriteStop
    case Stopped => Close
    case Closed => Unlock
    case _ =>
      if x.client.Waiting? && x.flow.Started? then SeeStarted
      else match x.daemon
        case Spawned => Prepare
        case Prepared => PublishStarted
        case Published => ResetFlag
        case Testing => if flag then TestExit else TestGo
        case Polling => if flag then CheckExit else CheckGo
        case Dispatching => EndPass
        case Exited => Free
        case Freed => PublishTerminated
        case _ => SeeTerminated
  }

  lemma HolderCanMove(x: Session, flag: bool)
    requires Consistent(x, flag) && Inside(x) && !MissedStart(x)
    ensures Guard(x, false, flag, Move(x, flag))
  {
  }

  lemma MissedStartCannotMove(x: Session, flag: bool, a: Action)
    requires Consistent(x, flag) && MissedStart(x)
    ensures !Guard(x, false, flag, a)
  {
  }

  lemma OutsideOnlyLocks(x: Session, free: bool, flag: bool, a: Action)
    requires Consistent(x, flag) && !Inside(x) && Guard(x, free, flag, a)
    ensures a.Lock? && free && x.client.Idle?
  {
  }

  /** What a missed start is in terms of what happened: the caller waits, its daemon said
      that it has terminated, and the caller never saw Started. */
  lemma MissedStartMeans(n: nat, run: seq<Step>, i: nat)
    requires IsRun(n, run) && i < n
    ensures MissedStart(At(n, run, |run|).sessions[i])
       <==> Step(i, PublishTerminated) in run && Step(i, SeeStarted) !in run
  {
    assert run[..|run|] == run;
    ReachableInvariant(n, run, |run|);
    StateRemembers(n, run, |run|, i);
    if Step(i, PublishTerminated) in run {
      var p :| 0 <= p < |run| && run[p] == Step(i, PublishTerminated);
      TerminatedStays(n, run, p, i);
    }
    if Step(i, SeeStarted) in run {
      var p :| 0 <= p < |run| && run[p] == Step(i, SeeStarted);
      StepOfRun(n, run, p);
      ClientMovesForward(n, run, p + 1, |run|, i);
    }
  }

  lemma TerminatedStays(n: nat, run: seq<Step>, p: nat, i: nat)
    requires IsRun(n, run) && i < n && p < |run| && run[p] == Step(i, PublishTerminated)
    ensures At(n, run, |run|).sessions[i].daemon.Gone?
  {
    StepOfRun(n, run, p);
    GoneStays(n, run, p + 1, |run|, i);
  }

  lemma {:induction false} GoneStays(n: nat, run: seq<Step>, p: nat, r: nat, i: nat)
    requires IsRun(n, run) && i < n && p <= r <= |run| && At(n, run, p).sessions[i].daemon.Gone?
    ensures At(n, run, r).sessions[i].daemon.Gone?
    decreases r - p
  {
    if p < r {
      var s, t := At(n, run, r - 1), run[r - 1];
      GoneStays(n, run, p, r - 1, i);
      StepOfRun(n, run, r - 1);
      ReachableInvariant(n, run, r - 1);
      EffectMovesForward(s.sessions[t.id], s.mutex.None?, s.shouldExit, t.action);
    }
  }

  /** Its cause: only a failing dispatch pass lets a daemon end before it is told to stop,
      and its caller does not tell it before having seen Started. */
  lemma MissedStartNeedsFailure(n: nat, run: seq<Step>, i: nat)
    requires IsRun(n, run) && i < n && MissedStart(At(n, run, |run|).sessions[i])
    ensures Step(i, FailPass) in run
  {
    ReachableInvariant(n, run, |run|);
    StateRemembers(n, run, |run|, i);
    assert run[..|run|] == run;
  }

  /** The steps of a session whose first dispatch pass fails before its caller looks. */
  function FailingScript(k: nat): Action
    requires k < 12
  {
    if k < 4 then [Lock, Open, ClearDirectory, Spawn][k]
    else [Prepare, PublishStarted, ResetFlag, TestGo, CheckGo, FailPass, Free, PublishTerminated][k - 4]
  }

  /** The state before step `k` of that script. */
  function FailingState(k: nat): State
    requires k <= 12
  {
    State(if k == 0 then None else Some(0), false, [Session(
      if k < 4 then [Idle, Locked, Opened, Cleared][k] else Waiting,
      if k < 4 then Absent
      else [Spawned, Prepared, Published, Testing, Polling, Dispatching, Exited, Freed, Gone][k - 4],
      if k < 6 then NotStarted else if k < 12 then Started else Terminated,
      false, k >= 10)])
  }

  lemma FailingStep(k: nat)
    requires k < 12
    ensures Enabled(FailingState(k), Step(0, FailingScript(k)))
    ensures Apply(FailingState(k), Step(0, FailingScript(k))) == FailingState(k + 1)
  {
    if k < 4 {
      FailingStepBegins(k);
    } else {
      FailingStepEnds(k);
    }
  }

  lemma FailingStepBegins(k: nat)
    requires k < 4
    ensures Enabled(FailingState(k), Step(0, FailingScript(k)))
    ensures Apply(FailingState(k), Step(0, FailingScript(k))) == FailingState(k + 1)
  {
  }

  lemma FailingStepEnds(k: nat)
    requires 4 <= k < 12
    ensures Enabled(FailingState(k), Step(0, FailingScript(k)))
    ensures Apply(FailingState(k), Step(0, FailingScript(k))) == FailingState(k + 1)
  {
  }

  /** And it does happen: a run of a single session that ends in a missed start. */
  lemma MissedStartCanHappen() returns (run: seq<Step>)
    ensures IsRun(1, run) && MissedStart(At(1, run, |run|).sessions[0])
    ensures Stuck(At(1, run, |run|)) && !AllDone(At(1, run, |run|))
  {
    run := [];
    assert Initial(1) == FailingState(0);
    for k := 0 to 12
      invariant IsRun(1, run) && |run| == k && At(1, run, k) == FailingState(k)
    {
      FailingStep(k);
      Extend(1, run, Step(0, FailingScript(k)));
      run := run + [Step(0, FailingScript(k))];
    }
    StuckExactlyWhenDoneOrMissed(1, run);
  }

  /** In every reachable state, nothing can move if and only if all sessions are done or
      one has missed its start. */
  lemma StuckExactlyWhenDoneOrMissed(n: nat, run: seq<Step>)
    requires IsRun(n, run)
    ensures var s := At(n, run, |run|);
      Stuck(s) <==> AllDone(s) || exists i :: 0 <= i < n && MissedStart(s.sessions[i])
  {
    var s := At(n, run, |run|);
    ReachableInvariant(n, run, |run|);
    if AllDone(s) || exists i :: 0 <= i < n && MissedStart(s.sessions[i]) {
      forall t | Enabled(s, t)
        ensures false
      {
        if Inside(s.sessions[t.id]) {
          MissedStartCannotMove(s.sessions[t.id], s.shouldExit, t.action);
        } else {
          OutsideOnlyLocks(s.sessions[t.id], s.mutex.None?, s.shouldExit, t.action);
        }
      }
    } else if s.mutex.Some? {
      var i := s.mutex.value;
      HolderCanMove(s.sessions[i], s.shouldExit);
      assert Enabled(s, Step(i, Move(s.sessions[i], s.shouldExit)));
    } else {
      var i :| 0 <= i < n && !s.sessions[i].client.Done?;
      assert Enabled(s, Step(i, Lock));
    }
  }

  /** So a run in which no dispatch pass fails is stuck only when every session is done. */
  lemma StuckOnlyWhenDone(n: nat, run: seq<Step>)
    requires IsRun(n, run)
    requires forall i :: 0 <= i < n ==> Step(i, FailPass) !in run
    ensures Stuck(At(n, run, |run|)) <==> AllDone(At(n, run, |run|))
  {
    StuckExactlyWhenDoneOrMissed(n, run);
    forall i | 0 <= i < n
      ensures !MissedStart(At(n, run, |run|).sessions[i])
    {
      if MissedStart(At(n, run, |run|).sessions[i]) {
        MissedStartNeedsFailure(n, run, i);
      }
    }
  }
}
