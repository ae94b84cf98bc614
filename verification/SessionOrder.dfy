/** What each side of a session does, step by step: every run, cut down to the steps of one
    caller or of one daemon, is a beginning of the order written in the source. */
module SessionOrder {
  import opened Wrappers
  import opened SessionProtocol

  /** The steps of a caller, from taking the mutex to releasing it. */
  const CALLER_ORDER: seq<Action> := [Lock, Open, ClearDirectory, Spawn, SeeStarted, BeginAction, EndAction,
                                      WriteStop, SeeTerminated, Close, Unlock]

  /** The steps of a daemon thread but for those inside its loop. */
  const DAEMON_ORDER: seq<Action> := [Prepare, PublishStarted, ResetFlag, Free, PublishTerminated]

  /** The actions of session `i` in a run that are among `kind`, in order. */
  function Taken(run: seq<Step>, i: nat, kind: seq<Action>): seq<Action> {
    if run == [] then []
    else
      var t := run[|run| - 1];
      Taken(run[..|run| - 1], i, kind) + if t.id == i && t.action in kind then [t.action] else []
  }

  /** How many steps of the daemon's order lie behind it. */
  function DaemonSteps(d: Daemon): nat {
    match d
    case Absent => 0 case Spawned => 0 case Prepared => 1 case Published => 2
    case Testing => 3 case Polling => 3 case Dispatching => 3 case Exited => 3
    case Freed => 4 case Gone => 5
  }

  lemma CallerEffect(x: Session, free: bool, flag: bool, a: Action)
    requires Guard(x, free, flag, a)
    ensures var n, n' := ClientRank(x.client), ClientRank(Effect(x, a).client);
      if a in CALLER_ORDER then n < 11 && CALLER_ORDER[n] == a && n' == n + 1 else n' == n
  {
  }

  lemma DaemonEffect(x: Session, free: bool, flag: bool, a: Action)
    requires Consistent(x, flag) && Guard(x, free, flag, a)
    ensures var n, n' := DaemonSteps(x.daemon), DaemonSteps(Effect(x, a).daemon);
      if a in DAEMON_ORDER then n < 5 && DAEMON_ORDER[n] == a && n' == n + 1 else n' == n
  {
  }

  lemma TakePrefix(order: seq<Action>, n: nat)
    requires n < |order|
    ensures order[..n] + [order[n]] == order[..n + 1]
  {
  }

  /** In every run a caller has taken the first so many of its steps, in their order and
      each of them once. */
  lemma {:induction false} CallerFollowsOrder(n: nat, run: seq<Step>, i: nat)
    requires IsRun(n, run) && i < n
    ensures ClientRank(At(n, run, |run|).sessions[i].client) <= 11
    ensures Taken(run, i, CALLER_ORDER) == CALLER_ORDER[..ClientRank(At(n, run, |run|).sessions[i].client)]
    decreases |run|
  {
    if run != [] {
      var k := |run| - 1;
      var s, t := At(n, run, k), run[k];
      PrefixIsRun(n, run, k);
      CallerFollowsOrder(n, run[..k], i);
      assert run[..k][..k] == run[..k];
      StepOfRun(n, run, k);
      if t.id == i {
        CallerEffect(s.sessions[i], s.mutex.None?, s.shouldExit, t.action);
        if t.action in CALLER_ORDER {
          TakePrefix(CALLER_ORDER, ClientRank(s.sessions[i].client));
        }
      }
    }
  }

  /** So does a daemon thread. */
  lemma {:induction false} DaemonFollowsOrder(n: nat, run: seq<Step>, i: nat)
    requires IsRun(n, run) && i < n
    ensures Taken(run, i, DAEMON_ORDER) == DAEMON_ORDER[..DaemonSteps(At(n, run, |run|).sessions[i].daemon)]
    decreases |run|
  {
    if run != [] {
      var k := |run| - 1;
      var s, t := At(n, run, k), run[k];
      PrefixIsRun(n, run, k);
      DaemonFollowsOrder(n, run[..k], i);
      assert run[..k][..k] == run[..k];
      StepOfRun(n, run, k);
      ReachableInvariant(n, run, k);
      if t.id == i {
        DaemonEffect(s.sessions[i], s.mutex.None?, s.shouldExit, t.action);
        if t.action in DAEMON_ORDER {
          TakePrefix(DAEMON_ORDER, DaemonSteps(s.sessions[i].daemon));
        }
      }
    }
  }

  // ---------- What this says of single steps ----------

  lemma {:induction false} TakenWasDone(run: seq<Step>, i: nat, kind: seq<Action>, a: Action)
    requires a in Taken(run, i, kind)
    ensures Step(i, a) in run
  {
    var k := |run| - 1;
    if a in Taken(run[..k], i, kind) {
      TakenWasDone(run[..k], i, kind, a);
      assert forall t :: t in run[..k] ==> t in run;
    } else {
      assert run[k] == Step(i, a);
    }
  }

  lemma RankAtStep(n: nat, run: seq<Step>, r: nat, m: nat)
    requires IsRun(n, run) && r < |run| && m < 11 && run[r].action == CALLER_ORDER[m]
    ensures run[r].id < n
    ensures ClientRank(At(n, run, r).sessions[run[r].id].client) == m
    ensures ClientRank(At(n, run, r + 1).sessions[run[r].id].client) == m + 1
  {
    var s := At(n, run, r);
    StepOfRun(n, run, r);
    CallerEffect(s.sessions[run[r].id], s.mutex.None?, s.shouldExit, run[r].action);
    OrderHasNoRepeats();
  }

  lemma OrderHasNoRepeats()
    ensures forall j, k :: 0 <= j < k < |CALLER_ORDER| ==> CALLER_ORDER[j] != CALLER_ORDER[k]
  {
  }

  lemma StepBefore(n: nat, run: seq<Step>, r: nat, m: nat) returns (p: nat)
    requires IsRun(n, run) && r < |run| && 0 < m < 11 && run[r].action == CALLER_ORDER[m]
    ensures p < r && run[p] == Step(run[r].id, CALLER_ORDER[m - 1])
  {
    var i := run[r].id;
    RankAtStep(n, run, r, m);
    PrefixIsRun(n, run, r);
    CallerFollowsOrder(n, run[..r], i);
    assert run[..r][..r] == run[..r];
    assert CALLER_ORDER[m - 1] == CALLER_ORDER[..m][m - 1];
    TakenWasDone(run[..r], i, CALLER_ORDER, CALLER_ORDER[m - 1]);
    p :| 0 <= p < r && run[..r][p] == Step(i, CALLER_ORDER[m - 1]);
  }

  lemma StepOnce(n: nat, run: seq<Step>, r: nat, k: nat, m: nat)
    requires IsRun(n, run) && r < k < |run| && m < 11 && run[r].action == CALLER_ORDER[m]
    ensures run[k] != run[r]
  {
    if run[k] == run[r] {
      RankAtStep(n, run, r, m);
      RankAtStep(n, run, k, m);
      ClientMovesForward(n, run, r + 1, k, run[r].id);
    }
  }

  /** A step of a caller is taken once, and the one before it in the source was taken
      before. */
  lemma CallerStepFollows(n: nat, run: seq<Step>, r: nat, m: nat) returns (p: nat)
    requires IsRun(n, run) && r < |run| && m < 11
    requires run[r].action == [Lock, Open, ClearDirectory, Spawn, SeeStarted, BeginAction, EndAction,
                               WriteStop, SeeTerminated, Close, Unlock][m]
    ensures m > 0 ==> p < r && run[p].id == run[r].id
    ensures m > 0 ==> run[p].action == [Lock, Open, ClearDirectory, Spawn, SeeStarted, BeginAction, EndAction,
                                        WriteStop, SeeTerminated, Close, Unlock][m - 1]
    ensures forall k :: 0 <= k < |run| && run[k] == run[r] ==> k == r
  {
    p := 0;
    if m > 0 {
      p := StepBefore(n, run, r, m);
    }
    forall k | 0 <= k < |run| && k != r
      ensures run[k] != run[r]
    {
      if r < k {
        StepOnce(n, run, r, k, m);
      } else if run[k] == run[r] {
        StepOnce(n, run, k, r, m);
      }
    }
  }

  /** A session stops its daemon only after its action has begun and then ended. */
  lemma StopFollowsAction(n: nat, run: seq<Step>, r: nat) returns (p: nat, q: nat)
    requires IsRun(n, run) && r < |run| && run[r].action.WriteStop?
    ensures p < q < r && run[p] == Step(run[r].id, BeginAction) && run[q] == Step(run[r].id, EndAction)
  {
    q := CallerStepFollows(n, run, r, 7);
    p := CallerStepFollows(n, run, q, 6);
  }

  /** A session that releases the mutex has by then taken every step of the source, each
      once and in order. */
  lemma SessionTakesEveryStep(n: nat, run: seq<Step>, r: nat)
    requires IsRun(n, run) && r < |run| && run[r].action.Unlock?
    ensures var order := [Lock, Open, ClearDirectory, Spawn, SeeStarted, BeginAction, EndAction,
                          WriteStop, SeeTerminated, Close, Unlock];
      Taken(run[..r + 1], run[r].id, order) == order
  {
    RankAtStep(n, run, r, 10);
    PrefixIsRun(n, run, r + 1);
    CallerFollowsOrder(n, run[..r + 1], run[r].id);
    assert run[..r + 1][..r + 1] == run[..r + 1];
    assert CALLER_ORDER[..11] == CALLER_ORDER;
  }

  /** A daemon thread that has said Terminated has taken its every step, each once and in
      order. */
  lemma DaemonTakesEveryStep(n: nat, run: seq<Step>, r: nat)
    requires IsRun(n, run) && r < |run| && run[r].action.PublishTerminated?
    ensures var order := [Prepare, PublishStarted, ResetFlag, Free, PublishTerminated];
      Taken(run[..r + 1], run[r].id, order) == order
  {
    StepOfRun(n, run, r);
    PrefixIsRun(n, run, r + 1);
    DaemonFollowsOrder(n, run[..r + 1], run[r].id);
    assert run[..r + 1][..r + 1] == run[..r + 1];
    assert DAEMON_ORDER[..5] == DAEMON_ORDER;
  }

  // ---------- Inside the loop ----------

  /** What a daemon thread did last, from the reset of the flag to the end of its loop. */
  function LastInLoop(run: seq<Step>, i: nat): Option<Action> {
    if run == [] then None
    else
      var t := run[|run| - 1];
      if t.id == i && t.action in [ResetFlag, TestGo, TestExit, PollError, CheckGo, CheckExit, EndPass, FailPass]
      then Some(t.action) else LastInLoop(run[..|run| - 1], i)
  }

  ghost predicate Placed(d: Daemon, last: Option<Action>) {
    && (d.Testing? ==> last.Some? && last.value in {ResetFlag, PollError, EndPass})
    && (d.Polling? ==> last == Some(TestGo))
    && (d.Dispatching? ==> last == Some(CheckGo))
    && (d.Exited? ==> last.Some? && last.value in {TestExit, CheckExit, FailPass})
  }

  lemma EffectPlaces(x: Session, free: bool, flag: bool, a: Action, last: Option<Action>)
    requires Consistent(x, flag) && Guard(x, free, flag, a) && Placed(x.daemon, last)
    ensures Placed(Effect(x, a).daemon,
      if a in [ResetFlag, TestGo, TestExit, PollError, CheckGo, CheckExit, EndPass, FailPass] then Some(a) else last)
  {
  }

  lemma {:induction false} PlaceInLoop(n: nat, run: seq<Step>, i: nat)
    requires IsRun(n, run) && i < n
    ensures Placed(At(n, run, |run|).sessions[i].daemon, LastInLoop(run, i))
    decreases |run|
  {
    if run != [] {
      var k := |run| - 1;
      var s, t := At(n, run, k), run[k];
      PrefixIsRun(n, run, k);
      PlaceInLoop(n, run[..k], i);
      assert run[..k][..k] == run[..k];
      StepOfRun(n, run, k);
      ReachableInvariant(n, run, k);
      if t.id == i {
        EffectPlaces(s.sessions[i], s.mutex.None?, s.shouldExit, t.action, LastInLoop(run[..k], i));
      }
    }
  }

  /** The steps of a loop follow each other as its body does: a test, a wait, a pass; and
      the resources are freed when the loop is over. */
  lemma LoopFollowsSource(n: nat, run: seq<Step>, r: nat)
    requires IsRun(n, run) && r < |run|
    ensures var a, last := run[r].action, LastInLoop(run[..r], run[r].id);
      && (a in {TestGo, TestExit} ==> last.Some? && last.value in {ResetFlag, PollError, EndPass})
      && (a in {PollError, CheckGo, CheckExit} ==> last == Some(TestGo))
      && (a in {EndPass, FailPass} ==> last == Some(CheckGo))
      && (a == Free ==> last.Some? && last.value in {TestExit, CheckExit, FailPass})
  {
    StepOfRun(n, run, r);
    PrefixIsRun(n, run, r);
    PlaceInLoop(n, run[..r], run[r].id);
    assert run[..r][..r] == run[..r];
  }
}
