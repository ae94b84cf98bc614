/** loop_main: the poll timeout, the dispatch pass over the descriptors that poll reported,
    and the loop around them that ends when it finds the stop flag set. How the flag races
    with the sessions that write it is in SessionProtocol.dfy. */
module DaemonLoop {
  import opened Sequences
  import opened Timespecs
  import opened Wrappers

  // ---------- The poll timeout ----------

  /** C division and remainder, which truncate toward zero. */
  function TruncDiv(a: int, b: nat): int
    requires b > 0
  {
    if a >= 0 then a / b else -(-a / b)
  }

  function TruncMod(a: int, b: nat): int
    requires b > 0
  {
    a - TruncDiv(a, b) * b
  }

  /** The earlier of the two timeouts, in milliseconds, as ppoll wants it. */
  function PollTimeout(usb: int, device: int): Timespec {
    var to := if device < usb then device else usb;
    Timespec(TruncDiv(to, 1000), TruncMod(to, 1000) * 1_000_000)
  }

  /** The conversion is exact for every timeout, and a timespec that ppoll accepts exactly
      when neither timeout is negative. */
  lemma PollTimeoutExact(usb: int, device: int)
    ensures var t := PollTimeout(usb, device);
      && t.Nanoseconds() == (if device < usb then device else usb) * 1_000_000
      && (t.sec >= 0 && t.Normal() <==> usb >= 0 && device >= 0)
      && -1_000_000_000 < t.nsec < 1_000_000_000
      && (usb < 0 || device < 0 ==> t.sec <= 0 && t.nsec <= 0)
  {
    var to := if device < usb then device else usb;
    if to < 0 {
      var q, r := -to / 1000, -to % 1000;
      assert TruncDiv(to, 1000) == -q && TruncMod(to, 1000) == -r;
    }
  }

  // ---------- The dispatch pass ----------

  datatype Owner = FdListen | FdUsb | FdClient

  datatype PollFd = PollFd(fd: int, owner: Owner, revents: int) {
    predicate Ready() {
      revents != 0
    }
  }

  /** What the loop does that others can see, readings of the stop flag included. */
  datatype Call = UsbProcess | ClientAccept(listenfd: int) | ClientProcess(fd: int, revents: int)
                | CheckTimeouts | AwaitEvents(timeout: Timespec) | ReadFlag(seen: bool)

  /** Some ready descriptor belongs to USB. */
  predicate ReadyUsb(fds: seq<PollFd>) {
    exists i :: 0 <= i < |fds| && fds[i].Ready() && fds[i].owner.FdUsb?
  }

  /** What serving one ready descriptor calls, given whether USB was served before. */
  function ServedBy(f: PollFd, listenfd: int, doneUsb: bool): seq<Call> {
    if !f.Ready() then []
    else match f.owner
      case FdUsb => if doneUsb then [] else [UsbProcess]
      case FdListen => [ClientAccept(listenfd)]
      case FdClient => [ClientProcess(f.fd, f.revents)]
  }

  /** The calls of a whole pass, in index order. */
  function PassCalls(fds: seq<PollFd>, listenfd: int): seq<Call> {
    if fds == [] then []
    else
      var before := fds[..|fds| - 1];
      PassCalls(before, listenfd) + ServedBy(fds[|fds| - 1], listenfd, ReadyUsb(before))
  }

  /** The ready listen and client descriptors, each by the one call that serves it, in index
      order: a listen descriptor by accepting, a client's by processing what it reports. */
  function Attended(fds: seq<PollFd>, listenfd: int): seq<Call> {
    if fds == [] then []
    else
      var f := fds[|fds| - 1];
      Attended(fds[..|fds| - 1], listenfd) +
        if f.revents == 0 || f.owner == FdUsb then []
        else if f.owner == FdListen then [ClientAccept(listenfd)]
        else [ClientProcess(f.fd, f.revents)]
  }

  lemma ReadyUsbSnoc(fds: seq<PollFd>)
    requires fds != []
    ensures var f := fds[|fds| - 1];
      ReadyUsb(fds) <==> ReadyUsb(fds[..|fds| - 1]) || (f.Ready() && f.owner.FdUsb?)
  {
    var before := fds[..|fds| - 1];
    assert forall i :: 0 <= i < |before| ==> before[i] == fds[i];
  }

  lemma PassStep(fds: seq<PollFd>, i: nat, listenfd: int)
    requires i < |fds|
    ensures PassCalls(fds[..i + 1], listenfd)
         == PassCalls(fds[..i], listenfd) + ServedBy(fds[i], listenfd, ReadyUsb(fds[..i]))
    ensures ReadyUsb(fds[..i + 1]) <==> ReadyUsb(fds[..i]) || (fds[i].Ready() && fds[i].owner.FdUsb?)
  {
    assert fds[..i + 1][..i] == fds[..i];
    ReadyUsbSnoc(fds[..i + 1]);
  }

  /** Descriptor `u` is the first ready one that USB owns. */
  predicate FirstUsb(fds: seq<PollFd>, u: nat) {
    && u < |fds|
    && fds[u].revents != 0 && fds[u].owner == FdUsb
    && forall j :: 0 <= j < u ==> fds[j].revents == 0 || fds[j].owner != FdUsb
  }

  lemma AttendedSnoc(fds: seq<PollFd>, f: PollFd, listenfd: int)
    ensures Attended(fds + [f], listenfd) == Attended(fds, listenfd) +
      if f.revents == 0 || f.owner == FdUsb then []
      else if f.owner == FdListen then [ClientAccept(listenfd)]
      else [ClientProcess(f.fd, f.revents)]
  {
    assert (fds + [f])[..|fds|] == fds;
  }

  lemma PassSnoc(fds: seq<PollFd>, f: PollFd, listenfd: int)
    ensures PassCalls(fds + [f], listenfd) == PassCalls(fds, listenfd) + ServedBy(f, listenfd, ReadyUsb(fds))
  {
    assert (fds + [f])[..|fds|] == fds;
  }

  /** With no ready descriptor of USB's a pass attends to the others and does nothing else. */
  lemma {:induction false} PassWithoutUsb(fds: seq<PollFd>, listenfd: int)
    requires forall j :: 0 <= j < |fds| ==> fds[j].revents == 0 || fds[j].owner != FdUsb
    ensures PassCalls(fds, listenfd) == Attended(fds, listenfd)
  {
    if fds != [] {
      var before := fds[..|fds| - 1];
      PassWithoutUsb(before, listenfd);
      assert !ReadyUsb(before);
    }
  }

  /** Else usb_process is called once, where the first of them stands, and the others are
      attended to before and behind it, all in index order. */
  lemma {:induction false} PassWithUsb(fds: seq<PollFd>, u: nat, listenfd: int)
    requires FirstUsb(fds, u)
    ensures PassCalls(fds, listenfd) == Attended(fds[..u], listenfd) + [UsbProcess] + Attended(fds[u + 1..], listenfd)
    decreases |fds|
  {
    var n := |fds| - 1;
    var before, f := fds[..n], fds[n];
    assert fds == before + [f];
    PassSnoc(before, f, listenfd);
    if u == n {
      PassWithoutUsb(before, listenfd);
      assert !ReadyUsb(before);
      assert fds[u + 1..] == [];
    } else {
      PassWithUsb(before, u, listenfd);
      assert before[u].Ready() && ReadyUsb(before);
      assert before[..u] == fds[..u] && fds[u + 1..] == before[u + 1..] + [f];
      AttendedSnoc(before[u + 1..], f, listenfd);
      PassTail(Attended(fds[..u], listenfd), Attended(before[u + 1..], listenfd), f, listenfd);
    }
  }

  lemma PassTail(a: seq<Call>, b: seq<Call>, f: PollFd, listenfd: int)
    ensures a + [UsbProcess] + b + ServedBy(f, listenfd, true)
         == a + [UsbProcess] + (b + if f.revents == 0 || f.owner == FdUsb then []
                                    else if f.owner == FdListen then [ClientAccept(listenfd)]
                                    else [ClientProcess(f.fd, f.revents)])
  {
  }

  /** Serving descriptor `i` would fail. */
  predicate Fails(fds: seq<PollFd>, i: nat, usbResult: int, acceptResult: nat -> int)
    requires i < |fds|
  {
    fds[i].Ready() &&
    match fds[i].owner
    case FdUsb => usbResult < 0
    case FdListen => acceptResult(i) < 0
    case FdClient => false
  }

  /** Serving none of the first `n` descriptors fails. */
  predicate NoneFails(fds: seq<PollFd>, n: nat, usbResult: int, acceptResult: nat -> int)
    requires n <= |fds|
  {
    n == 0 || (!Fails(fds, n - 1, usbResult, acceptResult) && NoneFails(fds, n - 1, usbResult, acceptResult))
  }

  /** Serving descriptor `i` fails, and serving none before it does. */
  predicate FailsFirst(fds: seq<PollFd>, i: nat, usbResult: int, acceptResult: nat -> int)
    requires i < |fds|
  {
    Fails(fds, i, usbResult, acceptResult) && NoneFails(fds, i, usbResult, acceptResult)
  }

  /** A pass fails exactly when a ready descriptor is USB's and usb_process fails, or one is
      the listening one and client_accept fails for it. */
  lemma {:induction false} NoneFailsMeans(fds: seq<PollFd>, n: nat, usbResult: int, acceptResult: nat -> int)
    requires n <= |fds|
    ensures NoneFails(fds, n, usbResult, acceptResult) <==>
      forall i: nat :: i < n && fds[i].revents != 0 ==>
        && (fds[i].owner == FdUsb ==> usbResult >= 0)
        && (fds[i].owner == FdListen ==> acceptResult(i) >= 0)
  {
    if n > 0 {
      NoneFailsMeans(fds, n - 1, usbResult, acceptResult);
    }
  }

  lemma {:induction false} FailureShows(fds: seq<PollFd>, i: nat, n: nat, usbResult: int, acceptResult: nat -> int)
    requires i < n <= |fds| && Fails(fds, i, usbResult, acceptResult)
    ensures !NoneFails(fds, n, usbResult, acceptResult)
  {
    if i < n - 1 {
      FailureShows(fds, i, n - 1, usbResult, acceptResult);
    }
  }

  // ---------- The loop ----------

  /** What ppoll comes back with, and what the calls it leads to return. An interrupted wait
      leads to one more reading of should_exit, which finds `stop`. */
  datatype Poll = Failed(interrupted: bool, stop: bool)
                | TimedOut(usbResult: int)
                | Reported(fds: seq<PollFd>, usbResult: int, acceptResult: nat -> int)

  /** What a turn of the loop meets: the reading of should_exit in the test of the loop, the
      timeouts, the reading after the wait, and the outcome of the wait. */
  datatype Turn = Turn(test: bool, usbTimeout: int, deviceTimeout: int, stop: bool, poll: Poll)

  function Awaited(t: Turn): Call {
    AwaitEvents(PollTimeout(t.usbTimeout, t.deviceTimeout))
  }

  /** What a turn does after the flag was found unset for the second time. */
  function Work(t: Turn, listenfd: int): seq<Call> {
    match t.poll
    case Failed(interrupted, _) => if interrupted then [ReadFlag(false)] else []
    case TimedOut(_) => [UsbProcess, CheckTimeouts]
    case Reported(fds, _, _) => PassCalls(fds, listenfd)
  }

  /** How a turn begins: the test of the loop, and the wait for events. */
  function Lead(t: Turn): seq<Call> {
    [ReadFlag(false), Awaited(t)]
  }

  function TurnCalls(t: Turn, listenfd: int): seq<Call> {
    Lead(t) + [ReadFlag(false)] + Work(t, listenfd)
  }

  /** The first `n` turns, none of which ends the loop. */
  function Turns(turns: nat -> Turn, n: nat, listenfd: int): seq<Call> {
    if n == 0 then [] else Turns(turns, n - 1, listenfd) + TurnCalls(turns(n - 1), listenfd)
  }

  /** The part of a turn's work up to the call that fails. */
  ghost predicate FailedWork(t: Turn, listenfd: int, work: seq<Call>) {
    match t.poll
    case Failed(_, _) => false
    case TimedOut(usbResult) => usbResult < 0 && work == [UsbProcess]
    case Reported(fds, usbResult, acceptResult) =>
      exists i :: 0 <= i < |fds| && FailsFirst(fds, i, usbResult, acceptResult)
                  && work == PassCalls(fds[..i + 1], listenfd)
  }

  /** Where the loop ends: at the test, after the wait, after an interrupted wait, or by a
      failure. */
  datatype End = AtTest | AfterWait | AfterSignal | AtFailure(work: seq<Call>)

  ghost predicate EndsAt(t: Turn, listenfd: int, end: End) {
    match end
    case AtTest => t.test
    case AfterWait => !t.test && t.stop
    case AfterSignal => !t.test && !t.stop && t.poll == Failed(true, true)
    case AtFailure(work) => !t.test && !t.stop && FailedWork(t, listenfd, work)
  }

  function ExitCode(end: End): int {
    if end.AtFailure? then -1 else 0
  }

  /** The calls of the last turn but for the reading or the work that ends it. */
  function LastLead(t: Turn, end: End): seq<Call> {
    match end
    case AtTest => []
    case AfterWait => Lead(t)
    case AfterSignal => Lead(t) + [ReadFlag(false)]
    case AtFailure(_) => Lead(t) + [ReadFlag(false)]
  }

  function EndCalls(t: Turn, end: End): seq<Call> {
    LastLead(t, end) + if end.AtFailure? then end.work else [ReadFlag(true)]
  }

  /** The turn does not end the loop. */
  predicate Passes(t: Turn) {
    !t.test && !t.stop &&
    match t.poll
    case Failed(interrupted, stop) => !(interrupted && stop)
    case TimedOut(usbResult) => usbResult >= 0
    case Reported(fds, usbResult, acceptResult) => NoneFails(fds, |fds|, usbResult, acceptResult)
  }

  /** None of the first `n` turns ends the loop. */
  predicate AllPass(turns: nat -> Turn, n: nat) {
    n == 0 || (Passes(turns(n - 1)) && AllPass(turns, n - 1))
  }

  /** A turn that does not end the loop, written out: the two readings around the wait, which
      find what the world holds, and then what the wait calls for. An idle turn lets USB
      work and then checks timeouts. */
  lemma TurnInFull(t: Turn, listenfd: int)
    requires Passes(t)
    ensures !t.test && !t.stop
    ensures var head := [ReadFlag(t.test), AwaitEvents(PollTimeout(t.usbTimeout, t.deviceTimeout)), ReadFlag(t.stop)];
      && (t.poll.Failed? ==>
            TurnCalls(t, listenfd) == head + if t.poll.interrupted then [ReadFlag(t.poll.stop)] else [])
      && (t.poll.TimedOut? ==>
            t.poll.usbResult >= 0 && TurnCalls(t, listenfd) == head + [UsbProcess, CheckTimeouts])
      && (t.poll.Reported? ==> TurnCalls(t, listenfd) == head + PassCalls(t.poll.fds, listenfd))
  {
  }

  /** And the last turn, for each way in which the loop may end. */
  lemma EndInFull(t: Turn, listenfd: int, end: End)
    requires EndsAt(t, listenfd, end)
    ensures var wait := AwaitEvents(PollTimeout(t.usbTimeout, t.deviceTimeout));
      var head := [ReadFlag(t.test), wait, ReadFlag(t.stop)];
      && (end == AtTest ==> t.test && EndCalls(t, end) == [ReadFlag(t.test)])
      && (end == AfterWait ==> !t.test && t.stop && EndCalls(t, end) == head)
      && (end == AfterSignal ==>
            !t.test && !t.stop && t.poll.Failed? && t.poll.interrupted && t.poll.stop
            && EndCalls(t, end) == head + [ReadFlag(t.poll.stop)])
      && (end.AtFailure? ==>
            !t.test && !t.stop && !t.poll.Failed? && EndCalls(t, end) == head + end.work)
  {
  }

  class Dispatcher {
    /** The calls made so far, in order. */
    var calls: seq<Call>

    constructor ()
      ensures calls == []
    {
      calls := [];
    }

    /** The body of the loop over the descriptors. */
    method ServeOne(f: PollFd, listenfd: int, doneUsb: bool, usbResult: int, acceptResult: int)
        returns (ok: bool, done: bool)
      modifies this
      ensures calls == old(calls) + ServedBy(f, listenfd, doneUsb)
      ensures done == (doneUsb || (f.Ready() && f.owner.FdUsb?))
      ensures !ok <==> f.Ready() && (|| (f.owner.FdUsb? && !doneUsb && usbResult < 0)
                                     || (f.owner.FdListen? && acceptResult < 0))
    {
      done := doneUsb;
      if f.revents != 0 {
        if !done && f.owner == FdUsb {
          calls := calls + [UsbProcess];
          done := true;
          if usbResult < 0 {
            return false, done;
          }
        }
        if f.owner == FdListen {
          calls := calls + [ClientAccept(listenfd)];
          if acceptResult < 0 {
            return false, done;
          }
        }
        if f.owner == FdClient {
          calls := calls + [ClientProcess(f.fd, f.revents)];
        }
      }
      return true, done;
    }

    /** The loop over the polled descriptors. `usbResult` and `acceptResult` are what
        usb_process and client_accept return. A failing call is the last one. */
    method DispatchPass(fds: seq<PollFd>, listenfd: int, usbResult: int, acceptResult: nat -> int)
        returns (ok: bool, ghost failed: nat)
      modifies this
      ensures ok ==> calls == old(calls) + PassCalls(fds, listenfd)
      ensures !ok ==> failed < |fds| && FailsFirst(fds, failed, usbResult, acceptResult)
      ensures !ok ==> calls == old(calls) + PassCalls(fds[..failed + 1], listenfd)
      ensures ok <==> NoneFails(fds, |fds|, usbResult, acceptResult)
    {
      var doneUsb := false;
      for i := 0 to |fds|
        invariant doneUsb == ReadyUsb(fds[..i]) && (doneUsb ==> usbResult >= 0)
        invariant calls == old(calls) + PassCalls(fds[..i], listenfd)
        invariant NoneFails(fds, i, usbResult, acceptResult)
      {
        PassStep(fds, i, listenfd);
        Associate(old(calls), PassCalls(fds[..i], listenfd), ServedBy(fds[i], listenfd, doneUsb));
        ok, doneUsb := ServeOne(fds[i], listenfd, doneUsb, usbResult, acceptResult(i));
        if !ok {
          FailureShows(fds, i, |fds|, usbResult, acceptResult);
          return false, i;
        }
      }
      assert fds[..|fds|] == fds;
      return true, 0;
    }

    /** One reading of should_exit, which finds `seen`. */
    method ReadShouldExit(seen: bool) returns (exit: bool)
      modifies this
      ensures exit == seen && calls == old(calls) + [ReadFlag(seen)]
    {
      calls := calls + [ReadFlag(seen)];
      return seen;
    }

    /** The branches on what poll returned, once it has not failed. */
    method Serve(t: Turn, listenfd: int) returns (ok: bool, ghost work: seq<Call>)
      requires !t.poll.Failed? && !t.test && !t.stop
      modifies this
      ensures ok <==> Passes(t)
      ensures calls == old(calls) + work
      ensures if ok then work == Work(t, listenfd) else FailedWork(t, listenfd, work)
    {
      match t.poll
      case TimedOut(usbResult) =>
        calls := calls + [UsbProcess];
        if usbResult < 0 {
          return false, [UsbProcess];
        }
        calls := calls + [CheckTimeouts];
        return true, [UsbProcess] + [CheckTimeouts];
      case Reported(fds, usbResult, acceptResult) =>
        ghost var failed;
        ok, failed := DispatchPass(fds, listenfd, usbResult, acceptResult);
        work := PassCalls(if ok then fds else fds[..failed + 1], listenfd);
    }

    /** The rest of a turn after the second reading of the flag, which found it unset. None:
        on to the next turn. */
    method AfterPoll(t: Turn, listenfd: int) returns (code: Option<int>, ghost end: End, ghost tail: seq<Call>)
      requires !t.test && !t.stop
      modifies this
      ensures calls == old(calls) + tail
      ensures code.None? ==> Passes(t) && tail == Work(t, listenfd)
      ensures code.Some? ==> code.value == ExitCode(end) && EndsAt(t, listenfd, end)
      ensures code.Some? ==> end == AtFailure(tail) || (end == AfterSignal && tail == [ReadFlag(true)])
    {
      end := AfterSignal;
      if t.poll.Failed? {
        if t.poll.interrupted {
          var seen := ReadShouldExit(t.poll.stop);
          return if seen then Some(0) else None, end, [ReadFlag(seen)];
        }
        return None, end, [];
      }
      var ok;
      ok, tail := Serve(t, listenfd);
      return if ok then None else Some(-1), AtFailure(tail), tail;
    }

    /** The test at the head of the loop and, if it passes, the body. */
    method TakeTurn(t: Turn, listenfd: int) returns (code: Option<int>, ghost end: End, ghost e: seq<Call>)
      modifies this
      ensures calls == old(calls) + e
      ensures code.None? ==> Passes(t) && e == TurnCalls(t, listenfd)
      ensures code.Some? ==> code.value == ExitCode(end) && EndsAt(t, listenfd, end) && e == EndCalls(t, end)
    {
      var exit := ReadShouldExit(t.test);
      if exit {
        return Some(0), AtTest, [] + [ReadFlag(true)];
      }
      calls := calls + [Awaited(t)];
      exit := ReadShouldExit(t.stop);
      if exit {
        return Some(0), AfterWait, Lead(t) + [ReadFlag(true)];
      }
      ghost var tail;
      code, end, tail := AfterPoll(t, listenfd);
      e := Lead(t) + [ReadFlag(false)] + tail;
    }

    /** loop_main, from the reset of the flag on, in a world that answers `turns`. Some turn
        must meet a set flag or a failure, or else the loop never ends. The loop passes `n`
        turns and ends in the next. */
    method LoopMain(listenfd: int, turns: nat -> Turn, ghost last: nat)
        returns (code: int, ghost n: nat, ghost end: End)
      requires !Passes(turns(last))
      modifies this
      ensures AllPass(turns, n)
      ensures EndsAt(turns(n), listenfd, end) && code == (if end.AtFailure? then -1 else 0)
      ensures calls == old(calls) + (Turns(turns, n, listenfd) + EndCalls(turns(n), end))
    {
      ghost var done: seq<Call> := [];
      var i: nat := 0;
      while true
        invariant done == Turns(turns, i, listenfd) && AllPass(turns, i)
        invariant calls == old(calls) + done
        invariant i <= last
        decreases last - i
      {
        var result;
        ghost var e;
        result, end, e := TakeTurn(turns(i), listenfd);
        Associate(old(calls), done, e);
        if result.Some? {
          return result.value, i, end;
        }
        done, i := done + e, i + 1;
        StopsLater(turns, i, last);
      }
    }
  }

  lemma {:induction false} StopsLater(turns: nat -> Turn, n: nat, last: nat)
    requires AllPass(turns, n) && !Passes(turns(last))
    ensures n <= last
  {
    if last < n {
      StopsLater(turns, n - 1, last);
    }
  }

  // ---------- A stop ends the loop at once ----------

  lemma {:induction false} PassReadsNothing(fds: seq<PollFd>, listenfd: int)
    ensures forall c :: c in PassCalls(fds, listenfd) ==> !c.ReadFlag?
  {
    if fds != [] {
      PassReadsNothing(fds[..|fds| - 1], listenfd);
    }
  }

  lemma TurnReadsUnset(t: Turn, listenfd: int)
    ensures ReadFlag(true) !in TurnCalls(t, listenfd)
  {
    if t.poll.Reported? {
      PassReadsNothing(t.poll.fds, listenfd);
    }
  }

  lemma NotInConcat(c: Call, a: seq<Call>, b: seq<Call>)
    requires c !in a && c !in b
    ensures c !in a + b
  {
  }

  lemma {:induction false} TurnsReadUnset(turns: nat -> Turn, n: nat, listenfd: int)
    ensures ReadFlag(true) !in Turns(turns, n, listenfd)
  {
    if n > 0 {
      TurnsReadUnset(turns, n - 1, listenfd);
      TurnReadsUnset(turns(n - 1), listenfd);
      NotInConcat(ReadFlag(true), Turns(turns, n - 1, listenfd), TurnCalls(turns(n - 1), listenfd));
    }
  }

  /** A loop that ends without a failure ends at the first reading that finds the flag set,
      and makes no other such reading. */
  lemma ExitsAtFirstSetReading(turns: nat -> Turn, n: nat, listenfd: int, end: End)
    requires ExitCode(end) == 0
    ensures var before := Turns(turns, n, listenfd) + LastLead(turns(n), end);
      && Turns(turns, n, listenfd) + EndCalls(turns(n), end) == before + [ReadFlag(true)]
      && ReadFlag(true) !in before
  {
    TurnsReadUnset(turns, n, listenfd);
    Associate(Turns(turns, n, listenfd), LastLead(turns(n), end), [ReadFlag(true)]);
  }

  ghost predicate EndOf(s: seq<Call>, w: seq<Call>) {
    |s| <= |w| && s == w[|w| - |s|..]
  }

  lemma LongEndHasReading(a: seq<Call>, w: seq<Call>, p: seq<Call>, s: seq<Call>)
    requires a + [ReadFlag(false)] + w == p + s && |s| > |w|
    ensures ReadFlag(false) in s
  {
    assert s[|s| - |w| - 1] == (a + [ReadFlag(false)] + w)[|a|];
  }

  /** What follows the last reading in a row of calls is all that can be split off its end
      without a reading. */
  lemma SplitAfterReading(a: seq<Call>, w: seq<Call>, p: seq<Call>, s: seq<Call>)
    requires a + [ReadFlag(false)] + w == p + s
    requires ReadFlag(false) !in s
    ensures EndOf(s, w)
  {
    if |s| > |w| {
      LongEndHasReading(a, w, p, s);
    }
    assert forall j :: 0 <= j < |s| ==> s[j] == (a + [ReadFlag(false)] + w)[|p| + j];
  }

  function BeforeWork(turns: nat -> Turn, n: nat, listenfd: int): seq<Call>
    requires n > 0
  {
    Turns(turns, n - 1, listenfd) + Lead(turns(n - 1))
  }

  lemma LastTurn(turns: nat -> Turn, n: nat, listenfd: int)
    requires n > 0
    ensures Turns(turns, n, listenfd)
         == BeforeWork(turns, n, listenfd) + [ReadFlag(false)] + Work(turns(n - 1), listenfd)
  {
  }

  /** What is done, short of the reading that ends the loop, since a point behind which
      there are no further readings. */
  lemma UnreadEnd(turns: nat -> Turn, n: nat, listenfd: int, end: End, p: seq<Call>, w: seq<Call>)
    requires ExitCode(end) == 0
    requires Turns(turns, n, listenfd) + LastLead(turns(n), end) == p + w && ReadFlag(false) !in w
    ensures EndOf(w, [Awaited(turns(n))]) || (n > 0 && EndOf(w, Work(turns(n - 1), listenfd)))
  {
    var t, before := turns(n), Turns(turns, n, listenfd);
    match end
    case AtTest =>
      assert before + [] == before;
      if n > 0 {
        LastTurn(turns, n, listenfd);
        SplitAfterReading(BeforeWork(turns, n, listenfd), Work(turns(n - 1), listenfd), p, w);
      }
    case AfterWait =>
      assert before + Lead(t) == before + [ReadFlag(false)] + [Awaited(t)];
      SplitAfterReading(before, [Awaited(t)], p, w);
    case AfterSignal =>
      assert before + (Lead(t) + [ReadFlag(false)]) == (before + Lead(t)) + [ReadFlag(false)] + [];
      SplitAfterReading(before + Lead(t), [], p, w);
  }

  lemma SplitLast(all: seq<Call>, c: Call, p: seq<Call>, s: seq<Call>)
    requires all + [c] == p + s && s != []
    ensures s == s[..|s| - 1] + [c] && all == p + s[..|s| - 1]
  {
    assert (all + [c])[|all|] == (p + s)[|all|];
    assert (all + [c])[..|all|] == (p + s)[..|all|];
  }

  /** Split the calls of the loop where the flag was set for good: what the loop still does
      is at most the end of one wait or of one turn's work, and then the reading that ends
      it, unless the work fails. */
  lemma AtMostOnePassAfterWrite(
      turns: nat -> Turn, n: nat, listenfd: int, end: End, p: seq<Call>, s: seq<Call>) returns (w: seq<Call>)
    requires Turns(turns, n, listenfd) + EndCalls(turns(n), end) == p + s && s != []
    requires ReadFlag(false) !in s
    ensures end.AtFailure? ==> w == s && EndOf(w, end.work)
    ensures !end.AtFailure? ==> s == w + [ReadFlag(true)]
    ensures !end.AtFailure? ==>
      EndOf(w, [Awaited(turns(n))]) || (n > 0 && EndOf(w, Work(turns(n - 1), listenfd)))
  {
    var before, t := Turns(turns, n, listenfd), turns(n);
    if end.AtFailure? {
      assert before + EndCalls(t, end) == (before + Lead(t)) + [ReadFlag(false)] + end.work;
      SplitAfterReading(before + Lead(t), end.work, p, s);
      w := s;
    } else {
      ExitsAtFirstSetReading(turns, n, listenfd, end);
      SplitLast(before + LastLead(t, end), ReadFlag(true), p, s);
      w := s[..|s| - 1];
      UnreadEnd(turns, n, listenfd, end, p, w);
    }
  }
}
