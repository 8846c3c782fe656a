/** What the steps of one worker amount to in a run of many: complete calls, and part of one more.  So what
    `AcceptLock` says of calls decides over the whole system (src/modules/epoll_module.c). */
module AcceptRuns {
  import opened AcceptLock
  import opened Sequences

  /** The calls a worker has completed, and the outcomes in the one it is in. */
  datatype Log = Log(calls: seq<Call>, held: bool, adds: seq<bool>, deletes: seq<bool>)

  /** Outcomes that the program did not come to do not matter. */
  function Padded(ok: seq<bool>, n: nat): (r: seq<bool>)
    requires |ok| <= n
    ensures |r| == n
  {
    ok + AllTrue(n - |ok|)
  }

  function Pad(ok: seq<bool>, n: nat): seq<bool> {
    if |ok| <= n then Padded(ok, n) else ok
  }

  function Finished(log: Log, n: nat): Log {
    Log(log.calls + [if log.held then Held(log.adds, Pad(log.deletes, n)) else NotHeld], false, [], [])
  }

  /** One step more; `m` is the worker before it. */
  function Logged(log: Log, m: Member, a: Act): Log {
    var n := |m.tags|;
    match m.phase
    case Outside => if a.Try? then Log(log.calls, a.power, [], []) else log
    case Adding(i) =>
      if i < n && (a.AddOk? || a.AddFails?) then log.(adds := log.adds + [a.AddOk?])
      else if i >= n && a.Wait? then log.(adds := Pad(log.adds, n))
      else log
    case Waiting => if a.Wait? then log.(adds := Pad(log.adds, n)) else log
    case Deleting(i) =>
      if i < n && (a.DelOk? || a.DelFails?) then log.(deletes := log.deletes + [a.DelOk?])
      else if i >= n && a.Leave? then Finished(log, n)
      else log
    case Leaving => if a.Leave? then Finished(log, n) else log
  }

  function LogOf(m: Member, acts: seq<Act>): Log {
    if acts == [] then Log([], false, [], []) else
      var prev := acts[..|acts| - 1];
      Logged(LogOf(m, prev), Solo(m, prev), acts[|acts| - 1])
  }

  /** The steps of a call that gets the lock, up to its deletions. */
  function Begun(adds: seq<bool>): seq<Act> {
    [Try(true)] + Adds(adds)
  }

  function Waited(adds: seq<bool>, deletes: seq<bool>): seq<Act> {
    Begun(adds) + ([Wait] + Deletes(deletes))
  }

  /** The worker is where the completed calls and the steps of the present one lead from `s`. */
  ghost predicate Underway(s: Member, m: Member, log: Log) {
    var n := |m.tags|;
    match m.phase
    case Outside => m == s
    case Adding(i) =>
      log.held && m.hold && |log.adds| == i <= n && log.deletes == [] && m == Solo(s, Begun(log.adds))
    case Waiting =>
      && |log.adds| <= n && log.deletes == [] && m.hold == log.held
      && m == Solo(s, if log.held then Begun(log.adds) else [Try(false)])
    case Deleting(i) =>
      log.held && |log.adds| == n && |log.deletes| == i <= n && m == Solo(s, Waited(log.adds, log.deletes))
    case Leaving =>
      if log.held then |log.adds| == n && |log.deletes| <= n && m == Solo(s, Waited(log.adds, log.deletes))
      else m == Solo(s, [Try(false), Wait])
  }

  /** `s` is where the completed calls lead. */
  ghost predicate Logs(m0: Member, m: Member, log: Log) {
    var s := After(m0, log.calls);
    && AllFit(|m0.tags|, log.calls) && s.phase.Outside?
    && |m0.tags| == |s.tags| == |s.watched| == |m.tags| == |m.watched|
    && Underway(s, m, log)
  }

  lemma {:induction false} AddsAppend(a: seq<bool>, b: seq<bool>)
    ensures Adds(a + b) == Adds(a) + Adds(b)
  {
    if a == [] {
      assert a + b == b;
    } else {
      assert (a + b)[1..] == a[1..] + b;
      AddsAppend(a[1..], b);
    }
  }

  lemma {:induction false} DeletesAppend(a: seq<bool>, b: seq<bool>)
    ensures Deletes(a + b) == Deletes(a) + Deletes(b)
  {
    if a == [] {
      assert a + b == b;
    } else {
      assert (a + b)[1..] == a[1..] + b;
      DeletesAppend(a[1..], b);
    }
  }

  /** One more addition. */
  lemma {:induction false} BegunOne(s: Member, adds: seq<bool>, ok: bool)
    ensures Solo(s, Begun(adds + [ok])) == Local(Solo(s, Begun(adds)), if ok then AddOk else AddFails, true)
  {
    AddsAppend(adds, [ok]);
    assert Begun(adds + [ok]) == Begun(adds) + Adds([ok]);
    SoloAppend(s, Begun(adds), Adds([ok]));
    assert [ok][1..] == [];
    SoloOne(Solo(s, Begun(adds)), if ok then AddOk else AddFails);
  }

  lemma {:induction false} WaitedOne(s: Member, adds: seq<bool>, deletes: seq<bool>, ok: bool)
    ensures Solo(s, Waited(adds, deletes + [ok])) ==
      Local(Solo(s, Waited(adds, deletes)), if ok then DelOk else DelFails, true)
  {
    DeletesAppend(deletes, [ok]);
    assert Waited(adds, deletes + [ok]) == Waited(adds, deletes) + Deletes([ok]);
    SoloAppend(s, Waited(adds, deletes), Deletes([ok]));
    assert [ok][1..] == [];
    SoloOne(Solo(s, Waited(adds, deletes)), if ok then DelOk else DelFails);
  }

  /** A worker that waits ignores further additions. */
  lemma {:induction false} BegunPad(s: Member, adds: seq<bool>, n: nat)
    requires |adds| <= n && (|adds| == n || Solo(s, Begun(adds)).phase.Waiting?)
    ensures Solo(s, Begun(Pad(adds, n))) == Solo(s, Begun(adds))
  {
    var rest := AllTrue(n - |adds|);
    AddsAppend(adds, rest);
    assert Begun(adds + rest) == Begun(adds) + Adds(rest);
    SoloAppend(s, Begun(adds), Adds(rest));
    if |adds| == n {
      assert Begun(adds) + [] == Begun(adds);
    } else {
      NoMoreAdds(Solo(s, Begun(adds)), rest);
    }
  }

  /** The wait. */
  lemma {:induction false} WaitedNone(s: Member, adds: seq<bool>)
    ensures Solo(s, Waited(adds, [])) == Local(Solo(s, Begun(adds)), Wait, true)
  {
    assert [Wait] + Deletes([]) == [Wait];
    SoloAppend(s, Begun(adds), [Wait]);
    SoloOne(Solo(s, Begun(adds)), Wait);
  }

  lemma {:induction false} Regrouped(a: seq<Act>, w: seq<Act>, d: seq<Act>, r: seq<Act>, l: seq<Act>)
    ensures a + (w + (d + r) + l) == (a + (w + d)) + (r + l)
  {}

  /** The end of a call that got the lock. */
  lemma {:induction false} CallEnds(s: Member, adds: seq<bool>, deletes: seq<bool>, n: nat)
    requires |deletes| <= n && (|deletes| == n || Solo(s, Waited(adds, deletes)).phase.Leaving?)
    ensures Solo(s, ActsOf(Held(adds, Pad(deletes, n)))) == Local(Solo(s, Waited(adds, deletes)), Leave, true)
  {
    var rest := AllTrue(n - |deletes|);
    DeletesAppend(deletes, rest);
    Regrouped(Begun(adds), [Wait], Deletes(deletes), Deletes(rest), [Leave]);
    SoloAppend(s, Waited(adds, deletes), Deletes(rest) + [Leave]);
    LastSteps(Solo(s, Waited(adds, deletes)), rest);
  }

  lemma {:induction false} LastSteps(r: Member, rest: seq<bool>)
    requires rest == [] || r.phase.Leaving?
    ensures Solo(r, Deletes(rest) + [Leave]) == Local(r, Leave, true)
  {
    SoloAppend(r, Deletes(rest), [Leave]);
    if rest == [] {
    } else {
      NoMoreDeletes(r, rest);
    }
    SoloOne(r, Leave);
  }

  // ----- the log of a run

  lemma {:induction false} AfterOne(m: Member, calls: seq<Call>, call: Call)
    ensures After(m, calls + [call]) == Solo(After(m, calls), ActsOf(call))
  {
    assert (calls + [call])[..|calls|] == calls;
  }

  /** A call is complete. */
  lemma {:induction false} LeaveLogged(m0: Member, m: Member, log: Log)
    requires Logs(m0, m, log) && (m.phase.Leaving? || (m.phase.Deleting? && m.phase.next >= |m.tags|))
    ensures Logs(m0, Local(m, Leave, true), Finished(log, |m.tags|))
  {
    var n, s := |m.tags|, After(m0, log.calls);
    var call := Finished(log, n).calls[|log.calls|];
    AfterOne(m0, log.calls, call);
    if log.held {
      CallEnds(s, log.adds, log.deletes, n);
    } else {
      SoloAppend(s, [Try(false), Wait], [Leave]);
      assert [Try(false), Wait] + [Leave] == ActsOf(NotHeld);
      SoloOne(m, Leave);
    }
    OneCall(s, call);
  }

  lemma {:induction false} TryLogged(m0: Member, m: Member, log: Log, power: bool)
    requires Logs(m0, m, log) && m.phase.Outside?
    ensures Logs(m0, Local(m, Try(power), true), Log(log.calls, power, [], []))
  {
    SoloOne(m, Try(power));
    assert Begun([]) == [Try(true)];
  }

  lemma {:induction false} WaitLogged(m0: Member, m: Member, log: Log)
    requires Logs(m0, m, log) && (m.phase.Waiting? || (m.phase.Adding? && m.phase.next >= |m.tags|))
    ensures Logs(m0, Local(m, Wait, true), log.(adds := Pad(log.adds, |m.tags|)))
  {
    var s := After(m0, log.calls);
    if log.held {
      BegunPad(s, log.adds, |m.tags|);
      WaitedNone(s, Pad(log.adds, |m.tags|));
    } else {
      SoloAppend(s, [Try(false)], [Wait]);
      assert [Try(false)] + [Wait] == [Try(false), Wait];
      SoloOne(m, Wait);
    }
  }

  lemma {:induction false} AddLogged(m0: Member, m: Member, log: Log, ok: bool)
    requires Logs(m0, m, log) && m.phase.Adding? && m.phase.next < |m.tags|
    ensures Logs(m0, Local(m, if ok then AddOk else AddFails, true), log.(adds := log.adds + [ok]))
  {
    BegunOne(After(m0, log.calls), log.adds, ok);
  }

  lemma {:induction false} DelLogged(m0: Member, m: Member, log: Log, ok: bool)
    requires Logs(m0, m, log) && m.phase.Deleting? && m.phase.next < |m.tags|
    ensures Logs(m0, Local(m, if ok then DelOk else DelFails, true), log.(deletes := log.deletes + [ok]))
  {
    WaitedOne(After(m0, log.calls), log.adds, log.deletes, ok);
  }

  lemma {:induction false} StepLogged(m0: Member, m: Member, log: Log, a: Act)
    requires Logs(m0, m, log)
    ensures Logs(m0, Local(m, a, true), Logged(log, m, a))
  {
    match m.phase
    case Outside =>
      if a.Try? {
        TryLogged(m0, m, log, a.power);
      }
    case Adding(i) =>
      if i < |m.tags| {
        if a.AddOk? || a.AddFails? {
          AddLogged(m0, m, log, a.AddOk?);
        }
      } else if a.Wait? {
        WaitLogged(m0, m, log);
      }
    case Waiting =>
      if a.Wait? {
        WaitLogged(m0, m, log);
      }
    case Deleting(i) =>
      if i < |m.tags| {
        if a.DelOk? || a.DelFails? {
          DelLogged(m0, m, log, a.DelOk?);
        }
      } else if a.Leave? {
        LeaveLogged(m0, m, log);
      }
    case Leaving =>
      if a.Leave? {
        LeaveLogged(m0, m, log);
      }
  }

  /** A worker that starts outside is always where its completed calls, and the steps of the present one, lead it. */
  lemma {:induction false} LogKeeps(m: Member, acts: seq<Act>)
    requires m.phase.Outside? && |m.tags| == |m.watched|
    ensures Logs(m, Solo(m, acts), LogOf(m, acts))
    decreases |acts|
  {
    if acts == [] {
    } else {
      var prev, a := acts[..|acts| - 1], acts[|acts| - 1];
      LogKeeps(m, prev);
      StepLogged(m, Solo(m, prev), LogOf(m, prev), a);
      assert acts == prev + [a];
      SoloAppend(m, prev, [a]);
      SoloOne(Solo(m, prev), a);
    }
  }

  // ----- the assert, over the whole system

  /** The calls that worker `k` has completed in a run. */
  function CallsIn(s: System, moves: seq<Move>, k: nat): seq<Call>
    requires k < |s.members|
  {
    LogOf(s.members[k], OwnActs(s, moves, k)).calls
  }

  predicate NoneLeaves(calls: seq<Call>) {
    forall c <- calls :: !Leaves(c)
  }

  /** A worker whose completed calls left no mark meets none. */
  lemma {:induction false} UnmarkedHolds(m0: Member, m: Member, log: Log)
    requires Logs(m0, m, log) && NoneSet(m0.tags) && m0.phase.Outside? && |m0.tags| == |m0.watched|
    requires NoneLeaves(log.calls)
    ensures AssertHolds(m)
  {
    AfterOutside(m0, log.calls);
    if m.phase.Adding? {
      var r := AfterTry(After(m0, log.calls), log.adds);
    }
  }

  lemma {:induction false} AssertHere(s: System, moves: seq<Move>, k: nat)
    requires k < |s.members| && s.members[k].phase.Outside? && |s.members[k].tags| == |s.members[k].watched|
    requires NoneSet(s.members[k].tags) && NoneLeaves(CallsIn(s, moves, k))
    ensures k < |Run(s, moves).members| && AssertHolds(Run(s, moves).members[k])
  {
    var m, acts := s.members[k], OwnActs(s, moves, k);
    OwnRun(s, moves, k);
    LogKeeps(m, acts);
    UnmarkedHolds(m, Solo(m, acts), LogOf(m, acts));
  }

  /** For any number of workers and any interleaving, whatever the kernel answers: as long as no completed call of any
      worker had a failed addition that was preceded by a failed deletion, the assert on a mark holds wherever it is
      reached. */
  lemma {:induction false} AssertEverywhere(workers: nat, listeners: nat, moves: seq<Move>)
    requires forall k :: 0 <= k < workers ==> NoneLeaves(CallsIn(Initial(workers, listeners), moves, k))
    ensures forall k :: 0 <= k < |Run(Initial(workers, listeners), moves).members| ==>
      AssertHolds(Run(Initial(workers, listeners), moves).members[k])
  {
    var s := Initial(workers, listeners);
    forall k | 0 <= k < |Run(s, moves).members| ensures AssertHolds(Run(s, moves).members[k]) {
      RunSize(s, moves);
      assert |s.members| == workers;
      AssertHere(s, moves, k);
    }
  }

  lemma {:induction false} RunSize(s: System, moves: seq<Move>)
    ensures |Run(s, moves).members| == |s.members|
    decreases |moves|
  {
    if moves == [] {
    } else {
      RunSize(s, moves[..|moves| - 1]);
    }
  }

  lemma {:induction false} RunAppend(s: System, a: seq<Move>, b: seq<Move>)
    ensures Run(s, a + b) == Run(Run(s, a), b)
    decreases |b|
  {
    if b == [] {
      assert a + b == a;
    } else {
      assert (a + b)[..|a + b| - 1] == a + b[..|b| - 1];
      RunAppend(s, a, b[..|b| - 1]);
    }
  }

  /** Only worker `k` moves. */
  function Alone(k: nat, acts: seq<Act>): seq<Move> {
    if acts == [] then [] else Alone(k, acts[..|acts| - 1]) + [Move(k, acts[|acts| - 1])]
  }

  /** No other worker holds the lock. */
  ghost predicate Unhindered(s: System, k: nat)
    requires k < |s.members|
  {
    s.lock == (if s.members[k].hold then 1 else 0) && (s.members[k].phase.Outside? ==> !s.members[k].hold)
  }

  lemma {:induction false} AloneStep(s: System, k: nat, a: Act)
    requires k < |s.members| && Unhindered(s, k)
    ensures Unhindered(Step(s, k, a), k) && Step(s, k, a).members[k] == Local(s.members[k], a, true)
  {}

  /** Alone, a worker gets the lock whenever it tries. */
  lemma {:induction false} AloneRuns(s: System, k: nat, acts: seq<Act>)
    requires k < |s.members| && Unhindered(s, k)
    ensures var r := Run(s, Alone(k, acts));
      |r.members| == |s.members| && r.members[k] == Solo(s.members[k], acts) && Unhindered(r, k)
    decreases |acts|
  {
    if acts == [] {
    } else {
      var prev, a := acts[..|acts| - 1], acts[|acts| - 1];
      AloneRuns(s, k, prev);
      AloneStep(Run(s, Alone(k, prev)), k, a);
      assert Alone(k, acts)[..|Alone(k, acts)| - 1] == Alone(k, prev);
      assert acts == prev + [a];
      SoloAppend(s.members[k], prev, [a]);
      SoloOne(Solo(s.members[k], prev), a);
    }
  }

  /** From a mark the worker's next call can run into the assert. */
  lemma {:induction false} MarkedFails(s: System, k: nat) returns (more: seq<Move>)
    requires k < |s.members| && Unhindered(s, k) && s.members[k].phase.Outside?
    requires |s.members[k].tags| == |s.members[k].watched| && !NoneSet(s.members[k].tags)
    ensures |Run(s, more).members| == |s.members| && !AssertHolds(Run(s, more).members[k])
  {
    var call := MarkMet(s.members[k]);
    var acts := ActsOf(call);
    var p :| 0 <= p <= |acts| && !AssertHolds(Solo(s.members[k], acts[..p]));
    more := Alone(k, acts[..p]);
    AloneRuns(s, k, acts[..p]);
  }

  /** And else it can fail: once the last completed call of a worker was the first to leave a mark, and the lock is
      free, the worker's next call can run into the assert. */
  lemma {:induction false} AssertFailsNext(workers: nat, listeners: nat, moves: seq<Move>, k: nat)
    returns (more: seq<Move>)
    requires k < workers && |Run(Initial(workers, listeners), moves).members| == workers
    requires var r := Run(Initial(workers, listeners), moves); r.lock == 0 && r.members[k].phase.Outside?
    requires var calls := CallsIn(Initial(workers, listeners), moves, k);
      calls != [] && Leaves(calls[|calls| - 1]) && NoneLeaves(calls[..|calls| - 1])
    ensures |Run(Initial(workers, listeners), moves + more).members| == workers
    ensures !AssertHolds(Run(Initial(workers, listeners), moves + more).members[k])
  {
    var s := Initial(workers, listeners);
    OneHolder(workers, listeners, moves);
    MarkThere(s, moves, k);
    more := MarkedFails(Run(s, moves), k);
    RunAppend(s, moves, more);
  }

  lemma {:induction false} MarkThere(s: System, moves: seq<Move>, k: nat)
    requires k < |s.members| && s.members[k].phase.Outside? && |s.members[k].tags| == |s.members[k].watched|
    requires NoneSet(s.members[k].tags) && k < |Run(s, moves).members| && Run(s, moves).members[k].phase.Outside?
    requires var calls := CallsIn(s, moves, k);
      calls != [] && Leaves(calls[|calls| - 1]) && NoneLeaves(calls[..|calls| - 1])
    ensures var m := Run(s, moves).members[k]; |m.tags| == |m.watched| && !NoneSet(m.tags)
  {
    OwnRun(s, moves, k);
    LogKeeps(s.members[k], OwnActs(s, moves, k));
    FirstMark(s.members[k], CallsIn(s, moves, k));
  }

  lemma {:induction false} FirstMark(m: Member, calls: seq<Call>)
    requires m.phase.Outside? && |m.tags| == |m.watched| && AllFit(|m.tags|, calls) && NoneSet(m.tags)
    requires calls != [] && Leaves(calls[|calls| - 1]) && NoneLeaves(calls[..|calls| - 1])
    ensures !NoneSet(After(m, calls).tags)
  {
    var prev := calls[..|calls| - 1];
    assert forall c <- prev :: c in calls;
    AfterOutside(m, prev);
    OneCall(After(m, prev), calls[|calls| - 1]);
  }
}
