/** Runs of a worker's event loop as values: the stops between its passes, and how each pass leads from one stop to
    the next (src/modules/event_core_module.c, src/modules/epoll_module.c). */
module EventRun {
  import AcceptLock
  import opened IntrusiveList
  import opened ListenerWindow
  import opened Sequences
  import opened WorkerState

  /** A worker between two passes. */
  datatype Stop = Stop(state: State, tags: seq<bool>)

  /** Its listeners, as marks and registrations. */
  ghost function Seat(s: Stop): AcceptLock.Member {
    Between(s.tags, s.state.servers, s.state.watched)
  }

  /** The call that a round leads to from there. */
  ghost function CallAt(s: Stop, round: Round): AcceptLock.Call {
    CallOf(round, s.state.power)
  }

  /** The lists are in order, everything agrees, nothing is posted, and the debt is bounded: by an eighth of the `max`
      connections, and the listeners that were configured and could not be opened. */
  ghost predicate AtRest(s: Stop, max: nat, configured: nat) {
    && Lists(s.state) && Agree(s.state, max - max / 8, Nothing) && s.state.posted == []
    && |s.tags| == |s.state.servers| && s.state.power >= -(max / 8) - (configured - |s.state.servers|)
  }

  ghost predicate AllAtRest(run: seq<Stop>, max: nat, configured: nat) {
    forall s <- run :: AtRest(s, max, configured)
  }

  // ----- one pass

  /** The wait is over, and nothing has been posted yet. */
  ghost predicate Woke(s: Stop, round: Round, seen: map<nat, bool>, s': Stop) {
    && SeenWith(seen, s.state.watched, s.state.servers, CallAt(s, round).Held?, round.adds)
    && s'.state == s.state.(watched := s'.state.watched)
    && Others(s'.state.watched, s.state.servers) == Others(s.state.watched, s.state.servers)
    && (CallAt(s, round).NotHeld? ==> s'.state.watched == s.state.watched && s'.tags == s.tags)
    && (forall i <- seen :: i < |s.state.slots|)
    && Seat(s') == AcceptLock.Solo(Seat(s), AcceptLock.ActsOf(CallAt(s, round)))
  }

  /** What was reported then is posted. */
  lemma {:induction false} WokeWaited(s: Stop, round: Round, seen: map<nat, bool>, s1: Stop, s': Stop)
    requires Woke(s, round, seen, s1) && s'.tags == s1.tags
    requires var events := EventsOf(round, seen); var st, st' := s1.state, s'.state;
      st' == st.(words := st'.words, slots := WokenAll(st.slots, events), posted := PostsOf(events))
    ensures Waited(s, round, seen, s')
  {}

  /** `epoll_process_events` leads from `s` to `mid`, and what was watched during its wait is `seen`: what the kernel
      then reports is posted, and marks and registrations are those after the call. */
  ghost predicate Waited(s: Stop, round: Round, seen: map<nat, bool>, mid: Stop) {
    var st, st' := s.state, mid.state;
    var events := EventsOf(round, seen);
    && SeenWith(seen, st.watched, st.servers, CallAt(s, round).Held?, round.adds)
    && st' == st.(words := st'.words, watched := st'.watched, slots := WokenAll(st.slots, events),
                  posted := PostsOf(events))
    && Others(st'.watched, st.servers) == Others(st.watched, st.servers)
    && (CallAt(s, round).NotHeld? ==> st'.watched == st.watched && mid.tags == s.tags)
    && (forall i <- seen :: i < |st.slots|)
    && Seat(mid) == AcceptLock.Solo(Seat(s), AcceptLock.ActsOf(CallAt(s, round)))
  }

  /** The posted sockets are handled one by one, through the states of `trace`. */
  ghost predicate PassBy(s: Stop, round: Round, seen: map<nat, bool>, mid: Stop, trace: seq<State>, s': Stop) {
    && !AcceptLock.RunsInto(Seat(s), CallAt(s, round)) && Waited(s, round, seen, mid)
    && Traced(trace, mid.state, s'.state, round.reactions) && s'.state.posted == [] && Distinct(mid.state.posted)
    && s'.tags == mid.tags && Seat(s') == Seat(mid)
  }

  ghost predicate Passes(s: Stop, round: Round, s': Stop) {
    exists seen, mid, trace :: PassBy(s, round, seen, mid, trace, s')
  }

  /** In other words: without the power or the lock nothing is added or deleted; with them the listeners before the
      first that could not be added are watched during the wait, besides those left over; and what is no listener stays
      registered as it was. */
  lemma {:induction false} WaitedMeans(s: Stop, round: Round, seen: map<nat, bool>, mid: Stop)
    requires Waited(s, round, seen, mid) && |round.adds| == |s.state.servers|
    ensures s.state.power <= 0 || !round.lock ==>
      seen == s.state.watched && mid.state.watched == s.state.watched && mid.tags == s.tags
    ensures s.state.power > 0 && round.lock ==> forall j :: 0 <= j < |s.state.servers| ==>
      (s.state.servers[j] in seen <==>
        s.state.servers[j] in s.state.watched || forall i :: 0 <= i <= j ==> round.adds[i])
    ensures forall i: nat :: i !in s.state.servers ==>
      && (i in mid.state.watched <==> i in s.state.watched) && (i in seen <==> i in s.state.watched)
      && (i in s.state.watched ==> mid.state.watched[i] == s.state.watched[i] == seen[i])
  {
    var st, f := s.state, AcceptLock.FirstFailure(round.adds);
    forall i: nat | i !in st.servers
      ensures (i in mid.state.watched <==> i in st.watched) && (i in seen <==> i in st.watched)
        && (i in st.watched ==> mid.state.watched[i] == st.watched[i] == seen[i])
    {
      OthersAt(st.servers, st.watched, mid.state.watched, i);
      OthersAt(st.servers, st.watched, seen, i);
    }
    if st.power > 0 && round.lock {
      forall j | 0 <= j < |st.servers|
        ensures st.servers[j] in seen <==> st.servers[j] in st.watched || forall i :: 0 <= i <= j ==> round.adds[i]
      {
        WatchingAt(st.servers, st.watched, j);
        WatchingAt(st.servers, seen, j);
        assert f < |round.adds| ==> !round.adds[f];
      }
    }
  }

  /** A call runs into the assert if and only if it has the power and gets the lock, and comes to a marked listener with
      all additions before having succeeded. */
  lemma {:induction false} AbortsMeans(s: Stop, round: Round)
    requires |s.tags| == |s.state.servers| == |round.adds|
    ensures AcceptLock.RunsInto(Seat(s), CallAt(s, round)) <==>
      s.state.power > 0 && round.lock
      && exists j :: 0 <= j < |s.tags| && s.tags[j] && forall i :: 0 <= i < j ==> round.adds[i]
  {
    var f := AcceptLock.FirstFailure(round.adds);
    AcceptLock.RunsIntoExactly(Seat(s), CallAt(s, round));
    if j :| 0 <= j < |s.tags| && s.tags[j] && forall i :: 0 <= i < j ==> round.adds[i] {
      assert j <= f;
    }
    if AcceptLock.MarkUpTo(s.tags, f) {
      var j :| 0 <= j < |s.tags| && j <= f && s.tags[j];
      assert forall i :: 0 <= i < j ==> round.adds[i];
    }
  }

  /** Whatever the kernel reports in a pass is handled in that pass.  Every socket that an event names is readable and
      writable as the event says, and no other slot has changed; it is posted if it is one or the other; and the trace
      has one turn for every posted socket, in the order of the list. */
  lemma {:induction false} ReportedHandled(s: Stop, round: Round, seen: map<nat, bool>, mid: Stop, trace: seq<State>,
      s': Stop)
    requires PassBy(s, round, seen, mid, trace, s')
    ensures var events := if round.wait.Ready? then Report(seen, round.wait.changes) else [];
      var slots, slots', posts := s.state.slots, mid.state.slots, mid.state.posted;
      && (forall i :: 0 <= i < |events| ==>
            var e := events[i];
            && e.slot < |slots| == |slots'|
            && slots'[e.slot] == slots[e.slot].(readable := e.input || e.hangup, writable := e.output || e.hangup)
            && (PostedNode(e.slot) in posts <==> e.input || e.output || e.hangup))
      && (forall j :: 0 <= j < |slots| && (forall i :: 0 <= i < |events| ==> events[i].slot != j) ==>
            slots'[j] == slots[j])
      && |trace| == |posts| + 1 && Distinct(posts)
      && (forall k: nat :: k < |posts| ==>
            trace[k].posted == posts[k..] && Turn(trace[k], trace[k + 1], round.reactions(k)))
  {
    var posts := mid.state.posted;
    AllShow(seen, s.state.slots, EventsOf(round, seen));
    PassedInOrder(trace, mid.state, s'.state, round.reactions, |trace| - 1);
    forall k: nat | k < |posts|
      ensures trace[k].posted == posts[k..] && Turn(trace[k], trace[k + 1], round.reactions(k))
    {
      PassedInOrder(trace, mid.state, s'.state, round.reactions, k);
    }
  }

  // ----- runs

  ghost predicate PassAt(run: seq<Stop>, rounds: seq<Round>, k: int)
    requires 0 <= k < |run| - 1 && k < |rounds|
  {
    Passes(run[k], rounds[k], run[k + 1])
  }

  /** The stops of a run: each round leads from one to the next. */
  ghost predicate Course(run: seq<Stop>, rounds: seq<Round>) {
    run != [] && |run| <= |rounds| + 1 && forall k :: 0 <= k < |run| - 1 ==> PassAt(run, rounds, k)
  }

  lemma {:induction false} CourseGrows(run: seq<Stop>, rounds: seq<Round>, s: Stop)
    requires Course(run, rounds) && |run| <= |rounds| && Passes(run[|run| - 1], rounds[|run| - 1], s)
    ensures Course(run + [s], rounds)
  {
    var run' := run + [s];
    forall k | 0 <= k < |run'| - 1 ensures PassAt(run', rounds, k) {
      if k < |run| - 1 {
        assert PassAt(run, rounds, k);
      }
    }
  }

  ghost predicate NoneFailed(rounds: seq<Round>, n: int)
    requires n <= |rounds|
  {
    forall k :: 0 <= k < n ==> !rounds[k].wait.WaitFailed?
  }

  /** The run is over, for one of three reasons: the script is, or the last wait has failed, or the next call runs into
      the assert on a mark.  None of the waits before has failed. */
  ghost predicate Ended(run: seq<Stop>, rounds: seq<Round>, end: Outcome, last: Stop)
    requires Course(run, rounds)
  {
    var n := |run| - 1;
    match end
    case GoesOnWith => n == |rounds| && run[n] == last && NoneFailed(rounds, n)
    case WaitFails => 0 < n && run[n] == last && rounds[n - 1].wait.WaitFailed? && NoneFailed(rounds, n - 1)
    case Aborts => n < |rounds| && AcceptLock.RunsInto(Seat(run[n]), CallAt(run[n], rounds[n])) && NoneFailed(rounds, n)
  }

  /** The same after `k` rounds. */
  ghost predicate Reached(run: seq<Stop>, rounds: seq<Round>, k: nat, end: Outcome, last: Stop)
    requires Course(run, rounds)
  {
    if end == GoesOnWith then k <= |rounds| && |run| == k + 1 && run[k] == last && NoneFailed(rounds, k)
    else Ended(run, rounds, end, last)
  }

  /** A run from `first` that has come to `last` after `k` rounds, every stop of it at rest. */
  ghost predicate OnRun(first: Stop, run: seq<Stop>, rounds: seq<Round>, k: nat, end: Outcome, last: Stop, max: nat,
      configured: nat)
  {
    && Course(run, rounds) && run[0] == first && Reached(run, rounds, k, end, last) && AllAtRest(run, max, configured)
  }

  lemma {:induction false} RunStarts(s: Stop, rounds: seq<Round>, max: nat, configured: nat)
    requires AtRest(s, max, configured)
    ensures OnRun(s, [s], rounds, 0, GoesOnWith, s, max, configured)
  {}

  lemma {:induction false} RunGoesOn(first: Stop, run: seq<Stop>, rounds: seq<Round>, k: nat, s: Stop, end: Outcome,
      s': Stop, max: nat, configured: nat)
    requires OnRun(first, run, rounds, k, GoesOnWith, s, max, configured) && k < |rounds|
    requires if end == Aborts then AcceptLock.RunsInto(Seat(s), CallAt(s, rounds[k]))
             else Passes(s, rounds[k], s') && AtRest(s', max, configured)
                  && (end == WaitFails <==> rounds[k].wait.WaitFailed?)
    ensures OnRun(first, if end == Aborts then run else run + [s'], rounds, k + 1, end, s', max, configured)
  {
    PassTaken(run, rounds, k, s, end, s');
  }

  /** One more pass, or one that aborts. */
  lemma {:induction false} PassTaken(run: seq<Stop>, rounds: seq<Round>, k: nat, s: Stop, end: Outcome, s': Stop)
    requires Course(run, rounds) && Reached(run, rounds, k, GoesOnWith, s) && k < |rounds|
    requires if end == Aborts then AcceptLock.RunsInto(Seat(s), CallAt(s, rounds[k]))
             else Passes(s, rounds[k], s') && (end == WaitFails <==> rounds[k].wait.WaitFailed?)
    ensures end == Aborts ==> Reached(run, rounds, k + 1, end, s')
    ensures end != Aborts ==> Course(run + [s'], rounds) && Reached(run + [s'], rounds, k + 1, end, s')
  {
    if end != Aborts {
      CourseGrows(run, rounds, s');
    }
  }

  /** What the end of a run says of its stops. */
  lemma {:induction false} RunMeans(run: seq<Stop>, rounds: seq<Round>, end: Outcome, last: Stop, max: nat,
      configured: nat)
    requires Course(run, rounds) && Ended(run, rounds, end, last) && AllAtRest(run, max, configured)
    ensures end == GoesOnWith ==> |run| == |rounds| + 1
    ensures end == WaitFails <==> |run| > 1 && rounds[|run| - 2].wait.WaitFailed?
    ensures forall s <- run ::
      s.state.posted == [] && s.state.power >= -(max / 8) - (configured - |s.state.servers|)
  {}

  /** The calls of the first `n` rounds. */
  ghost function Calls(run: seq<Stop>, rounds: seq<Round>, n: nat): seq<AcceptLock.Call>
    requires n <= |run| && n <= |rounds|
  {
    if n == 0 then [] else Calls(run, rounds, n - 1) + [CallAt(run[n - 1], rounds[n - 1])]
  }

  /** The kernel answers for each of the `n` listeners. */
  ghost predicate AllAnswered(n: nat, rounds: seq<Round>) {
    forall r <- rounds :: |r.adds| == n == |r.deletes|
  }

  lemma {:induction false} PassSeat(s: Stop, round: Round, s': Stop)
    requires Passes(s, round, s')
    ensures !AcceptLock.RunsInto(Seat(s), CallAt(s, round))
    ensures Seat(s') == AcceptLock.Solo(Seat(s), AcceptLock.ActsOf(CallAt(s, round)))
  {
    var seen, mid, trace :| PassBy(s, round, seen, mid, trace, s');
  }

  ghost predicate SeatNext(run: seq<Stop>, rounds: seq<Round>, k: nat)
    requires 0 < k < |run| <= |rounds| + 1
  {
    Next(Seat(run[k - 1]), CallAt(run[k - 1], rounds[k - 1]), Seat(run[k]))
  }

  ghost predicate SeatThere(run: seq<Stop>, rounds: seq<Round>, k: nat)
    requires k < |run| <= |rounds| + 1
  {
    Seat(run[k]) == AcceptLock.After(Seat(run[0]), Calls(run, rounds, k))
  }

  lemma {:induction false} SeatsFollow(run: seq<Stop>, rounds: seq<Round>, k: nat)
    requires k < |run| <= |rounds| + 1 && forall j: nat :: 0 < j <= k ==> SeatNext(run, rounds, j)
    ensures SeatThere(run, rounds, k)
  {
    if k == 0 {
    } else {
      SeatsFollow(run, rounds, k - 1);
      OneSeat(run, rounds, k);
    }
  }

  lemma {:induction false} OneSeat(run: seq<Stop>, rounds: seq<Round>, k: nat)
    requires 0 < k < |run| <= |rounds| + 1 && SeatNext(run, rounds, k) && SeatThere(run, rounds, k - 1)
    ensures SeatThere(run, rounds, k)
  {
    var calls, call := Calls(run, rounds, k - 1), CallAt(run[k - 1], rounds[k - 1]);
    CallsGrow(Seat(run[0]), calls, call, Seat(run[k - 1]), Seat(run[k]));
  }

  /** At every stop marks and registrations are those after the calls so far. */
  lemma {:induction false} CourseSeat(run: seq<Stop>, rounds: seq<Round>, k: nat)
    requires Course(run, rounds) && k < |run|
    ensures Seat(run[k]) == AcceptLock.After(Seat(run[0]), Calls(run, rounds, k))
  {
    forall j: nat | 0 < j <= k ensures SeatNext(run, rounds, j) {
      assert PassAt(run, rounds, j - 1);
      PassSeat(run[j - 1], rounds[j - 1], run[j]);
    }
    SeatsFollow(run, rounds, k);
  }

  lemma {:induction false} CallsFit(run: seq<Stop>, rounds: seq<Round>, n: nat, k: nat)
    requires k <= |run| && k <= |rounds| && AllAnswered(n, rounds)
    ensures AcceptLock.AllFit(n, Calls(run, rounds, k))
    ensures (forall r <- rounds :: !AcceptLock.Leaves(AcceptLock.Held(r.adds, r.deletes))) ==>
      forall c <- Calls(run, rounds, k) :: !AcceptLock.Leaves(c)
  {
    if k == 0 {
    } else {
      CallsFit(run, rounds, n, k - 1);
      assert rounds[k - 1] in rounds;
    }
  }

  /** A run that starts without marks and whose calls so far all leave none does not abort, and ends without marks. */
  lemma {:induction false} NoMarkNoAbort(run: seq<Stop>, rounds: seq<Round>, end: Outcome, last: Stop)
    requires Course(run, rounds) && Ended(run, rounds, end, last)
    requires |run[0].tags| == |run[0].state.servers| && AllAnswered(|run[0].tags|, rounds) && NoneSet(run[0].tags)
    requires forall c <- Calls(run, rounds, |run| - 1) :: !AcceptLock.Leaves(c)
    ensures end != Aborts && NoneSet(run[|run| - 1].tags)
  {
    var n, m := |run| - 1, Seat(run[0]);
    var calls := Calls(run, rounds, n);
    CourseSeat(run, rounds, n);
    CallsFit(run, rounds, |m.tags|, n);
    AcceptLock.AfterOutside(m, calls);
    if end == Aborts {
      assert rounds[n] in rounds;
      AcceptLock.RunsIntoExactly(Seat(run[n]), CallAt(run[n], rounds[n]));
    }
  }

  /** What the kernel answers decides: if in no round a failed addition is preceded by a failed deletion, the run does
      not abort. */
  lemma {:induction false} AnswersDecide(run: seq<Stop>, rounds: seq<Round>, end: Outcome, last: Stop)
    requires Course(run, rounds) && Ended(run, rounds, end, last)
    requires |run[0].tags| == |run[0].state.servers| && AllAnswered(|run[0].tags|, rounds) && NoneSet(run[0].tags)
    requires forall r <- rounds :: !AcceptLock.Leaves(AcceptLock.Held(r.adds, r.deletes))
    ensures end != Aborts && NoneSet(run[|run| - 1].tags)
  {
    CallsFit(run, rounds, |run[0].tags|, |run| - 1);
    NoMarkNoAbort(run, rounds, end, last);
  }
}
