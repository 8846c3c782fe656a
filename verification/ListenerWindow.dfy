/** The listeners of one worker as marks and registrations, the way `AcceptLock` looks at them, and the two loops
    around the wait in these terms (src/modules/epoll_module.c). */
module ListenerWindow {
  import opened AcceptLock
  import opened Sequences
  import opened WorkerState

  /** Which listeners are watched, listener by listener. */
  ghost function Watching(servers: seq<nat>, watched: map<nat, bool>): (w: seq<bool>)
    ensures |w| == |servers|
  {
    if servers == [] then [] else [servers[0] in watched] + Watching(servers[1..], watched)
  }

  /** What is watched besides listeners. */
  ghost function Others(watched: map<nat, bool>, servers: seq<nat>): map<nat, bool> {
    map i | i in watched && i !in servers :: watched[i]
  }

  lemma {:induction false} WatchingAt(servers: seq<nat>, watched: map<nat, bool>, j: nat)
    requires j < |servers|
    ensures Watching(servers, watched)[j] <==> servers[j] in watched
  {
    if j == 0 {
    } else {
      WatchingAt(servers[1..], watched, j - 1);
    }
  }

  /** The listeners do not notice what happens to other sockets. */
  lemma {:induction false} WatchingSame(servers: seq<nat>, watched: map<nat, bool>, watched': map<nat, bool>)
    requires forall j <- servers :: j in watched' <==> j in watched
    ensures Watching(servers, watched') == Watching(servers, watched)
  {
    if servers == [] {
    } else {
      WatchingSame(servers[1..], watched, watched');
    }
  }

  /** Where two interest lists agree on all but the listeners. */
  lemma {:induction false} OthersAt(servers: seq<nat>, watched: map<nat, bool>, watched': map<nat, bool>, i: nat)
    requires Others(watched', servers) == Others(watched, servers) && i !in servers
    ensures i in watched' <==> i in watched
    ensures i in watched ==> watched'[i] == watched[i]
  {
    assert i in Others(watched, servers) <==> i in watched;
    assert i in Others(watched', servers) <==> i in watched';
    if i in watched {
      assert Others(watched, servers)[i] == Others(watched', servers)[i];
    }
  }

  lemma {:induction false} DistinctFrom(servers: seq<nat>, i: nat, j: nat)
    requires Distinct(servers) && i < |servers| && j < |servers| && i != j
    ensures servers[i] != servers[j]
  {
    if i < j {
      DistinctAt(servers, i, j);
    } else {
      DistinctAt(servers, j, i);
    }
  }

  /** Registering or deleting one listener sets or clears its flag. */
  lemma {:induction false} WatchOne(servers: seq<nat>, watched: map<nat, bool>, i: nat, stale: bool)
    requires Distinct(servers) && i < |servers|
    ensures Watching(servers, watched[servers[i] := stale]) == Watching(servers, watched)[i := true]
    ensures Watching(servers, watched - {servers[i]}) == Watching(servers, watched)[i := false]
    ensures Others(watched[servers[i] := stale], servers) == Others(watched, servers) ==
      Others(watched - {servers[i]}, servers)
  {
    var add, del := watched[servers[i] := stale], watched - {servers[i]};
    forall j | 0 <= j < |servers|
      ensures Watching(servers, add)[j] == (j == i || Watching(servers, watched)[j])
      ensures Watching(servers, del)[j] == (j != i && Watching(servers, watched)[j])
    {
      WatchingAt(servers, watched, j);
      WatchingAt(servers, add, j);
      WatchingAt(servers, del, j);
      if j != i {
        DistinctFrom(servers, i, j);
      }
    }
  }

  /** A listener comes to be watched, or ceases to be: the accounts do not mind. */
  lemma {:induction false} WatchAgrees(st: State, limit: int, i: nat)
    requires Agree(st, limit, Nothing) && i in st.servers
    ensures Agree(st.(watched := st.watched[i := st.slots[i].stale]), limit, Nothing)
    ensures Agree(st.(watched := st.watched - {i}), limit, Nothing)
  {}

  lemma {:induction false} ServersDistinct(st: State, limit: int)
    requires Agree(st, limit, Nothing)
    ensures Distinct(st.servers)
  {}

  /** The adding loop has come to listener `i`, and none so far was marked or failed to be added. */
  ghost predicate Opening(tags: seq<bool>, w: seq<bool>, adds: seq<bool>, w': seq<bool>, i: nat) {
    && |tags| == |w| == |adds| && i <= FirstFailure(adds) && Added(w, w', 0, i)
    && forall j :: 0 <= j < i ==> !tags[j]
  }

  /** What the adding loop leaves: it fails exactly at a mark, and else it stops at the first failure, which it
      marks. */
  ghost predicate OpeningDone(tags: seq<bool>, w: seq<bool>, adds: seq<bool>, ok: bool, tags': seq<bool>, w': seq<bool>)
    requires |tags| == |adds|
  {
    && (!ok <==> MarkUpTo(tags, FirstFailure(adds)))
    && (ok ==> tags' == Marked(tags, adds) && Added(w, w', 0, FirstFailure(adds)))
  }

  /** One turn of the adding loop, or its end. */
  lemma {:induction false} OpeningNext(tags: seq<bool>, w: seq<bool>, adds: seq<bool>, w': seq<bool>, i: nat)
    requires Opening(tags, w, adds, w', i)
    ensures i == |tags| ==> OpeningDone(tags, w, adds, true, tags, w')
    ensures i < |tags| && tags[i] ==> OpeningDone(tags, w, adds, false, tags, w')
    ensures i < |tags| && !tags[i] && !adds[i] ==> OpeningDone(tags, w, adds, true, tags[i := true], w')
    ensures i < |tags| && !tags[i] && adds[i] ==> Opening(tags, w, adds, w'[i := true], i + 1)
  {
    if i < |tags| {
      FailureNext(adds, i);
    }
  }

  /** In other words.  The adding loop fails if it comes to a marked listener with all additions before having
      succeeded; else the listeners before the first that cannot be added are watched as well, and that one is
      marked. */
  lemma {:induction false} OpenMeans(servers: seq<nat>, tags: seq<bool>, watched: map<nat, bool>, adds: seq<bool>,
      ok: bool, tags': seq<bool>, watched': map<nat, bool>)
    requires |servers| == |tags| == |adds|
    requires OpeningDone(tags, Watching(servers, watched), adds, ok, tags', Watching(servers, watched'))
    ensures !ok <==> exists j :: 0 <= j < |servers| && tags[j] && forall i :: 0 <= i < j ==> adds[i]
    ensures ok ==> |tags'| == |tags| && forall j :: 0 <= j < |servers| ==>
      && (servers[j] in watched' <==> servers[j] in watched || forall i :: 0 <= i <= j ==> adds[i])
      && (tags'[j] <==> tags[j] || (!adds[j] && forall i :: 0 <= i < j ==> adds[i]))
  {
    var f := FirstFailure(adds);
    if j :| 0 <= j < |servers| && tags[j] && forall i :: 0 <= i < j ==> adds[i] {
      assert j <= f;
    }
    if !ok {
      var j :| 0 <= j < |tags| && j <= f && tags[j];
      assert forall i :: 0 <= i < j ==> adds[i];
    } else {
      forall j | 0 <= j < |servers|
        ensures servers[j] in watched' <==> servers[j] in watched || forall i :: 0 <= i <= j ==> adds[i]
      {
        WatchingAt(servers, watched, j);
        WatchingAt(servers, watched', j);
      }
    }
  }

  /** The deleting loop goes past a listener if each one up to it is marked or can be deleted: then its mark is cleared,
      or its registration gone.  Nothing else changes. */
  lemma {:induction false} CloseMeans(servers: seq<nat>, tags: seq<bool>, watched: map<nat, bool>, deletes: seq<bool>,
      tags': seq<bool>, watched': map<nat, bool>)
    requires |servers| == |tags| == |deletes|
    requires Deleted(tags, Watching(servers, watched), tags', Watching(servers, watched'), 0, Stop(tags, deletes))
    ensures |tags'| == |servers| && forall j :: 0 <= j < |servers| ==>
      var past := forall i :: 0 <= i <= j ==> tags[i] || deletes[i];
      && (tags'[j] <==> tags[j] && !past)
      && (servers[j] in watched' <==> servers[j] in watched && (!past || tags[j]))
  {
    var e := Stop(tags, deletes);
    forall j | 0 <= j < |servers|
      ensures (forall i :: 0 <= i <= j ==> tags[i] || deletes[i]) <==> j < e
      ensures servers[j] in watched' <==> servers[j] in watched && (j >= e || tags[j])
    {
      WatchingAt(servers, watched, j);
      WatchingAt(servers, watched', j);
      assert j >= e ==> !(tags[e] || deletes[e]);
    }
  }

  /** Both loops together are one call as `AcceptLock` has it. */
  lemma {:induction false} BothLoops(t: seq<bool>, w: seq<bool>, adds: seq<bool>, deletes: seq<bool>, w1: seq<bool>,
      t2: seq<bool>, w2: seq<bool>)
    requires |t| == |w| == |adds| == |deletes| && Added(w, w1, 0, FirstFailure(adds))
    requires var marks := Marked(t, adds); Deleted(marks, w1, t2, w2, 0, Stop(marks, deletes))
    ensures Called(t, w, adds, deletes, t2, w2)
  {}

  /** Handling a posted socket leaves the registrations of the listeners as they were. */
  lemma {:induction false} TurnWatches(st: State, st': State, limit: int, r: Reaction)
    requires Agree(st, limit, Nothing) && PostedLive(st) && Turn(st, st', r)
    ensures st'.servers == st.servers && Watching(st'.servers, st'.watched) == Watching(st.servers, st.watched)
  {
    assert st.posted[0] in st.posted;
    var i := st.posted[0].slot;
    var w :| Handled(st, st'.(posted := st.posted, words := w), i, r);
    HandledKept(st, st'.(posted := st.posted, words := w), limit, i, r);
    WatchingSame(st.servers, st.watched, st'.watched);
  }

  /** What was watched during the wait: all that is watched besides listeners and, if the lock was held, the listeners
      before the first that could not be added, and those left over. */
  ghost predicate SeenWith(seen: map<nat, bool>, watched: map<nat, bool>, servers: seq<nat>, held: bool,
      adds: seq<bool>)
  {
    if held then
      Others(seen, servers) == Others(watched, servers)
        && Added(Watching(servers, watched), Watching(servers, seen), 0, FirstFailure(adds))
    else seen == watched
  }

  /** A worker between two calls. */
  ghost function Between(tags: seq<bool>, servers: seq<nat>, watched: map<nat, bool>): Member {
    Member(Outside, false, tags, Watching(servers, watched))
  }

  /** The call that a round leads to. */
  ghost function CallOf(round: Round, power: int): Call {
    if power > 0 && round.lock then Held(round.adds, round.deletes) else NotHeld
  }

  /** The loops around the wait are `AcceptLock`'s steps, with the same outcomes. */
  lemma {:induction false} CallIsSolo(m: Member, m': Member, call: Call)
    requires m.phase.Outside? && !m.hold && |m.tags| == |m.watched| && Fits(|m.tags|, call) && m'.phase.Outside?
      && !m'.hold
    requires if call.Held? then Called(m.tags, m.watched, call.adds, call.deletes, m'.tags, m'.watched) else m' == m
    ensures m' == Solo(m, ActsOf(call))
  {
    if call.Held? {
      CallExactly(m, call.adds, call.deletes);
      var r := Solo(m, ActsOf(call));
      assert r.tags == m'.tags && r.watched == m'.watched;
    } else {
      NotHeldNothing(m);
    }
  }

  /** `call` leads from `a` to `b`. */
  ghost predicate Next(a: Member, call: Call, b: Member) {
    b == Solo(a, ActsOf(call))
  }

  /** One call more. */
  lemma {:induction false} CallsGrow(m: Member, calls: seq<Call>, call: Call, a: Member, b: Member)
    requires a == After(m, calls) && Next(a, call, b)
    ensures b == After(m, calls + [call])
  {
    assert (calls + [call])[..|calls|] == calls;
  }
}
