/** The accept lock and the listeners that its holder registers (src/modules/epoll_module.c,
    include/spinlock.h): many workers, each one's steps interleaved at will with the others'. */
module AcceptLock {
  import opened Sequences

  /** Where a worker is in `epoll_process_events`. */
  datatype Phase = Outside | Adding(next: nat) | Waiting | Deleting(next: nat) | Leaving

  /** `hold` means being between the successful try and the unlock (`m_hold_lock` is cleared a moment after the
      unlock); `tags` are the low bits of its `mpp_servers`; `watched` is which listeners its epoll set contains. */
  datatype Member = Member(phase: Phase, hold: bool, tags: seq<bool>, watched: seq<bool>)

  /** One step: the try for the lock, if the worker has the power for it; one `epoll_add_event` or
      `epoll_del_event`, with its outcome; the wait; the end of the call. */
  datatype Act = Try(power: bool) | AddOk | AddFails | Wait | DelOk | DelFails | Leave

  datatype System = System(lock: int, members: seq<Member>)

  /** A step of a worker as far as it goes for itself; `granted` is whether the lock word was 0.  A step that is
      not next in its program changes nothing. */
  function Local(m: Member, a: Act, granted: bool): Member {
    match m.phase
    case Outside =>
      if a.Try? then (if a.power && granted then m.(phase := Adding(0), hold := true)
        else m.(phase := Waiting, hold := false)) else m
    case Adding(i) =>
      if i >= |m.tags| || i >= |m.watched| then (if a.Wait? then m.(phase := Deleting(0)) else m)
      else if a.AddOk? then m.(phase := Adding(i + 1), watched := m.watched[i := true])
      else if a.AddFails? then m.(phase := Waiting, tags := m.tags[i := true])
      else m
    case Waiting =>
      if a.Wait? then m.(phase := if m.hold then Deleting(0) else Leaving) else m
    case Deleting(i) =>
      if i >= |m.tags| || i >= |m.watched| then (if a.Leave? then m.(phase := Outside, hold := false) else m)
      else if !a.DelOk? && !a.DelFails? then m
      else if m.tags[i] then m.(phase := Deleting(i + 1), tags := m.tags[i := false])
      else if a.DelOk? then m.(phase := Deleting(i + 1), watched := m.watched[i := false])
      else m.(phase := Leaving)
    case Leaving =>
      if a.Leave? then m.(phase := Outside, hold := false) else m
  }

  /** The lock word: set by the try that finds it 0, cleared by the holder's leave. */
  function Step(s: System, k: nat, a: Act): System
    requires k < |s.members|
  {
    var m := s.members[k];
    var m' := Local(m, a, s.lock == 0);
    System(if !m.hold && m'.hold then 1 else if m.hold && !m'.hold then 0 else s.lock, s.members[k := m'])
  }

  datatype Move = Move(worker: nat, act: Act)

  function Run(s: System, moves: seq<Move>): System {
    if moves == [] then s else
      var r := Run(s, moves[..|moves| - 1]);
      var x := moves[|moves| - 1];
      if x.worker < |r.members| then Step(r, x.worker, x.act) else r
  }

  function Clear(n: nat): seq<bool> {
    seq(n, i => false)
  }

  /** `workers` processes with `listeners` listeners each, as forked. */
  function Initial(workers: nat, listeners: nat): System {
    System(0, seq(workers, i => Member(Outside, false, Clear(listeners), Clear(listeners))))
  }

  // ----- mutual exclusion

  ghost predicate Exclusive(s: System) {
    && (forall k :: 0 <= k < |s.members| && s.members[k].hold ==> s.lock == 1)
    && (forall j, k :: 0 <= j < |s.members| && 0 <= k < |s.members| && s.members[j].hold && s.members[k].hold ==>
      j == k)
    && (s.lock == 0 || (s.lock == 1 && exists k :: 0 <= k < |s.members| && s.members[k].hold))
    && (forall k :: 0 <= k < |s.members| && s.members[k].phase.Outside? ==> !s.members[k].hold)
    && (forall k :: 0 <= k < |s.members| && (s.members[k].phase.Adding? || s.members[k].phase.Deleting?) ==>
      s.members[k].hold)
  }

  lemma {:induction false} StepExclusive(s: System, k: nat, a: Act)
    requires k < |s.members| && Exclusive(s)
    ensures Exclusive(Step(s, k, a))
  {
    var s' := Step(s, k, a);
    if s'.lock == 1 && !s'.members[k].hold {
      var j :| 0 <= j < |s.members| && s.members[j].hold;
      assert s'.members[j].hold;
    }
  }

  /** Whatever the kernel answers, at most one worker holds the lock, and the lock word says whether one does. */
  lemma {:induction false} OneHolder(workers: nat, listeners: nat, moves: seq<Move>)
    ensures Exclusive(Run(Initial(workers, listeners), moves))
    decreases |moves|
  {
    if moves == [] {
    } else {
      var x := moves[|moves| - 1];
      OneHolder(workers, listeners, moves[..|moves| - 1]);
      var r := Run(Initial(workers, listeners), moves[..|moves| - 1]);
      if x.worker < |r.members| {
        StepExclusive(r, x.worker, x.act);
      }
    }
  }

  // ----- what the holder leaves behind

  /** No mark, nothing registered. */
  predicate Clean(m: Member) {
    NoneSet(m.tags) && NoneSet(m.watched)
  }

  /** The assert at the head of the loop that adds listeners. */
  predicate AssertHolds(m: Member) {
    m.phase.Adding? && m.phase.next < |m.tags| ==> !m.tags[m.phase.next]
  }

  /** A worker's own share of the invariant, as long as no deletion fails. */
  ghost predicate Orderly(m: Member) {
    && |m.tags| == |m.watched|
    && (if m.hold then !m.phase.Outside? else Clean(m) && !m.phase.Adding? && !m.phase.Deleting?)
    && (m.phase.Outside? || m.phase.Leaving? ==> Clean(m))
    && (m.phase.Adding? ==> NoneSet(m.tags) && forall j :: m.phase.next <= j < |m.watched| ==> !m.watched[j])
    && (forall j :: 0 <= j < |m.tags| && m.tags[j] ==> !m.watched[j])
    && (m.phase.Deleting? ==> forall j :: 0 <= j < m.phase.next && j < |m.tags| ==> !m.tags[j] && !m.watched[j])
  }

  ghost predicate AllOrderly(s: System) {
    forall k :: 0 <= k < |s.members| ==> Orderly(s.members[k])
  }

  predicate NoDelFails(moves: seq<Move>) {
    forall i :: 0 <= i < |moves| ==> !moves[i].act.DelFails?
  }

  lemma {:induction false} LocalOrderly(m: Member, a: Act, granted: bool)
    requires Orderly(m) && !a.DelFails?
    ensures Orderly(Local(m, a, granted))
  {}

  lemma {:induction false} RunOrderly(workers: nat, listeners: nat, moves: seq<Move>)
    requires NoDelFails(moves)
    ensures AllOrderly(Run(Initial(workers, listeners), moves))
    decreases |moves|
  {
    if moves == [] {
    } else {
      var x := moves[|moves| - 1];
      RunOrderly(workers, listeners, moves[..|moves| - 1]);
      var r := Run(Initial(workers, listeners), moves[..|moves| - 1]);
      if x.worker < |r.members| {
        LocalOrderly(r.members[x.worker], x.act, r.lock == 0);
      }
    }
  }

  /** For any number of workers and any interleaving, as long as no deletion fails: only the holder of the lock has
      listeners registered, so no two workers have, every mark is gone when its worker is out of the call, and the
      assert holds whenever it is reached. */
  lemma {:induction false} OnlyTheHolderListens(workers: nat, listeners: nat, moves: seq<Move>, j: nat, k: nat)
    requires NoDelFails(moves)
    requires var s := Run(Initial(workers, listeners), moves); j < |s.members| && k < |s.members|
    ensures var s := Run(Initial(workers, listeners), moves);
      && (!NoneSet(s.members[j].watched) ==> s.members[j].hold && s.lock == 1)
      && (!NoneSet(s.members[j].watched) && !NoneSet(s.members[k].watched) ==> j == k)
      && (s.members[j].phase.Outside? ==> Clean(s.members[j]))
      && AssertHolds(s.members[j])
  {
    OneHolder(workers, listeners, moves);
    RunOrderly(workers, listeners, moves);
    var s := Run(Initial(workers, listeners), moves);
    assert Orderly(s.members[j]) && Orderly(s.members[k]);
  }

  // ----- one call, with any outcomes

  /** A worker's steps from outside the call to outside the call: the outcomes of the additions and of the
      deletions are given listener by listener; those that the program does not come to are not used. */
  function Solo(m: Member, acts: seq<Act>): Member
    decreases |acts|
  {
    if acts == [] then m else Solo(Local(m, acts[0], true), acts[1..])
  }

  function Adds(ok: seq<bool>): seq<Act> {
    if ok == [] then [] else [if ok[0] then AddOk else AddFails] + Adds(ok[1..])
  }

  function Deletes(ok: seq<bool>): seq<Act> {
    if ok == [] then [] else [if ok[0] then DelOk else DelFails] + Deletes(ok[1..])
  }

  /** A call that gets the lock, with its outcomes, or one that does not. */
  datatype Call = Held(adds: seq<bool>, deletes: seq<bool>) | NotHeld

  function ActsOf(call: Call): seq<Act> {
    match call
    case Held(adds, deletes) => ([Try(true)] + Adds(adds)) + ([Wait] + Deletes(deletes) + [Leave])
    case NotHeld => [Try(false)] + [Wait, Leave]
  }

  /** The first failure, or the length. */
  function FirstFailure(ok: seq<bool>): (i: nat)
    ensures i <= |ok| && (forall j :: 0 <= j < i ==> ok[j]) && (i < |ok| ==> !ok[i])
  {
    if ok == [] || !ok[0] then 0 else 1 + FirstFailure(ok[1..])
  }

  lemma {:induction false} FailureNext(ok: seq<bool>, i: nat)
    requires i < |ok| && i <= FirstFailure(ok)
    ensures if ok[i] then i + 1 <= FirstFailure(ok) else FirstFailure(ok) == i
  {}

  /** Where the deleting loop stops: at the first listener that has no mark and cannot be deleted. */
  function Stop(tags: seq<bool>, ok: seq<bool>): (i: nat)
    requires |tags| == |ok|
    ensures i <= |ok| && (forall j :: 0 <= j < i ==> tags[j] || ok[j]) && (i < |ok| ==> !tags[i] && !ok[i])
  {
    if ok == [] || (!tags[0] && !ok[0]) then 0 else 1 + Stop(tags[1..], ok[1..])
  }

  lemma {:induction false} StopNext(tags: seq<bool>, ok: seq<bool>, i: nat)
    requires |tags| == |ok| && i < |ok| && i <= Stop(tags, ok)
    ensures if tags[i] || ok[i] then i + 1 <= Stop(tags, ok) else Stop(tags, ok) == i
  {}

  /** The marks once the adding loop is done. */
  function Marked(tags: seq<bool>, adds: seq<bool>): (r: seq<bool>)
    requires |tags| == |adds|
    ensures |r| == |tags|
  {
    var f := FirstFailure(adds);
    if f < |tags| then tags[f := true] else tags
  }

  /** What one call makes of any marks and registrations. */
  ghost predicate Called(tags: seq<bool>, watched: seq<bool>, adds: seq<bool>, deletes: seq<bool>, tags': seq<bool>,
      watched': seq<bool>)
  {
    && |tags| == |watched| == |adds| == |deletes| == |tags'| == |watched'|
    && var marks := Marked(tags, adds);
    var stop := Stop(marks, deletes);
    && (forall j :: 0 <= j < |tags| ==> tags'[j] == (marks[j] && j >= stop))
    && (forall j :: 0 <= j < |tags| ==>
      watched'[j] == ((watched[j] || j < FirstFailure(adds)) && (j >= stop || marks[j])))
  }

  lemma {:induction false} SoloAppend(m: Member, a: seq<Act>, b: seq<Act>)
    ensures Solo(m, a + b) == Solo(Solo(m, a), b)
    decreases |a|
  {
    if a == [] {
      assert a + b == b;
    } else {
      assert (a + b)[1..] == a[1..] + b;
      SoloAppend(Local(m, a[0], true), a[1..], b);
    }
  }

  lemma {:induction false} SoloOne(m: Member, a: Act)
    ensures Solo(m, [a]) == Local(m, a, true)
  {
    assert [a][1..] == [];
  }

  /** A step as the worker sees it: the lock is got if the worker has the power and the lock word is 0. */
  function Granted(a: Act, free: bool): Act {
    if a.Try? then Try(a.power && free) else a
  }

  /** What worker `k` goes through in a run. */
  function OwnActs(s: System, moves: seq<Move>, k: nat): seq<Act> {
    if moves == [] then [] else
      var prev, x := moves[..|moves| - 1], moves[|moves| - 1];
      OwnActs(s, prev, k) + (if x.worker == k then [Granted(x.act, Run(s, prev).lock == 0)] else [])
  }

  /** In whatever way the workers' steps are interleaved, each worker ends up where its own steps alone lead it: what
      is proved of one worker's calls holds in every run. */
  lemma {:induction false} OwnRun(s: System, moves: seq<Move>, k: nat)
    requires k < |s.members|
    ensures |Run(s, moves).members| == |s.members|
    ensures Run(s, moves).members[k] == Solo(s.members[k], OwnActs(s, moves, k))
    decreases |moves|
  {
    if moves == [] {
    } else {
      var prev, x := moves[..|moves| - 1], moves[|moves| - 1];
      OwnRun(s, prev, k);
      if x.worker == k {
        var r := Run(s, prev);
        var a := Granted(x.act, r.lock == 0);
        SoloAppend(s.members[k], OwnActs(s, prev, k), [a]);
        SoloOne(r.members[k], a);
      } else {
        assert OwnActs(s, moves, k) == OwnActs(s, prev, k);
      }
    }
  }

  /** A worker that has stopped adding (or deleting) ignores the outcomes that are left. */
  lemma {:induction false} NoMoreAdds(m: Member, ok: seq<bool>)
    requires m.phase.Waiting?
    ensures Solo(m, Adds(ok)) == m
  {
    if ok == [] {
    } else {
      NoMoreAdds(m, ok[1..]);
    }
  }

  lemma {:induction false} NoMoreDeletes(m: Member, ok: seq<bool>)
    requires m.phase.Leaving?
    ensures Solo(m, Deletes(ok)) == m
  {
    if ok == [] {
    } else {
      NoMoreDeletes(m, ok[1..]);
    }
  }

  /** The listeners `[i, f)` have been registered, over the registrations `w`. */
  ghost predicate Added(w: seq<bool>, w': seq<bool>, i: nat, f: nat) {
    |w'| == |w| && forall j :: 0 <= j < |w| ==> w'[j] == (w[j] || i <= j < f)
  }

  lemma {:induction false} AddedMore(w: seq<bool>, w': seq<bool>, i: nat, f: nat)
    requires i < |w| && i < f && Added(w[i := true], w', i + 1, f)
    ensures Added(w, w', i, f)
  {}

  /** Of the listeners `[i, e)` those that are marked in `t` have lost their mark, and the others their registration. */
  ghost predicate Deleted(t: seq<bool>, w: seq<bool>, t': seq<bool>, w': seq<bool>, i: nat, e: nat) {
    && |t'| == |t| == |w| == |w'|
    && forall j :: 0 <= j < |t| ==>
         if i <= j < e then t'[j] == false && w'[j] == (w[j] && t[j]) else t'[j] == t[j] && w'[j] == w[j]
  }

  lemma {:induction false} DeletedMore(t: seq<bool>, w: seq<bool>, t1: seq<bool>, w1: seq<bool>, t': seq<bool>,
      w': seq<bool>, i: nat, e: nat)
    requires i < |t| == |w| && i < e && Deleted(t1, w1, t', w', i + 1, e)
    requires if t[i] then t1 == t[i := false] && w1 == w else t1 == t && w1 == w[i := false]
    ensures Deleted(t, w, t', w', i, e)
  {}

  /** Additions up to the first failure, which is marked. */
  lemma {:induction false} AddingEnds(m: Member, i: nat, ok: seq<bool>)
    requires m.phase == Adding(i) && i + |ok| <= |m.tags| == |m.watched|
    ensures var f := i + FirstFailure(ok);
      var r := Solo(m, Adds(ok));
      && r.hold == m.hold && r.phase == (if f == i + |ok| then Adding(f) else Waiting)
      && r.tags == (if f == i + |ok| then m.tags else m.tags[f := true])
      && Added(m.watched, r.watched, i, f)
    decreases |ok|
  {
    if ok == [] {
    } else {
      var m' := Local(m, if ok[0] then AddOk else AddFails, true);
      if ok[0] {
        AddingEnds(m', i + 1, ok[1..]);
        AddedMore(m.watched, Solo(m', Adds(ok[1..])).watched, i, i + FirstFailure(ok));
      } else {
        NoMoreAdds(m', ok[1..]);
      }
    }
  }

  lemma {:induction false} StopFrom(tags: seq<bool>, ok: seq<bool>, i: nat, tags': seq<bool>)
    requires i < |tags| == i + |ok| && (tags' == tags || tags' == tags[i := false])
    ensures Stop(tags[i..], ok) == if tags[i] || ok[0] then 1 + Stop(tags'[i + 1..], ok[1..]) else 0
  {
    assert tags[i..][1..] == tags[i + 1..] == tags'[i + 1..];
  }

  /** Deletions up to the first that fails; a mark is cleared, and then its listener is not deleted. */
  lemma {:induction false} DeletingEnds(m: Member, i: nat, ok: seq<bool>, e: nat)
    requires m.phase == Deleting(i) && i + |ok| == |m.tags| == |m.watched| && e == i + Stop(m.tags[i..], ok)
    ensures var r := Solo(m, Deletes(ok));
      (r.phase.Leaving? || r.phase == Deleting(|m.tags|)) && Deleted(m.tags, m.watched, r.tags, r.watched, i, e)
    decreases |ok|
  {
    if ok == [] {
    } else {
      var m' := Local(m, if ok[0] then DelOk else DelFails, true);
      StopFrom(m.tags, ok, i, if m.tags[i] then m.tags[i := false] else m.tags);
      if m.tags[i] || ok[0] {
        var r := Solo(m', Deletes(ok[1..]));
        DeletingEnds(m', i + 1, ok[1..], e);
        DeletedMore(m.tags, m.watched, m'.tags, m'.watched, r.tags, r.watched, i, e);
      } else {
        NoMoreDeletes(m', ok[1..]);
      }
    }
  }

  /** The call in closed form, whatever marks and registrations it starts with and whatever the kernel answers. */
  lemma {:induction false} CallExactly(m: Member, adds: seq<bool>, deletes: seq<bool>)
    requires m.phase.Outside? && |m.tags| == |m.watched| == |adds| == |deletes|
    ensures var r := Solo(m, ActsOf(Held(adds, deletes)));
      r.phase.Outside? && !r.hold && Called(m.tags, m.watched, adds, deletes, r.tags, r.watched)
  {
    SoloAppend(m, [Try(true)] + Adds(adds), [Wait] + Deletes(deletes) + [Leave]);
    var m2 := AfterTry(m, adds);
    SoloAppend(m2, [Wait] + Deletes(deletes), [Leave]);
    SoloAppend(m2, [Wait], Deletes(deletes));
    SoloOne(m2, Wait);
    var m3 := m2.(phase := Deleting(0));
    assert m3.tags[0..] == m3.tags;
    DeletingEnds(m3, 0, deletes, Stop(m3.tags, deletes));
    SoloOne(Solo(m3, Deletes(deletes)), Leave);
  }

  /** The adding part of a call. */
  lemma {:induction false} AfterTry(m: Member, ok: seq<bool>) returns (r: Member)
    requires m.phase.Outside? && |ok| <= |m.tags| == |m.watched|
    ensures r == Solo(m, [Try(true)] + Adds(ok)) && r.hold
    ensures var f := FirstFailure(ok);
      && r.phase == (if f == |ok| then Adding(f) else Waiting)
        && r.tags == (if f == |ok| then m.tags else m.tags[f := true])
      && Added(m.watched, r.watched, 0, f)
  {
    r := Solo(m, [Try(true)] + Adds(ok));
    SoloAppend(m, [Try(true)], Adds(ok));
    SoloOne(m, Try(true));
    AddingEnds(m.(phase := Adding(0), hold := true), 0, ok);
  }

  /** A call that does not get the lock changes nothing. */
  lemma {:induction false} NotHeldNothing(m: Member)
    requires m.phase.Outside?
    ensures Solo(m, ActsOf(NotHeld)) == m.(hold := false)
  {
    var acts := ActsOf(NotHeld);
    assert acts == [Try(false)] + ([Wait] + [Leave]);
    SoloAppend(m, [Try(false)], [Wait] + [Leave]);
    SoloOne(m, Try(false));
    var m1 := m.(phase := Waiting, hold := false);
    SoloAppend(m1, [Wait], [Leave]);
    SoloOne(m1, Wait);
    SoloOne(m1.(phase := Leaving), Leave);
  }

  // ----- what a call leaves behind

  /** A failed addition that was preceded by a failed deletion, in the order of the listeners. */
  predicate Leaves(call: Call) {
    call.Held? && FirstFailure(call.deletes) < FirstFailure(call.adds) < |call.adds|
  }

  lemma {:induction false} StopAt(tags: seq<bool>, ok: seq<bool>, f: nat)
    requires |tags| == |ok| && f <= |ok| && forall j :: 0 <= j < |tags| ==> (tags[j] <==> j == f)
    ensures Stop(tags, ok) >= f <==> FirstFailure(ok) >= f
    ensures FirstFailure(ok) < f ==> Stop(tags, ok) == FirstFailure(ok)
  {
    var s, e := Stop(tags, ok), FirstFailure(ok);
    assert e < f ==> !tags[e] && !ok[e];
    assert s < f ==> !ok[s];
  }

  /** From a state without marks a call leaves a mark if and only if a failed deletion precedes the failed addition,
      whatever was registered before. */
  lemma {:induction false} MarkLeft(tags: seq<bool>, watched: seq<bool>, adds: seq<bool>, deletes: seq<bool>,
      tags': seq<bool>, watched': seq<bool>)
    requires NoneSet(tags) && Called(tags, watched, adds, deletes, tags', watched')
    ensures NoneSet(tags') <==> !Leaves(Held(adds, deletes))
  {
    var f := FirstFailure(adds);
    var marks := Marked(tags, adds);
    StopAt(marks, deletes, f);
    assert f < |adds| ==> tags'[f] == (marks[f] && f >= Stop(marks, deletes));
  }

  /** From a clean state a call leaves neither a mark nor a registration behind if and only if no deletion fails
      before the first listener that could not be added. */
  lemma {:induction false} CallClean(tags: seq<bool>, watched: seq<bool>, adds: seq<bool>, deletes: seq<bool>,
      tags': seq<bool>, watched': seq<bool>)
    requires NoneSet(tags) && NoneSet(watched) && Called(tags, watched, adds, deletes, tags', watched')
    ensures NoneSet(tags') && NoneSet(watched') <==> FirstFailure(deletes) >= FirstFailure(adds)
  {
    var f, e := FirstFailure(adds), FirstFailure(deletes);
    var marks := Marked(tags, adds);
    StopAt(marks, deletes, f);
    assert e < f ==> watched'[e];
  }

  // ----- the assert, over any sequence of calls

  /** Some step of the call finds the assert false. */
  ghost predicate RunsInto(m: Member, call: Call) {
    exists p :: 0 <= p <= |ActsOf(call)| && !AssertHolds(Solo(m, ActsOf(call)[..p]))
  }

  /** As long as nothing is tried, no addition is reached. */
  lemma {:induction false} NeverAdding(m: Member, acts: seq<Act>)
    requires !m.phase.Adding? && forall a <- acts :: !a.Try?
    ensures !Solo(m, acts).phase.Adding?
    decreases |acts|
  {
    if acts == [] {
    } else {
      NeverAdding(Local(m, acts[0], true), acts[1..]);
    }
  }

  lemma {:induction false} AddsPrefix(ok: seq<bool>, p: nat)
    requires p <= |ok|
    ensures |Adds(ok)| == |ok| && Adds(ok)[..p] == Adds(ok[..p])
  {
    if p > 0 {
      AddsPrefix(ok[1..], p - 1);
      assert ok[..p][1..] == ok[1..][..p - 1] && Adds(ok)[..p] == [Adds(ok)[0]] + Adds(ok[1..])[..p - 1];
    } else if ok != [] {
      AddsPrefix(ok[1..], 0);
    }
  }

  lemma {:induction false} NoTry(ok: seq<bool>)
    ensures forall a <- Deletes(ok) :: !a.Try?
  {
    if ok == [] {
    } else {
      NoTry(ok[1..]);
    }
  }

  /** The state in which the assert is evaluated for listener `i`. */
  lemma {:induction false} AtListener(m: Member, adds: seq<bool>, deletes: seq<bool>, i: nat)
    requires m.phase.Outside? && |m.tags| == |m.watched| == |adds| && i <= |adds|
    ensures var acts := ActsOf(Held(adds, deletes));
      i + 1 <= |acts| && acts[..i + 1] == [Try(true)] + Adds(adds[..i])
  {
    AddsPrefix(adds, i);
    var first := [Try(true)] + Adds(adds);
    assert ActsOf(Held(adds, deletes))[..i + 1] == first[..i + 1] == [Try(true)] + Adds(adds)[..i];
  }

  lemma {:induction false} PrefixFailure(ok: seq<bool>, i: nat)
    requires i <= |ok|
    ensures FirstFailure(ok[..i]) == if FirstFailure(ok) < i then FirstFailure(ok) else i
  {
    var f, g := FirstFailure(ok), FirstFailure(ok[..i]);
    assert g < i ==> !ok[g];
    assert f < i ==> !ok[..i][f];
  }

  /** After the additions the assert is not evaluated any more. */
  lemma {:induction false} LaterSteps(m: Member, adds: seq<bool>, deletes: seq<bool>, p: nat)
    requires m.phase.Outside? && |m.tags| == |m.watched| == |adds| && |adds| + 1 < p <= |ActsOf(Held(adds, deletes))|
    ensures AssertHolds(Solo(m, ActsOf(Held(adds, deletes))[..p]))
  {
    var a, b := [Try(true)] + Adds(adds), [Wait] + Deletes(deletes) + [Leave];
    AddsPrefix(adds, |adds|);
    var c := b[..p - |a|];
    assert (a + b)[..p] == a + c && c == [Wait] + c[1..];
    SoloAppend(m, a, c);
    var m2 := AfterTry(m, adds);
    SoloAppend(m2, [Wait], c[1..]);
    SoloOne(m2, Wait);
    NoTry(deletes);
    assert forall x <- c[1..] :: x in b && !x.Try?;
    NeverAdding(m2.(phase := Deleting(0)), c[1..]);
  }

  ghost predicate MarkUpTo(tags: seq<bool>, f: nat) {
    exists i :: 0 <= i < |tags| && i <= f && tags[i]
  }

  /** A call runs into the assert if and only if it gets the lock and comes to a listener that is marked: one that
      lies no further than the first addition that fails. */
  lemma {:induction false} RunsIntoExactly(m: Member, call: Call)
    requires m.phase.Outside? && |m.tags| == |m.watched| && (call.Held? ==> |call.adds| == |m.tags|)
    ensures RunsInto(m, call) <==> call.Held? && MarkUpTo(m.tags, FirstFailure(call.adds))
  {
    var acts := ActsOf(call);
    if call.Held? {
      forall p | 0 <= p <= |acts|
        ensures !AssertHolds(Solo(m, acts[..p])) <==>
          1 <= p <= |m.tags| && p - 1 <= FirstFailure(call.adds) && m.tags[p - 1]
      {
        if p > |m.tags| + 1 {
          LaterSteps(m, call.adds, call.deletes, p);
        } else if p > 0 {
          AtListener(m, call.adds, call.deletes, p - 1);
          PrefixFailure(call.adds, p - 1);
          var r := AfterTry(m, call.adds[..p - 1]);
        }
      }
      forall i | 0 <= i < |m.tags| && i <= FirstFailure(call.adds) && m.tags[i] ensures RunsInto(m, call) {
        AtListener(m, call.adds, call.deletes, i);
        assert !AssertHolds(Solo(m, acts[..i + 1]));
      }
    } else {
      forall p | 0 <= p <= |acts| ensures AssertHolds(Solo(m, acts[..p])) {
        if p > 0 {
          assert acts[..p] == [Try(false)] + acts[1..p];
          SoloAppend(m, [Try(false)], acts[1..p]);
          SoloOne(m, Try(false));
          NeverAdding(m.(phase := Waiting, hold := false), acts[1..p]);
        }
      }
    }
  }

  function After(m: Member, calls: seq<Call>): Member {
    if calls == [] then m else Solo(After(m, calls[..|calls| - 1]), ActsOf(calls[|calls| - 1]))
  }

  /** The kernel answers for each of the `n` listeners. */
  predicate Fits(n: nat, call: Call) {
    call.Held? ==> |call.adds| == n == |call.deletes|
  }

  predicate AllFit(n: nat, calls: seq<Call>) {
    forall c <- calls :: Fits(n, c)
  }

  /** One call later the worker is outside again, and its marks are as `MarkLeft` says. */
  lemma {:induction false} OneCall(m: Member, call: Call)
    requires m.phase.Outside? && |m.tags| == |m.watched| && Fits(|m.tags|, call)
    ensures var r := Solo(m, ActsOf(call));
      && r.phase.Outside? && |r.tags| == |m.tags| == |r.watched|
      && (NoneSet(m.tags) ==> (NoneSet(r.tags) <==> !Leaves(call)))
  {
    if call.Held? {
      CallExactly(m, call.adds, call.deletes);
      var r := Solo(m, ActsOf(call));
      if NoneSet(m.tags) {
        MarkLeft(m.tags, m.watched, call.adds, call.deletes, r.tags, r.watched);
      }
    } else {
      NotHeldNothing(m);
    }
  }

  lemma {:induction false} AfterOutside(m: Member, calls: seq<Call>)
    requires m.phase.Outside? && |m.tags| == |m.watched| && AllFit(|m.tags|, calls)
    ensures var r := After(m, calls); r.phase.Outside? && |r.tags| == |m.tags| == |r.watched|
    ensures NoneSet(m.tags) && (forall c <- calls :: !Leaves(c)) ==> NoneSet(After(m, calls).tags)
    decreases |calls|
  {
    if calls == [] {
    } else {
      var prev := calls[..|calls| - 1];
      assert forall c <- prev :: c in calls;
      AfterOutside(m, prev);
      OneCall(After(m, prev), calls[|calls| - 1]);
    }
  }

  /** The call leaves nothing behind, mark or registration, if it starts clean (`CallClean`). */
  predicate Tidy(call: Call) {
    call.Held? ==> FirstFailure(call.deletes) >= FirstFailure(call.adds)
  }

  lemma {:induction false} OneTidy(m: Member, call: Call)
    requires m.phase.Outside? && |m.tags| == |m.watched| && Fits(|m.tags|, call) && Clean(m)
    ensures Clean(Solo(m, ActsOf(call))) <==> Tidy(call)
  {
    if call.Held? {
      CallExactly(m, call.adds, call.deletes);
      var r := Solo(m, ActsOf(call));
      CallClean(m.tags, m.watched, call.adds, call.deletes, r.tags, r.watched);
    } else {
      NotHeldNothing(m);
    }
  }

  lemma {:induction false} TidyClean(m: Member, calls: seq<Call>)
    requires m.phase.Outside? && |m.tags| == |m.watched| && AllFit(|m.tags|, calls) && Clean(m)
    requires forall c <- calls :: Tidy(c)
    ensures Clean(After(m, calls))
    decreases |calls|
  {
    if calls == [] {
    } else {
      var prev := calls[..|calls| - 1];
      assert forall c <- prev :: c in calls;
      TidyClean(m, prev);
      AfterOutside(m, prev);
      OneTidy(After(m, prev), calls[|calls| - 1]);
    }
  }

  lemma {:induction false} CleanTidy(m: Member, calls: seq<Call>, k: nat)
    requires m.phase.Outside? && |m.tags| == |m.watched| && AllFit(|m.tags|, calls) && k < |calls|
    requires Clean(After(m, calls[..k])) && Clean(After(m, calls[..k + 1]))
    ensures Tidy(calls[k])
  {
    assert calls[..k + 1][..k] == calls[..k] && forall c <- calls[..k] :: c in calls;
    AfterOutside(m, calls[..k]);
    OneTidy(After(m, calls[..k]), calls[k]);
  }

  /** Over any sequence of calls from a clean state: between the calls there is never a mark or a registration if and
      only if in no call a deletion fails before the first listener that could not be added. */
  lemma {:induction false} CallsClean(m: Member, calls: seq<Call>)
    requires m.phase.Outside? && |m.tags| == |m.watched| && AllFit(|m.tags|, calls) && Clean(m)
    ensures (forall k :: 0 <= k <= |calls| ==> Clean(After(m, calls[..k]))) <==>
      forall k :: 0 <= k < |calls| ==> Tidy(calls[k])
  {
    if forall k :: 0 <= k < |calls| ==> Tidy(calls[k]) {
      forall k | 0 <= k <= |calls| ensures Clean(After(m, calls[..k])) {
        assert forall c <- calls[..k] :: c in calls;
        TidyClean(m, calls[..k]);
      }
    }
    if forall k :: 0 <= k <= |calls| ==> Clean(After(m, calls[..k])) {
      forall k | 0 <= k < |calls| ensures Tidy(calls[k]) {
        CleanTidy(m, calls, k);
      }
    }
  }

  /** A marked listener is met by a call whose additions all succeed. */
  lemma {:induction false} MarkMet(m: Member) returns (call: Call)
    requires m.phase.Outside? && |m.tags| == |m.watched| && !NoneSet(m.tags)
    ensures Fits(|m.tags|, call) && RunsInto(m, call)
  {
    var all := AllTrue(|m.tags|);
    call := Held(all, all);
    RunsIntoExactly(m, call);
  }

  function AllTrue(n: nat): (s: seq<bool>)
    ensures |s| == n && FirstFailure(s) == n
  {
    if n == 0 then [] else [true] + AllTrue(n - 1)
  }

  /** The calls of a worker that starts without marks: in no place of the sequence can a call run into the assert,
      whatever the kernel answers it, if and only if no call of the sequence has a failed addition that was preceded
      by a failed deletion. */
  lemma {:induction false} NoCallRunsInto(m: Member, calls: seq<Call>)
    requires m.phase.Outside? && |m.tags| == |m.watched| && NoneSet(m.tags) && AllFit(|m.tags|, calls)
    ensures (forall k :: 0 <= k < |calls| ==> !Leaves(calls[k])) <==>
            (forall k, c :: 0 <= k <= |calls| && Fits(|m.tags|, c) ==> !RunsInto(After(m, calls[..k]), c))
  {
    if forall k :: 0 <= k < |calls| ==> !Leaves(calls[k]) {
      forall k, c | 0 <= k <= |calls| && Fits(|m.tags|, c) ensures !RunsInto(After(m, calls[..k]), c) {
        assert forall x <- calls[..k] :: x in calls;
        AfterOutside(m, calls[..k]);
        RunsIntoExactly(After(m, calls[..k]), c);
      }
    }
    if forall k, c :: 0 <= k <= |calls| && Fits(|m.tags|, c) ==> !RunsInto(After(m, calls[..k]), c) {
      forall k | 0 <= k < |calls| ensures !Leaves(calls[k]) {
        assert forall x <- calls[..k + 1] :: x in calls;
        assert calls[..k + 1][..k] == calls[..k] && forall x <- calls[..k] :: x in calls[..k + 1];
        AfterOutside(m, calls[..k]);
        AfterOutside(m, calls[..k + 1]);
        OneCall(After(m, calls[..k]), calls[k]);
        Unmarked(After(m, calls[..k]));
        Unmarked(After(m, calls[..k + 1]));
      }
    }
  }

  lemma {:induction false} Unmarked(m: Member)
    requires m.phase.Outside? && |m.tags| == |m.watched| && forall c :: Fits(|m.tags|, c) ==> !RunsInto(m, c)
    ensures NoneSet(m.tags)
  {
    if !NoneSet(m.tags) {
      var c := MarkMet(m);
    }
  }

  /** A concrete case: the second of two listeners cannot be added, then the first cannot be deleted, and a next
      call runs into its assert. */
  lemma {:induction false} LeftoverMark()
    ensures var m := Member(Outside, false, [false, false], [false, false]);
      exists c :: Fits(2, c) && RunsInto(After(m, [Held([true, false], [false, true])]), c)
  {
    var m := Member(Outside, false, [false, false], [false, false]);
    var call := Held([true, false], [false, true]);
    assert [true, false][1..] == [false];
    OneCall(m, call);
    assert [call][..0] == [] && After(m, [call]) == Solo(After(m, []), ActsOf(call));
    var c := MarkMet(After(m, [call]));
  }
}
