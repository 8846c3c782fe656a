/** What one worker's memory holds, as a value, and the agreement between its parts
    (src/modules/event_core_module.c, src/resource.c). */
module WorkerState {
  import opened IntrusiveList
  import opened Sequences
  import opened SlotPool

  /** One turn of the accept loop: what `accept` answers, whether `epoll_ctl` takes the new socket,
      and whether the application's connect handler asks for it to be closed. */
  datatype AcceptResult = Again | Aborted | Failed | Accepted(fd: nat, watch: bool, closes: bool)

  /** `free`, `conns` and `posted` are the words that the three lists lead through; `watched` is the
      kernel's interest list: slot number and the stale bit that was packed into the pointer. */
  datatype State = State(words: Words, slots: seq<Slot>, free: seq<Addr>, conns: seq<Addr>, posted: seq<Addr>,
                         servers: seq<nat>, watched: map<nat, bool>, used: int, power: int)

  /** The lists are in order and do not share words. */
  ghost predicate Lists(st: State) {
    && PoolOk(st.words, st.slots, st.free, st.used)
    && Chain(st.words, Connections, st.conns) && Chain(st.words, PostedEvents, st.posted)
    && (forall a <- st.conns :: a.Node? && a.slot < |st.slots| && a !in st.free)
    && (forall a <- st.posted :: a.PostedNode? && a.slot < |st.slots|)
  }

  ghost predicate Live(st: State, i: nat) {
    i < |st.slots| && st.slots[i].owned
  }

  /** A slot that a handler has taken from the pool and not yet placed. */
  datatype InHand = Nothing | Taken(slot: nat)

  /** The agreement of pool, connections, listeners, interest list and counters; the slots in `hand` are
      out of the pool and in none of the others. */
  ghost predicate Accounts(st: State, limit: int, hand: set<nat>) {
    && (forall i :: 0 <= i < |st.slots| ==> (Node(i) in st.conns <==> st.slots[i].owned && i !in hand))
    && |st.conns| == st.used - |hand|
    && Distinct(st.servers)
    && (forall i <- st.servers :: Live(st, i) && i !in hand && st.slots[i].kind.Listen? && !st.slots[i].close)
    && (forall i :: 0 <= i < |st.slots| && st.slots[i].owned && i !in hand && i !in st.servers ==>
      st.slots[i].kind.Cmnct?)
    && (forall i :: 0 <= i < |st.slots| && st.slots[i].owned && i !in hand ==> st.slots[i].fd >= 0)
    && (forall i <- st.watched :: Live(st, i) && i !in hand && st.watched[i] == st.slots[i].stale)
    && st.power + |st.conns| - |st.servers| == limit
  }

  ghost predicate Agree(st: State, limit: int, x: InHand) {
    match x
    case Nothing => Accounts(st, limit, {})
    case Taken(i) => Live(st, i) && Accounts(st, limit, {i})
  }

  // ----- writes to one list leave the others alone

  lemma {:induction false} PoolMoved(st: State, w: Words, slots: seq<Slot>, free: seq<Addr>, used: int, a: Addr)
    requires Lists(st) && PoolOk(w, slots, free, used) && |slots| == |st.slots|
    requires Elsewhere(st.words, w, FreeList, st.free, a)
    requires a.Null? || (a.Node? && a !in st.conns)
    requires forall b <- free :: b in st.free || b == a
    ensures Lists(st.(words := w, slots := slots, free := free, used := used))
  {
    ChainDistinct(st.words, Connections, st.conns);
    ChainDistinct(st.words, PostedEvents, st.posted);
    KeepChain(st.words, w, Connections, Connections, st.conns);
    KeepChain(st.words, w, PostedEvents, PostedEvents, st.posted);
  }

  lemma {:induction false} ConnsMoved(st: State, w: Words, conns: seq<Addr>, a: Addr)
    requires Lists(st) && Chain(w, Connections, conns) && Elsewhere(st.words, w, Connections, st.conns, a)
    requires a.Null? || (a.Node? && a.slot < |st.slots| && a !in st.free)
    requires forall b <- conns :: b in st.conns || (b == a && !b.Null?)
    ensures Lists(st.(words := w, conns := conns))
  {
    ChainDistinct(st.words, FreeList, st.free);
    ChainDistinct(st.words, PostedEvents, st.posted);
    KeepChain(st.words, w, FreeList, FreeList, st.free);
    KeepChain(st.words, w, PostedEvents, PostedEvents, st.posted);
  }

  lemma {:induction false} PostedMoved(st: State, w: Words, posted: seq<Addr>, a: Addr)
    requires Lists(st) && Chain(w, PostedEvents, posted) && Elsewhere(st.words, w, PostedEvents, st.posted, a)
    requires a.Null? || (a.PostedNode? && a.slot < |st.slots|)
    requires forall b <- posted :: b in st.posted || (b == a && !b.Null?)
    ensures Lists(st.(words := w, posted := posted))
  {
    ChainDistinct(st.words, FreeList, st.free);
    ChainDistinct(st.words, Connections, st.conns);
    KeepChain(st.words, w, FreeList, FreeList, st.free);
    KeepChain(st.words, w, Connections, Connections, st.conns);
  }

  /** Writes to the fields of one slot, its ownership bit apart, do not concern the lists. */
  lemma {:induction false} FieldsMoved(st: State, i: nat, g: Slot)
    requires Lists(st) && i < |st.slots| && g.owned == st.slots[i].owned
    ensures Lists(st.(slots := st.slots[i := g]))
  {}

  lemma {:induction false} WithoutSome(w: Words, head: Addr, s: seq<Addr>, x: Addr)
    requires Chain(w, head, s)
    ensures forall a <- Without(s, x) :: a in s
  {
    ChainDistinct(w, head, s);
    WithoutMembers(s, x);
  }

  // ----- what the handlers do to the agreement

  /** A slot is taken from the pool. */
  ghost function Drawn(st: State, w: Words, i: nat): State
    requires i < |st.slots| && st.free != []
  {
    st.(words := w, slots := Own(st.slots, i, true), free := st.free[1..], used := st.used + 1)
  }

  lemma {:induction false} DrawnAgrees(st: State, w: Words, limit: int, i: nat)
    requires Lists(st) && Agree(st, limit, Nothing) && st.free != [] && st.free[0] == Node(i)
    ensures i < |st.slots| && !st.slots[i].owned && Node(i) !in st.conns && i !in st.servers && i !in st.watched
    ensures Node(i) !in st.free[1..] && Agree(Drawn(st, w, i), limit, Taken(i))
  {
    assert st.free[0] in st.free;
    ChainDistinct(st.words, FreeList, st.free);
  }

  /** The slot in hand, with the fields it has been given, goes back unused ... */
  ghost function Refused(st: State, w: Words, i: nat, g: Slot): State
    requires i < |st.slots|
  {
    st.(words := w, slots := st.slots[i := g.(owned := false)], free := [Node(i)] + st.free, used := st.used - 1)
  }

  lemma {:induction false} RefusedAgrees(st: State, w: Words, limit: int, i: nat, g: Slot)
    requires Agree(st, limit, Taken(i))
    ensures Agree(Refused(st, w, i, g), limit, Nothing)
  {}

  /** ... or becomes a connection: it is listed, watched, and costs one unit of power ... */
  ghost function Joined(st: State, w: Words, i: nat, g: Slot): State
    requires i < |st.slots|
  {
    st.(words := w, slots := st.slots[i := g], conns := [Node(i)] + st.conns, watched := st.watched[i := g.stale],
      power := st.power - 1)
  }

  lemma {:induction false} JoinedAgrees(st: State, w: Words, limit: int, i: nat, g: Slot)
    requires Agree(st, limit, Taken(i)) && g.owned && g.kind.Cmnct? && g.fd >= 0
    ensures Agree(Joined(st, w, i, g), limit, Nothing)
  {}

  /** ... or a listener. */
  ghost function Enlisted(st: State, w: Words, i: nat, g: Slot): State
    requires i < |st.slots|
  {
    st.(words := w, slots := st.slots[i := g], conns := [Node(i)] + st.conns, servers := st.servers + [i])
  }

  lemma {:induction false} EnlistedAgrees(st: State, w: Words, limit: int, i: nat, g: Slot)
    requires Agree(st, limit, Taken(i)) && g.owned && g.kind.Listen? && !g.close && g.fd >= 0
    ensures Agree(Enlisted(st, w, i, g), limit, Nothing)
  {
    DistinctAppend(st.servers, [i]);
  }

  /** What `hixo_handle_close` makes of the state. */
  ghost function Gone(st: State, w: Words, i: nat): State
    requires i < |st.slots|
  {
    st.(words := w, slots := st.slots[i := st.slots[i].(owned := false, readable := false, writable := false)],
        free := [Node(i)] + st.free, conns := Without(st.conns, Node(i)),
        watched := st.watched - {i}, used := st.used - 1, power := st.power + 1)
  }

  /** A connection goes. */
  lemma {:induction false} Closed(st: State, w: Words, limit: int, i: nat)
    requires Agree(st, limit, Nothing) && Live(st, i) && i !in st.servers
    requires var conns := Without(st.conns, Node(i));
      |conns| == |st.conns| - 1 && (forall j :: 0 <= j < |st.slots| ==>
        (Node(j) in conns <==> Node(j) in st.conns && j != i))
    ensures Agree(Gone(st, w, i), limit, Nothing)
  {}

  lemma {:induction false} CloseFacts(st: State, limit: int, i: nat)
    requires Lists(st) && Agree(st, limit, Nothing) && Live(st, i)
    ensures Node(i) in st.conns && Node(i) in st.words
    ensures forall a :: a in Without(st.conns, Node(i)) <==> a in st.conns && a != Node(i)
    ensures var conns := Without(st.conns, Node(i));
      |conns| == |st.conns| - 1 && (forall j :: 0 <= j < |st.slots| ==>
        (Node(j) in conns <==> Node(j) in st.conns && j != i))
  {
    ChainDistinct(st.words, Connections, st.conns);
    WithoutMembers(st.conns, Node(i));
  }

  /** The flags of a connection, or the readiness of a listener, may change. */
  lemma {:induction false} Flagged(st: State, limit: int, i: nat, g: Slot)
    requires Agree(st, limit, Nothing) && i < |st.slots| && g.owned == st.slots[i].owned && g.kind == st.slots[i].kind
      && g.stale == st.slots[i].stale
    requires (i in st.servers ==> !g.close) && g.fd == st.slots[i].fd
    ensures Agree(st.(slots := st.slots[i := g]), limit, Nothing)
  {}

  /** What an accept handler leaves as it was: everything that was there. */
  ghost predicate Grown(st: State, st': State) {
    && st'.posted == st.posted && st'.servers == st.servers && |st'.slots| == |st.slots|
    && (forall i :: 0 <= i < |st.slots| && st.slots[i].owned ==> st'.slots[i] == st.slots[i])
    && (forall i <- st.watched :: i in st'.watched && st'.watched[i] == st.watched[i])
    && (forall i <- st.servers :: i in st'.watched <==> i in st.watched)
  }

  /** What one answer makes of the slot in hand. */
  ghost function Settled(st: State, w: Words, i: nat, answer: AcceptResult): State
    requires i < |st.slots|
  {
    if answer.Accepted? && answer.watch then
      Joined(st, w, i, CreateSocket(st.slots[i], answer.fd, Cmnct).(close := answer.closes))
    else if answer.Accepted? then Refused(st, w, i, CreateSocket(st.slots[i], answer.fd, Cmnct))
    else Refused(st, w, i, st.slots[i])
  }

  ghost predicate FirstFree(st: State) {
    st.free != [] && st.free[0].Node? && st.free[0].slot < |st.slots|
  }

  /** What one answer makes of the worker: a connection in the first free slot, if a socket was accepted and could be
      watched; else the slot goes back, its stale bit flipped if there was a socket. */
  ghost predicate OneAnswer(st: State, st': State, answer: AcceptResult)
    requires FirstFree(st)
  {
    var i := st.free[0].slot;
    var stale := st.slots[i].stale;
    match answer
    case Accepted(fd, watch, closes) =>
      if watch then
        st' == st.(words := st'.words, slots := st.slots[i := Slot(true, fd, Cmnct, !stale, false, false, closes)],
                   free := st.free[1..], conns := [Node(i)] + st.conns, watched := st.watched[i := !stale],
                   used := st.used + 1, power := st.power - 1)
      else
        st' == st.(words := st'.words, slots := st.slots[i := Slot(false, fd, Cmnct, !stale, false, false, false)])
    case _ => st' == st.(words := st'.words)
  }

  lemma {:induction false} SettledOne(st: State, v: Words, w: Words, i: nat, answer: AcceptResult)
    requires i < |st.slots| && st.free != [] && st.free[0] == Node(i) && !st.slots[i].owned
    ensures OneAnswer(st, Settled(Drawn(st, v, i), w, i, answer), answer)
  {
    assert [Node(i)] + st.free[1..] == st.free && st.slots[i := st.slots[i]] == st.slots;
  }

  /** `st'` has `n` more connections, in slots off the top of the free list, and whatever was there is as it was. */
  ghost predicate Admitted(st: State, st': State, n: nat) {
    && Grown(st, st') && n <= |st.free| && st'.free == st.free[n..]
    && st'.conns == Reversed(st.free[..n]) + st.conns && st'.used == st.used + n && st'.power == st.power - n
  }

  lemma {:induction false} OneAdmitted(st: State, st': State, answer: AcceptResult)
    requires FirstFree(st) && OneAnswer(st, st', answer)
    requires var i := st.free[0].slot; !st.slots[i].owned && i !in st.servers && i !in st.watched
    ensures Admitted(st, st', if answer.Accepted? && answer.watch then 1 else 0)
  {
    var i := st.free[0].slot;
    assert st.free[..1] == [Node(i)] && Reversed([Node(i)]) == [Node(i)] && Reversed(st.free[..0]) == [];
  }

  lemma {:induction false} Slices(s: seq<Addr>, m: nat, n: nat)
    requires m + n <= |s|
    ensures s[..m + n] == s[..m] + s[m..][..n] && s[m..][n..] == s[m + n..]
  {
    assert s[..m + n] == s[..m] + s[m..m + n] && s[m..][..n] == s[m..m + n];
  }

  lemma {:induction false} AdmittedTwice(a: State, b: State, c: State, m: nat, n: nat)
    requires Admitted(a, b, m) && Admitted(b, c, n)
    ensures Admitted(a, c, m + n)
  {
    Slices(a.free, m, n);
    ReversedAppend(a.free[..m], a.free[m..][..n]);
  }

  lemma {:induction false} AdmittedNone(st: State)
    ensures Admitted(st, st, 0)
  {
    assert st.free[..0] == [] && st.free[0..] == st.free;
  }

  // ----- a run of the accept loop

  /** Of the first `n` answers those at the places `taken` have opened connections: exactly those that brought a socket
      which could be watched.  Once the `room` is used up no more answers are asked for. */
  ghost predicate Chosen(script: seq<AcceptResult>, n: nat, room: nat, taken: seq<nat>) {
    && n <= |script| && |taken| <= room
    && (forall k :: 0 <= k < |taken| ==> taken[k] < n)
    && (forall k, l :: 0 <= k < l < |taken| ==> taken[k] < taken[l])
    && (forall j :: 0 <= j < n ==> (j in taken <==> script[j].Accepted? && script[j].watch))
    && (|taken| == room ==> n == if room == 0 then 0 else taken[room - 1] + 1)
  }

  /** The loop has asked for `n` answers and is over: the last of them was EAGAIN or an error, or the room is used up,
      or there are no more answers.  ECONNABORTED did not end it. */
  ghost predicate Over(script: seq<AcceptResult>, n: nat, room: nat, taken: seq<nat>)
    requires n <= |script|
  {
    && (forall j :: 0 <= j < n - 1 ==> script[j].Accepted? || script[j].Aborted?)
    && (n == |script| || |taken| == room || (n > 0 && !script[n - 1].Accepted? && !script[n - 1].Aborted?))
  }

  /** Whether an odd number of sockets came with the answers from `a` on, before `b`. */
  ghost predicate Odd(script: seq<AcceptResult>, a: nat, b: nat)
    requires b <= |script|
  {
    b > a && Odd(script, a, b - 1) != script[b - 1].Accepted?
  }

  /** The answer after the one that filled the last slot before the `k`-th. */
  ghost function From(taken: seq<nat>, k: nat): nat
    requires k <= |taken|
  {
    if k == 0 then 0 else taken[k - 1] + 1
  }

  /** The slot `i` holds the connection that the answer has opened. */
  ghost predicate Holds(st: State, i: nat, answer: AcceptResult, stale: bool) {
    && i < |st.slots| && answer.Accepted? && i in st.watched && st.watched[i] == stale
    && st.slots[i] == Slot(true, answer.fd, Cmnct, stale, false, false, answer.closes)
  }

  /** The free slots are there, each once, and in nobody's hands. */
  ghost predicate Vacant(st: State) {
    && (forall k, l :: 0 <= k < l < |st.free| ==> st.free[k] != st.free[l])
    && (forall a <- st.free :: a.Node? && a.slot < |st.slots| && !st.slots[a.slot].owned && a.slot !in st.servers
                               && a.slot !in st.watched)
  }

  /** The `k`-th slot off the free list holds the connection that the `k`-th opening answer brought. */
  ghost predicate FilledAt(st: State, st': State, script: seq<AcceptResult>, taken: seq<nat>, k: nat)
    requires Vacant(st) && k < |taken| && k < |st.free| && taken[k] < |script|
  {
    var i := st.free[k].slot;
    Holds(st', i, script[taken[k]], st.slots[i].stale != Odd(script, From(taken, k), taken[k] + 1))
  }

  ghost predicate AllFilled(st: State, st': State, script: seq<AcceptResult>, taken: seq<nat>)
    requires Vacant(st) && |taken| <= |st.free| && forall k :: 0 <= k < |taken| ==> taken[k] < |script|
  {
    forall k: nat :: k < |taken| ==> FilledAt(st, st', script, taken, k)
  }

  /** The next slot has only had its stale bit flipped, for every socket that could not be watched, and is in nobody's
      hands; those after it are untouched. */
  ghost predicate Left(st: State, st': State, m: nat, flipped: bool)
    requires Vacant(st)
  {
    forall l :: m <= l < |st.free| ==>
      var i := st.free[l].slot;
      && i < |st'.slots| && !st'.slots[i].owned && i !in st'.watched
      && (if l == m then st'.slots[i].stale == (st.slots[i].stale != flipped) else st'.slots[i] == st.slots[i])
  }

  /** What `n` answers, those at the places `taken` opening connections, have made of the worker. */
  ghost predicate Filled(st: State, st': State, script: seq<AcceptResult>, n: nat, taken: seq<nat>)
    requires Vacant(st) && Chosen(script, n, |st.free|, taken)
  {
    && Admitted(st, st', |taken|) && AllFilled(st, st', script, taken)
    && Left(st, st', |taken|, Odd(script, From(taken, |taken|), n))
  }

  /** No answer so far has ended the loop. */
  ghost predicate Onward(script: seq<AcceptResult>, n: nat) {
    n <= |script| && forall j :: 0 <= j < n ==> script[j].Accepted? || script[j].Aborted?
  }

  lemma {:induction false} SoundVacant(st: State, limit: int)
    requires Lists(st) && Agree(st, limit, Nothing)
    ensures Vacant(st)
  {
    ChainDistinct(st.words, FreeList, st.free);
    forall k, l | 0 <= k < l < |st.free| ensures st.free[k] != st.free[l] {
      DistinctAt(st.free, k, l);
    }
  }

  lemma {:induction false} FilledNone(st: State, script: seq<AcceptResult>)
    requires Vacant(st)
    ensures Chosen(script, 0, |st.free|, []) && Filled(st, st, script, 0, [])
  {
    AdmittedNone(st);
  }

  lemma {:induction false} ChosenNext(script: seq<AcceptResult>, n: nat, room: nat, taken: seq<nat>)
    requires Chosen(script, n, room, taken) && n < |script| && |taken| < room
    ensures Chosen(script, n + 1, room, if script[n].Accepted? && script[n].watch then taken + [n] else taken)
  {}

  /** Nothing but slot `i` has changed. */
  ghost predicate OnlyAt(st: State, st': State, i: nat) {
    && |st'.slots| == |st.slots|
    && (forall j :: 0 <= j < |st.slots| && j != i ==> st'.slots[j] == st.slots[j])
    && (forall j: nat :: j != i ==> (j in st'.watched <==> j in st.watched))
    && (forall j: nat :: j != i && j in st.watched ==> st'.watched[j] == st.watched[j])
  }

  lemma {:induction false} KeepFilled(st: State, now: State, now': State, script: seq<AcceptResult>, taken: seq<nat>)
    requires Vacant(st) && |taken| < |st.free| && (forall k :: 0 <= k < |taken| ==> taken[k] < |script|)
    requires AllFilled(st, now, script, taken) && OnlyAt(now, now', st.free[|taken|].slot)
    ensures AllFilled(st, now', script, taken)
  {
    forall k: nat | k < |taken| ensures FilledAt(st, now', script, taken, k) {
      assert FilledAt(st, now, script, taken, k) && st.free[k] != st.free[|taken|];
    }
  }

  lemma {:induction false} MoreFilled(st: State, st': State, script: seq<AcceptResult>, taken: seq<nat>, n: nat)
    requires Vacant(st) && |taken| < |st.free| && (forall k :: 0 <= k < |taken| ==> taken[k] < |script|)
    requires AllFilled(st, st', script, taken) && n < |script|
    requires var i := st.free[|taken|].slot;
      Holds(st', i, script[n], st.slots[i].stale != Odd(script, From(taken, |taken|), n + 1))
    ensures AllFilled(st, st', script, taken + [n])
  {
    forall k: nat | k < |taken + [n]| ensures FilledAt(st, st', script, taken + [n], k) {
      if k < |taken| {
        assert FilledAt(st, st', script, taken, k);
      }
    }
  }

  lemma {:induction false} KeepLeft(st: State, now: State, now': State, m: nat, flipped: bool, opens: bool, stale: bool)
    requires Vacant(st) && m < |st.free| && Left(st, now, m, flipped)
    requires var i := st.free[m].slot;
      OnlyAt(now, now', i) && i < |now'.slots| && (opens || (!now'.slots[i].owned && i !in now'.watched))
    requires now'.slots[st.free[m].slot].stale == (st.slots[st.free[m].slot].stale != stale)
    ensures if opens then Left(st, now', m + 1, false) else Left(st, now', m, stale)
  {
    forall l | m < l < |st.free| ensures st.free[l].slot != st.free[m].slot {
      assert st.free[m] != st.free[l];
    }
  }

  lemma {:induction false} OneOnly(st: State, st': State, answer: AcceptResult)
    requires FirstFree(st) && OneAnswer(st, st', answer)
    ensures OnlyAt(st, st', st.free[0].slot)
  {}

  lemma {:induction false} FreeThere(st: State, now: State, m: nat, flipped: bool)
    requires Vacant(st) && m < |st.free| && Admitted(st, now, m) && Left(st, now, m, flipped)
    ensures FirstFree(now) && now.free[0] == st.free[m]
    ensures var i := st.free[m].slot;
      && !now.slots[i].owned && i !in now.servers && i !in now.watched
      && now.slots[i].stale == (st.slots[i].stale != flipped)
  {
    assert st.free[m] in st.free;
  }

  /** An answer that opens a connection ... */
  lemma {:induction false} FilledOpens(st: State, now: State, now': State, script: seq<AcceptResult>, n: nat,
      taken: seq<nat>)
    requires Vacant(st) && Chosen(script, n, |st.free|, taken) && n < |script| && |taken| < |st.free|
    requires Filled(st, now, script, n, taken) && FirstFree(now) && OneAnswer(now, now', script[n])
    requires script[n].Accepted? && script[n].watch && Chosen(script, n + 1, |st.free|, taken + [n])
    ensures Filled(st, now', script, n + 1, taken + [n])
  {
    var m := |taken|;
    var f, f' := Odd(script, From(taken, m), n), Odd(script, From(taken, m), n + 1);
    FreeThere(st, now, m, f);
    OneOnly(now, now', script[n]);
    OneAdmitted(now, now', script[n]);
    AdmittedTwice(st, now, now', m, 1);
    KeepLeft(st, now, now', m, f, true, f');
    KeepFilled(st, now, now', script, taken);
    MoreFilled(st, now', script, taken, n);
  }

  /** ... and one that does not. */
  lemma {:induction false} FilledPasses(st: State, now: State, now': State, script: seq<AcceptResult>, n: nat,
      taken: seq<nat>)
    requires Vacant(st) && Chosen(script, n, |st.free|, taken) && n < |script| && |taken| < |st.free|
    requires Filled(st, now, script, n, taken) && FirstFree(now) && OneAnswer(now, now', script[n])
    requires !(script[n].Accepted? && script[n].watch) && Chosen(script, n + 1, |st.free|, taken)
    ensures Filled(st, now', script, n + 1, taken)
  {
    var m := |taken|;
    var f, f' := Odd(script, From(taken, m), n), Odd(script, From(taken, m), n + 1);
    FreeThere(st, now, m, f);
    OneOnly(now, now', script[n]);
    OneAdmitted(now, now', script[n]);
    AdmittedTwice(st, now, now', m, 0);
    KeepLeft(st, now, now', m, f, false, f');
    KeepFilled(st, now, now', script, taken);
  }

  /** The loop goes on after `n` answers, or is over. */
  ghost predicate Stage(st: State, st': State, script: seq<AcceptResult>, n: nat, taken: seq<nat>, more: bool) {
    && Vacant(st) && Chosen(script, n, |st.free|, taken) && Filled(st, st', script, n, taken)
    && if more then Onward(script, n) else Over(script, n, |st.free|, taken)
  }

  /** The whole run of the accept loop. */
  ghost predicate Accepts(st: State, st': State, script: seq<AcceptResult>, n: nat, taken: seq<nat>) {
    Stage(st, st', script, n, taken, false)
  }

  /** In other words: which slots hold which connections. */
  lemma {:induction false} AcceptsMeans(st: State, st': State, script: seq<AcceptResult>, n: nat, taken: seq<nat>)
    requires Accepts(st, st', script, n, taken)
    ensures n <= |script| && |taken| <= |st.free| && st'.free == st.free[|taken|..]
    ensures forall k, l :: 0 <= k < l < |taken| ==> taken[k] < taken[l]
    ensures forall j :: 0 <= j < n ==> (j in taken <==> script[j].Accepted? && script[j].watch)
    ensures forall j :: 0 <= j < n - 1 ==> script[j].Accepted? || script[j].Aborted?
    ensures n == |script| || |taken| == |st.free| || (n > 0 && !script[n - 1].Accepted? && !script[n - 1].Aborted?)
    ensures forall k :: 0 <= k < |taken| ==>
      && taken[k] < |script| && script[taken[k]].Accepted? && st.free[k].Node? && st.free[k].slot < |st'.slots|
      && var i := st.free[k].slot;
      && st'.slots[i] == Slot(true, script[taken[k]].fd, Cmnct, st'.slots[i].stale, false, false,
                              script[taken[k]].closes)
      && i in st'.watched && st'.watched[i] == st'.slots[i].stale
  {
    forall k | 0 <= k < |taken|
      ensures taken[k] < |script| && Holds(st', st.free[k].slot, script[taken[k]], st'.slots[st.free[k].slot].stale)
    {
      assert FilledAt(st, st', script, taken, k);
    }
  }

  lemma {:induction false} StageNext(st: State, now: State, now': State, script: seq<AcceptResult>, n: nat,
      taken: seq<nat>, taken': seq<nat>)
    requires Stage(st, now, script, n, taken, true) && n < |script| && FirstFree(now) && OneAnswer(now, now', script[n])
    requires taken' == if script[n].Accepted? && script[n].watch then taken + [n] else taken
    ensures Stage(st, now', script, n + 1, taken', script[n].Accepted? || script[n].Aborted?)
  {
    assert |taken| < |st.free|;
    ChosenNext(script, n, |st.free|, taken);
    if script[n].Accepted? && script[n].watch {
      FilledOpens(st, now, now', script, n, taken);
    } else {
      FilledPasses(st, now, now', script, n, taken);
    }
  }

  lemma {:induction false} StageFull(st: State, now: State, script: seq<AcceptResult>, n: nat, taken: seq<nat>)
    requires Stage(st, now, script, n, taken, true) && (now.free == [] || n == |script|)
    ensures Stage(st, now, script, n, taken, false)
  {}

  ghost predicate Accepting(st: State, st': State, script: seq<AcceptResult>) {
    exists n, taken :: Accepts(st, st', script, n, taken)
  }

  /** The application's answers while one posted socket is handled: what `accept` says (for a listener), what the
      read handler leaves in the flags, and what the write handler does to them. */
  datatype Reaction = Reaction(script: seq<AcceptResult>, readable: bool, closes: bool, writable: bool,
      closesLate: bool)

  /** The socket's close flag is up when its read handler has run. */
  predicate Closes(g: Slot, r: Reaction) {
    g.close || (g.readable && g.kind.Cmnct? && r.closes)
  }

  /** Handling the socket in slot `i` leaves every other socket alone, and the listeners watched as they were. */
  ghost predicate Kept(st: State, st': State, i: nat) {
    && st'.servers == st.servers && |st'.slots| == |st.slots|
    && (forall j :: 0 <= j < |st.slots| && j != i && st.slots[j].owned ==> st'.slots[j] == st.slots[j])
    && (forall j <- st.servers :: j in st'.watched <==> j in st.watched)
  }

  /** What the read handler and the write handler of a connection do to its flags. */
  function AfterRead(g: Slot, r: Reaction): Slot {
    if g.readable then g.(readable := r.readable, close := g.close || r.closes) else g
  }

  function AfterWrite(g: Slot, r: Reaction): Slot {
    if g.writable then g.(writable := r.writable, close := g.close || r.closesLate) else g
  }

  /** What becomes of the worker when it handles the socket in slot `i`: a listener that is readable admits
      connections; a connection is read, then either closed or written, and nothing else changes. */
  ghost predicate Handled(st: State, st': State, i: nat, r: Reaction)
    requires i < |st.slots|
  {
    var g := st.slots[i];
    if g.kind.Listen? then
      if g.readable then Accepting(st, st', r.script) else st' == st
    else if AfterRead(g, r).close then
      st' == Gone(st.(slots := st.slots[i := AfterRead(g, r)]), st'.words, i)
    else
      st' == st.(words := st'.words, slots := st.slots[i := AfterWrite(AfterRead(g, r), r)])
  }

  /** After the read handler. */
  lemma {:induction false} ReadHandled(st: State, st1: State, limit: int, i: nat, r: Reaction)
    requires Agree(st, limit, Nothing) && Live(st, i)
    requires var g := st.slots[i];
      if g.readable && g.kind.Listen? then Accepting(st, st1, r.script)
      else st1 == if g.kind.Listen? then st else st.(slots := st.slots[i := AfterRead(g, r)])
    ensures Live(st1, i) && st1.slots[i] ==
      (if st.slots[i].kind.Listen? then st.slots[i] else AfterRead(st.slots[i], r))
    ensures st.slots[i].kind.Listen? ==> !st.slots[i].close
    ensures !st.slots[i].kind.Listen? ==> st.slots[i].kind.Cmnct?
  {}

  /** After the close and the write handler. */
  lemma {:induction false} WriteHandled(st: State, st1: State, st2: State, st3: State, limit: int, i: nat, r: Reaction)
    requires Agree(st, limit, Nothing) && Live(st, i) && Live(st1, i)
    requires var g := st.slots[i];
      if g.kind.Listen? then st1.slots[i] == g && !g.close
        && (if g.readable then Accepting(st, st1, r.script) else st1 == st)
      else g.kind.Cmnct? && st1 == st.(slots := st.slots[i := AfterRead(g, r)])
    requires st2 == if st1.slots[i].close then Gone(st1, st2.words, i) else st1
    requires var g2 := st2.slots[i];
      st3 == if g2.kind.Cmnct? then st2.(slots := st2.slots[i := AfterWrite(g2, r)]) else st2
    ensures Handled(st, st3, i, r)
  {
    assert st2.slots[i := st2.slots[i]] == st2.slots;
  }

  /** In other words.  A readable listener accepts, any other is left alone.  A connection is closed if its close flag
      is up when it has been read, and its slot is then free, with both readiness flags cleared; else the flags are what
      the handlers that ran have left. */
  lemma {:induction false} HandledMeans(st: State, st': State, limit: int, i: nat, r: Reaction)
    requires Agree(st, limit, Nothing) && Live(st, i) && Handled(st, st', i, r)
    ensures var g := st.slots[i];
      g.kind.Listen? ==> if g.readable then Accepting(st, st', r.script) else st' == st
    ensures var g := st.slots[i];
      g.kind.Cmnct? && (g.close || (g.readable && r.closes)) ==>
        && st'.slots == st.slots[i := Slot(false, g.fd, Cmnct, g.stale, false, false, true)]
        && st'.free == [Node(i)] + st.free && st'.watched == st.watched - {i} && st'.power == st.power + 1
    ensures var g := st.slots[i];
      g.kind.Cmnct? && !g.close && !(g.readable && r.closes) ==>
        && st'.slots == st.slots[i := Slot(true, g.fd, Cmnct, g.stale, g.readable && r.readable,
                                           g.writable && r.writable, g.writable && r.closesLate)]
        && st'.free == st.free && st'.watched == st.watched && st'.power == st.power && st'.conns == st.conns
  {}

  lemma {:induction false} HandledKept(st: State, st': State, limit: int, i: nat, r: Reaction)
    requires Agree(st, limit, Nothing) && Live(st, i) && Handled(st, st', i, r)
    ensures Kept(st, st', i) && st'.posted == st.posted
    ensures Live(st', i) <==> !Closes(st.slots[i], r)
  {}

  /** One turn of the loop over the posted list. */
  ghost predicate Turn(st: State, st': State, r: Reaction) {
    && st.posted != [] && st.posted[0].PostedNode? && st.posted[0].slot < |st.slots| && st'.posted == st.posted[1..]
    && exists w :: Handled(st, st'.(posted := st.posted, words := w), st.posted[0].slot, r)
  }

  /** The states that a pass over the posted list goes through, from `first` to `last`. */
  ghost predicate Traced(trace: seq<State>, first: State, last: State, reactions: nat -> Reaction) {
    && trace != [] && trace[0] == first && trace[|trace| - 1] == last
    && forall k: nat :: k < |trace| - 1 ==> Turn(trace[k], trace[k + 1], reactions(k))
  }

  lemma {:induction false} PassedOne(trace: seq<State>, first: State, last: State, st: State, r: Reaction,
      reactions: nat -> Reaction)
    requires Traced(trace, first, last, reactions) && r == reactions(|trace| - 1) && Turn(last, st, r)
    ensures Traced(trace + [st], first, st, reactions)
  {
    var trace' := trace + [st];
    forall k: nat | k < |trace'| - 1 ensures Turn(trace'[k], trace'[k + 1], reactions(k)) {
      if k < |trace| - 1 {
        assert trace'[k] == trace[k] && trace'[k + 1] == trace[k + 1];
      }
    }
  }

  /** Such a pass takes the sockets in the order of the list, each of them once. */
  lemma {:induction false} PassedInOrder(trace: seq<State>, first: State, last: State, reactions: nat -> Reaction,
      k: nat)
    requires Traced(trace, first, last, reactions) && k < |trace|
    ensures k <= |first.posted| && trace[k].posted == first.posted[k..]
    decreases k
  {
    if k == 0 {
    } else {
      PassedInOrder(trace, first, last, reactions, k - 1);
      assert Turn(trace[k - 1], trace[k - 1 + 1], reactions(k - 1));
      assert first.posted[k - 1..][1..] == first.posted[k..];
    }
  }

  /** The sockets of the posted list are in use. */
  ghost predicate PostedLive(st: State) {
    forall a <- st.posted :: a.PostedNode? && Live(st, a.slot)
  }

  /** What the list head holds. */
  function Head(s: seq<Addr>): Addr {
    if s == [] then Null else s[0]
  }

  lemma {:induction false} HeadNull(st: State)
    requires PostedLive(st)
    ensures Head(st.posted) == Null <==> st.posted == []
  {
    assert st.posted != [] ==> st.posted[0] in st.posted;
  }

  lemma {:induction false} PostedFirst(st: State)
    requires Lists(st) && PostedLive(st) && st.posted != []
    ensures var a := st.posted[0];
      a in st.posted && a.PostedNode? && Live(st, a.slot) && a in st.words
        && st.words[a] == if |st.posted| == 1 then Null else st.posted[1]
  {
    ChainDistinct(st.words, PostedEvents, st.posted);
    assert Chain(st.words, st.posted[0], st.posted[1..]);
  }

  /** The handlers have run, and the first element is taken off the list. */
  lemma {:induction false} PostedDone(st: State, st': State, w: Words, limit: int, i: nat)
    requires Lists(st) && PostedLive(st) && st.posted != [] && st.posted[0] == PostedNode(i) && Kept(st, st', i)
      && st'.posted == st.posted
    requires Agree(st', limit, Nothing)
    ensures var posted := Without(st.posted, PostedNode(i));
      posted == st.posted[1..] && var st'' := st'.(words := w, posted := posted);
      Agree(st'', limit, Nothing) && PostedLive(st'')
  {
    ChainDistinct(st.words, PostedEvents, st.posted);
  }

  // ----- set-up

  /** What becomes of one configured server: its address may be malformed, its socket may not open. */
  datatype ListenResult = BadIp | NoSocket | Opened(fd: nat)

  /** How many listeners open. */
  function Listeners(results: seq<ListenResult>): (n: nat)
    ensures n <= |results|
  {
    if results == [] then 0 else Listeners(results[..|results| - 1]) + if results[|results| - 1].Opened? then 1 else 0
  }

  /** How often and where: server `k` of the configuration, if it could be opened, is the listener that comes after
      those opened before, with its descriptor. */
  ghost predicate ListenersAre(st: State, results: seq<ListenResult>) {
    && |st.servers| == Listeners(results) == |st.conns|
    && forall k: nat :: k < |results| && results[k].Opened? ==> ListenerAt(st, results, k)
  }

  ghost predicate ListenerAt(st: State, results: seq<ListenResult>, k: nat)
    requires k < |results| && results[k].Opened?
  {
    var l := Listeners(results[..k]);
    l < |st.servers| && st.servers[l] < |st.slots|
      && st.slots[st.servers[l]] == Slot(true, results[k].fd, SlotPool.Listen, true, false, false, false)
  }

  lemma {:induction false} ListenersMean(st: State, results: seq<ListenResult>)
    requires ListenersAre(st, results)
    ensures forall k :: 0 <= k < |results| && results[k].Opened? ==>
      var l := Listeners(results[..k]);
      l < |st.servers| && st.servers[l] < |st.slots|
      && st.slots[st.servers[l]] == Slot(true, results[k].fd, SlotPool.Listen, true, false, false, false)
  {
    forall k | 0 <= k < |results| && results[k].Opened? ensures ListenerAt(st, results, k) {
      assert 0 <= k;
    }
  }

  /** Free slots are as `calloc` left them. */
  ghost predicate FreeZero(slots: seq<Slot>) {
    forall i :: 0 <= i < |slots| && !slots[i].owned ==> slots[i] == Slot(false, 0, Unused, false, false, false, false)
  }

  lemma {:induction false} ListenersNext(st: State, st': State, before: seq<ListenResult>, result: ListenResult)
    requires Vacant(st) && FirstFree(st) && FreeZero(st.slots) && ListenersAre(st, before)
    requires (forall i <- st.servers :: i < |st.slots| && st.slots[i].owned) && Listened(st, st', result)
    ensures FreeZero(st'.slots) && ListenersAre(st', before + [result])
  {
    var results := before + [result];
    assert results[..|results| - 1] == before && st.free[0] in st.free;
    forall k: nat | k < |results| && results[k].Opened? ensures ListenerAt(st', results, k) {
      assert results[..k] == before[..k];
      if k < |before| {
        assert ListenerAt(st, before, k);
        ListenersGrow(before, k);
      }
    }
  }

  lemma {:induction false} ListenersGrow(results: seq<ListenResult>, k: nat)
    requires k < |results| && results[k].Opened?
    ensures Listeners(results[..k]) < Listeners(results)
    decreases |results|
  {
    if k == |results| - 1 {
    } else {
      assert results[..|results| - 1][..k] == results[..k];
      ListenersGrow(results[..|results| - 1], k);
    }
  }

  lemma {:induction false} SomeOpened(results: seq<ListenResult>)
    ensures Listeners(results) > 0 <==> exists k :: 0 <= k < |results| && results[k].Opened?
  {
    if results == [] {
    } else {
      var prev := results[..|results| - 1];
      SomeOpened(prev);
      if exists k :: 0 <= k < |prev| && prev[k].Opened? {
        var k :| 0 <= k < |prev| && prev[k].Opened?;
        assert results[k].Opened?;
      }
    }
  }

  /** What becomes of the first free slot when one server is configured. */
  ghost predicate Listened(st: State, st': State, result: ListenResult)
    requires FirstFree(st)
  {
    if result.Opened? then
      var i := st.free[0].slot;
      st' == st.(words := st'.words, free := st.free[1..], conns := [Node(i)] + st.conns,
                 servers := st.servers + [i], used := st.used + 1,
                 slots := st.slots[i := Slot(true, result.fd, SlotPool.Listen, !st.slots[i].stale, false, false,
                                             false)])
    else st' == st.(words := st'.words)
  }

  lemma {:induction false} DrawnListened(st: State, v: Words, w: Words, i: nat, result: ListenResult)
    requires FirstFree(st) && st.free[0] == Node(i) && !st.slots[i].owned
    ensures var d := Drawn(st, v, i);
      Listened(st, if result.Opened? then Enlisted(d, w, i, CreateSocket(d.slots[i], result.fd, SlotPool.Listen))
                   else Refused(d, w, i, d.slots[i]), result)
  {
    assert [Node(i)] + st.free[1..] == st.free && Own(st.slots, i, true)[i := st.slots[i]] == st.slots;
  }

  /** Before any slot is handed out. */
  lemma {:induction false} BlankAgrees(st: State, limit: int)
    requires AllZero(st.slots) && st.conns == [] && st.servers == [] && st.watched == map[] && st.used == 0
      && st.power == limit
    ensures Agree(st, limit, Nothing)
  {}

  /** What the pool did to its part of memory does not concern the other two lists. */
  lemma {:induction false} NewLists(st: State, w: Words, slots: seq<Slot>, free: seq<Addr>, used: int)
    requires Lists(st) && st.conns == [] && st.posted == [] && PoolOk(w, slots, free, used)
    requires w[Connections] == st.words[Connections] && w[PostedEvents] == st.words[PostedEvents]
    ensures Lists(st.(words := w, slots := slots, free := free, used := used))
  {}

  // ----- what the kernel reports

  /** One entry that `epoll_wait` fills in; `stale` is the low bit of the pointer it was registered with. */
  datatype Event = Event(slot: nat, stale: bool, input: bool, output: bool, hangup: bool)

  /** What `epoll_wait` answers; `changes` is the readiness the kernel knows of, watched or not. */
  datatype WaitResult = Interrupted | WaitFailed | Ready(changes: seq<Event>)

  /** One pass of `event_loop`: whether the lock could be had, which listeners `epoll_ctl` adds and deletes, what the
      wait answers, and how the application reacts to the sockets it is shown. */
  datatype Round = Round(lock: bool, adds: seq<bool>, deletes: seq<bool>, wait: WaitResult, reactions: nat -> Reaction)

  /** How a pass ends: the loop goes on, a wait failed, or a listener was found marked and the assert on it failed. */
  datatype Outcome = GoesOnWith | WaitFails | Aborts

  /** The kernel reports watched sockets only, each at most once, with the bit they were registered with. */
  ghost predicate Reported(watched: map<nat, bool>, events: seq<Event>) {
    events != [] ==>
      var e := events[|events| - 1];
      e.slot in watched && watched[e.slot] == e.stale && Reported(watched - {e.slot}, events[..|events| - 1])
  }

  /** Any sequence of readiness changes, cut down to what the kernel reports of it: the entry of a socket that
      is not watched, or has been reported, is left out. */
  function Report(watched: map<nat, bool>, changes: seq<Event>): (events: seq<Event>)
    ensures Reported(watched, events)
  {
    if changes == [] then [] else
      var e := changes[|changes| - 1];
      if e.slot in watched then Report(watched - {e.slot}, changes[..|changes| - 1]) + [e.(stale := watched[e.slot])]
      else Report(watched, changes[..|changes| - 1])
  }

  /** What the kernel reports comes through unharmed: `Report` loses no behaviour. */
  lemma {:induction false} ReportAll(watched: map<nat, bool>, events: seq<Event>)
    requires Reported(watched, events)
    ensures Report(watched, events) == events
  {
    if events == [] {
    } else {
      ReportAll(watched - {events[|events| - 1].slot}, events[..|events| - 1]);
    }
  }

  /** What the wait of a round reports when `seen` is watched. */
  function EventsOf(round: Round, seen: map<nat, bool>): seq<Event> {
    if round.wait.Ready? then Report(seen, round.wait.changes) else []
  }

  /** The event makes its socket readable or writable. */
  predicate Stirs(e: Event) {
    e.input || e.output || e.hangup
  }

  /** The posted list that a batch of events leads to: the last one first. */
  ghost function PostsOf(events: seq<Event>): seq<Addr> {
    if events == [] then [] else
      var e := events[|events| - 1];
      (if Stirs(e) then [PostedNode(e.slot)] else []) + PostsOf(events[..|events| - 1])
  }

  lemma {:induction false} PostsFrom(watched: map<nat, bool>, events: seq<Event>)
    requires Reported(watched, events)
    ensures forall a <- PostsOf(events) :: a.PostedNode? && a.slot in watched
  {
    if events == [] {
    } else {
      PostsFrom(watched - {events[|events| - 1].slot}, events[..|events| - 1]);
    }
  }

  lemma {:induction false} ReportedPrefix(watched: map<nat, bool>, events: seq<Event>, k: nat)
    requires Reported(watched, events) && k < |events|
    ensures Reported(watched, events[..k + 1])
    decreases |events|
  {
    if k + 1 < |events| {
      ReportedPrefix(watched - {events[|events| - 1].slot}, events[..|events| - 1], k);
      assert events[..|events| - 1][..k + 1] == events[..k + 1];
      ReportedMore(watched, events[|events| - 1].slot, events[..k + 1]);
    } else {
      assert events[..k + 1] == events;
    }
  }

  lemma {:induction false} ReportedMore(watched: map<nat, bool>, i: nat, events: seq<Event>)
    requires Reported(watched - {i}, events)
    ensures Reported(watched, events)
  {
    if events == [] {
    } else {
      var j := events[|events| - 1].slot;
      assert watched - {i} - {j} == watched - {j} - {i};
      ReportedMore(watched - {j}, i, events[..|events| - 1]);
    }
  }

  /** The sockets that were watched during the wait are still in use, under the same stale bits. */
  ghost predicate Seen(st: State, seen: map<nat, bool>) {
    forall i <- seen :: Live(st, i) && seen[i] == st.slots[i].stale && st.slots[i].fd >= 0
  }

  /** What an event makes of the slot it names. */
  function Woken(g: Slot, e: Event): Slot {
    g.(readable := e.input || e.hangup, writable := e.output || e.hangup)
  }

  /** The slots after a batch of events. */
  ghost function WokenAll(slots: seq<Slot>, events: seq<Event>): (r: seq<Slot>)
    ensures |r| == |slots|
  {
    if events == [] then slots else
      var e := events[|events| - 1];
      var s := WokenAll(slots, events[..|events| - 1]);
      if e.slot < |s| then s[e.slot := Woken(s[e.slot], e)] else s
  }

  /** The socket that an event names is readable and writable as the event says, errors and hang-ups counting as both;
      nothing else about it has changed; and it is posted if it is one or the other. */
  ghost predicate EventShows(slots: seq<Slot>, e: Event, slots': seq<Slot>, posted: seq<Addr>) {
    && e.slot < |slots| == |slots'|
    && slots'[e.slot] == slots[e.slot].(readable := e.input || e.hangup, writable := e.output || e.hangup)
    && (PostedNode(e.slot) in posted <==> e.input || e.output || e.hangup)
  }

  lemma {:induction false} Unnamed(slots: seq<Slot>, events: seq<Event>, j: nat)
    requires j < |slots| && forall i :: 0 <= i < |events| ==> events[i].slot != j
    ensures WokenAll(slots, events)[j] == slots[j] && PostedNode(j) !in PostsOf(events)
  {
    if events == [] {
    } else {
      Unnamed(slots, events[..|events| - 1], j);
    }
  }

  lemma {:induction false} ReportedIn(seen: map<nat, bool>, events: seq<Event>, i: nat)
    requires Reported(seen, events) && i < |events|
    ensures events[i].slot in seen && events[i].stale == seen[events[i].slot]
    decreases |events|
  {
    if i < |events| - 1 {
      ReportedIn(seen - {events[|events| - 1].slot}, events[..|events| - 1], i);
    }
  }

  lemma {:induction false} BatchShows(seen: map<nat, bool>, slots: seq<Slot>, events: seq<Event>, i: nat)
    requires Reported(seen, events) && i < |events| && events[i].slot < |slots|
    ensures EventShows(slots, events[i], WokenAll(slots, events), PostsOf(events))
    decreases |events|
  {
    var prev, e := events[..|events| - 1], events[|events| - 1];
    if i < |prev| {
      BatchShows(seen - {e.slot}, slots, prev, i);
      ReportedIn(seen - {e.slot}, prev, i);
    } else {
      forall k | 0 <= k < |prev| ensures prev[k].slot != e.slot {
        ReportedIn(seen - {e.slot}, prev, k);
      }
      Unnamed(slots, prev, e.slot);
    }
  }

  lemma {:induction false} AllShow(seen: map<nat, bool>, slots: seq<Slot>, events: seq<Event>)
    requires Reported(seen, events) && forall i <- seen :: i < |slots|
    ensures forall i :: 0 <= i < |events| ==> EventShows(slots, events[i], WokenAll(slots, events), PostsOf(events))
    ensures forall j :: 0 <= j < |slots| && (forall i :: 0 <= i < |events| ==> events[i].slot != j) ==>
      WokenAll(slots, events)[j] == slots[j]
  {
    forall i | 0 <= i < |events|
      ensures EventShows(slots, events[i], WokenAll(slots, events), PostsOf(events))
    {
      ReportedIn(seen, events, i);
      BatchShows(seen, slots, events, i);
    }
    forall j | 0 <= j < |slots| && (forall i :: 0 <= i < |events| ==> events[i].slot != j)
      ensures WokenAll(slots, events)[j] == slots[j]
    {
      Unnamed(slots, events, j);
    }
  }

  /** The next event of a batch names a socket that is not posted yet. */
  lemma {:induction false} EventNext(seen: map<nat, bool>, events: seq<Event>, k: nat, slots: seq<Slot>)
    requires Reported(seen, events) && k < |events|
    ensures var e := events[k]; var s := WokenAll(slots, events[..k]);
      && e.slot in seen && seen[e.slot] == e.stale && PostedNode(e.slot) !in PostsOf(events[..k])
      && PostsOf(events[..k + 1]) == (if Stirs(e) then [PostedNode(e.slot)] else []) + PostsOf(events[..k])
      && WokenAll(slots, events[..k + 1]) == if e.slot < |s| then s[e.slot := Woken(s[e.slot], e)] else s
  {
    ReportedPrefix(seen, events, k);
    assert events[..k + 1][..k] == events[..k];
    PostsFrom(seen - {events[k].slot}, events[..k]);
  }

  lemma {:induction false} WokenAgrees(st: State, w: Words, limit: int, e: Event, posted: seq<Addr>,
      seen: map<nat, bool>)
    requires Agree(st, limit, Nothing) && PostedLive(st) && Seen(st, seen) && e.slot in seen
    requires posted == st.posted || posted == [PostedNode(e.slot)] + st.posted
    ensures Live(st, e.slot)
    ensures var st' := st.(words := w, slots := st.slots[e.slot := Woken(st.slots[e.slot], e)], posted := posted);
      Agree(st', limit, Nothing) && PostedLive(st') && Seen(st', seen)
  {}

  lemma {:induction false} SeenAll(st: State, limit: int, st': State)
    requires Agree(st, limit, Nothing) && st'.slots == st.slots
    ensures Seen(st', st.watched)
  {}

  /** A worker never runs up more debt than an eighth of its connections, plus the listeners that failed to open. */
  lemma {:induction false} PowerBound(st: State, max: nat, configured: nat)
    requires Lists(st) && Agree(st, max - max / 8, Nothing) && |st.slots| == max + configured
    ensures st.power + (|st.conns| - |st.servers|) == max - max / 8
    ensures st.power >= -(max / 8) - (configured - |st.servers|)
  {}
}
