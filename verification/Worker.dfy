/** One worker process: its handlers and its event loop (src/modules/event_core_module.c,
    src/modules/epoll_module.c).  What the kernel and the application answer comes in as scripts. */
module Worker {
  import AcceptLock
  import opened EventRun
  import opened IntrusiveList
  import opened ListenerWindow
  import opened Sequences
  import opened SlotPool
  import opened WorkerState

  /** `sizeof(hixo_socket_t)` in a debug build on a 64-bit machine. */
  const SOCKET_SIZE := 104

  class Worker {
    const store: Store
    const pool: Pool
    const limit: int
    var servers: seq<nat>
    var power: int
    var watched: map<nat, bool>
    var tags: seq<bool>
    var holdLock: bool
    ghost var conns: seq<Addr>
    ghost var posted: seq<Addr>

    /** Before `event_core_init_master`, with the power that `hixo_main` gives a worker. */
    constructor (max: nat)
      ensures limit == max - max / 8 && fresh(pool) && fresh(store) && pool.store == store && !pool.start
      ensures Idle() && conns == [] && servers == [] && watched == map[] && power == limit
    {
      var words := new Store();
      store := words;
      pool := new Pool(words);
      limit, power := max - max / 8, max - max / 8;
      servers, watched, tags, holdLock, conns, posted := [], map[], [], false, [], [];
    }

    ghost function Now(): State
      reads this, pool, store
    {
      State(store.words, pool.slots, pool.free, conns, posted, servers, watched, pool.used, power)
    }

    /** The lists are in order ... */
    ghost predicate Good()
      reads this, pool, store
    {
      pool.store == store && pool.capacity == |pool.slots| && Lists(Now())
    }

    /** ... and everything agrees. */
    ghost predicate Sound()
      reads this, pool, store
    {
      Good() && Agree(Now(), limit, Nothing)
    }

    /** Between two passes of `event_loop`. */
    ghost predicate Idle()
      reads this, pool, store
    {
      Sound() && posted == [] && |tags| == |servers| && !holdLock
    }

    /** Its listeners, as marks and registrations. */
    ghost function View(): AcceptLock.Member
      reads this`tags, this`servers, this`watched
    {
      Between(tags, servers, watched)
    }

    /** Where it stands in its run. */
    ghost function Here(): Stop
      reads this, pool, store
    {
      Stop(Now(), tags)
    }

    // ----- single steps, as changes of the state

    method TakeSlot() returns (r: Addr)
      requires Good()
      modifies pool`slots, pool`free, pool`used, store
      ensures Good()
      ensures r.Null? <==> old(Now()).free == []
      ensures r.Null? ==> Now() == old(Now())
      ensures !r.Null? ==> r.Node? && old(Now()).free[0] == r && r.slot < |old(Now()).slots|
      ensures !r.Null? ==> var st := old(Now());
        Now() == Drawn(st, store.words, r.slot)
    {
      ghost var st := Now();
      r := pool.Alloc();
      if !r.Null? {
        PoolMoved(st, store.words, pool.slots, pool.free, pool.used, Null);
        assert Now() == Drawn(st, store.words, r.slot);
      }
    }

    method GiveSlot(i: nat)
      requires Good() && Live(Now(), i) && Node(i) !in conns
      modifies pool`slots, pool`free, pool`used, store
      ensures Good()
      ensures var st := old(Now());
        Now() == st.(words := Now().words, slots := Own(st.slots, i, false), free := [Node(i)] + st.free,
          used := st.used - 1)
    {
      ghost var st := Now();
      pool.Free(Node(i));
      PoolMoved(st, store.words, pool.slots, pool.free, pool.used, Node(i));
    }

    method AddConn(i: nat)
      requires Good() && i < |pool.slots| && Node(i) !in conns && Node(i) !in pool.free
      modifies this`conns, store
      ensures Good() && Now() == old(Now()).(words := Now().words, conns := [Node(i)] + old(conns))
    {
      ghost var st := Now();
      store.AddNode(Connections, Node(i), conns);
      conns := [Node(i)] + conns;
      ConnsMoved(st, store.words, conns, Node(i));
    }

    method RmConn(i: nat) returns (removed: bool)
      requires Good() && i < |pool.slots|
      modifies this`conns, store
      ensures Good() && Now() == old(Now()).(words := Now().words, conns := Without(old(conns), Node(i)))
      ensures removed <==> Node(i) in old(conns)
    {
      ghost var st := Now();
      WithoutSome(store.words, Connections, conns, Node(i));
      removed := store.RmNode(Connections, Node(i), conns);
      conns := Without(conns, Node(i));
      ConnsMoved(st, store.words, conns, Null);
    }

    method Post(i: nat)
      requires Good() && i < |pool.slots| && PostedNode(i) !in posted
      modifies this`posted, store
      ensures Good() && Now() == old(Now()).(words := Now().words, posted := [PostedNode(i)] + old(posted))
    {
      ghost var st := Now();
      store.AddNode(PostedEvents, PostedNode(i), posted);
      posted := [PostedNode(i)] + posted;
      PostedMoved(st, store.words, posted, PostedNode(i));
    }

    method Unpost(i: nat) returns (removed: bool)
      requires Good() && i < |pool.slots|
      modifies this`posted, store
      ensures Good() && Now() == old(Now()).(words := Now().words, posted := Without(old(posted), PostedNode(i)))
      ensures removed <==> PostedNode(i) in old(posted)
    {
      ghost var st := Now();
      WithoutSome(store.words, PostedEvents, posted, PostedNode(i));
      removed := store.RmNode(PostedEvents, PostedNode(i), posted);
      posted := Without(posted, PostedNode(i));
      PostedMoved(st, store.words, posted, Null);
    }

    method SetSlot(i: nat, g: Slot)
      requires Good() && i < |pool.slots| && g.owned == pool.slots[i].owned
      modifies pool`slots
      ensures Good() && Now() == old(Now()).(slots := old(pool.slots)[i := g])
    {
      FieldsMoved(Now(), i, g);
      pool.slots := pool.slots[i := g];
    }

    /** The kernel's interest list. */
    method SetWatched(w: map<nat, bool>)
      requires Good()
      modifies this`watched
      ensures Good() && Now() == old(Now()).(watched := w)
    {
      watched := w;
    }

    method AddPower(d: int)
      requires Good()
      modifies this`power
      ensures Good() && Now() == old(Now()).(power := old(power) + d)
    {
      power := power + d;
    }

    // ----- hixo_handle_close

    /** Takes a connection out of everything it is in; the posted list is the caller's business. */
    method HandleClose(i: nat)
      requires Sound() && Live(Now(), i) && i !in servers
      modifies this`watched, this`conns, this`power, pool`slots, pool`free, pool`used, store
      ensures Sound()
      ensures var st := old(Now()); Now() == Gone(st, store.words, i)
      ensures pool.slots == old(pool.slots)[i := Slot(false, old(pool.slots)[i].fd, old(pool.slots)[i].kind,
                                                      old(pool.slots)[i].stale, false, false, old(pool.slots)[i].close)]
      ensures watched == old(watched) - {i} && pool.free == [Node(i)] + old(pool.free) && power == old(power) + 1
      ensures pool.used == old(pool.used) - 1 && |conns| == |old(conns)| - 1
      ensures forall a :: a in conns <==> a in old(conns) && a != Node(i)
    {
      ghost var st := Now();
      CloseFacts(st, limit, i);
      CloseSteps(i);
      Closed(st, store.words, limit, i);
    }

    method CloseSteps(i: nat)
      requires Good() && Live(Now(), i) && Node(i) in conns && Node(i) !in Without(conns, Node(i))
      modifies this`watched, this`conns, this`power, pool`slots, pool`free, pool`used, store
      ensures Good()
      ensures var st := old(Now()); Now() == Gone(st, store.words, i)
    {
      SetSlot(i, pool.slots[i].(readable := false, writable := false));
      SetWatched(watched - {i});
      var removed := RmConn(i);
      assert removed;
      GiveSlot(i);
      AddPower(1);
    }

    // ----- hixo_handle_accept

    /** A new socket nobody can use: its slot goes back. */
    method Refuse(i: nat, g: Slot)
      requires Good() && Agree(Now(), limit, Taken(i)) && g.owned && Node(i) !in conns
      modifies pool`slots, pool`free, pool`used, store
      ensures Sound()
      ensures var st := old(Now()); Now() == Refused(st, store.words, i, g)
    {
      ghost var st := Now();
      Return(i, g);
      RefusedAgrees(st, store.words, limit, i, g);
    }

    method Return(i: nat, g: Slot)
      requires Good() && Live(Now(), i) && g.owned && Node(i) !in conns
      modifies pool`slots, pool`free, pool`used, store
      ensures Good()
      ensures var st := old(Now()); Now() == Refused(st, store.words, i, g)
    {
      SetSlot(i, g);
      GiveSlot(i);
    }

    /** A new connection. */
    method Welcome(i: nat, g: Slot)
      requires Good() && Agree(Now(), limit, Taken(i)) && Node(i) !in conns && Node(i) !in pool.free
      requires g.owned && g.kind.Cmnct? && g.fd >= 0
      modifies this`watched, this`conns, this`power, pool`slots, store
      ensures Sound()
      ensures var st := old(Now()); Now() == Joined(st, store.words, i, g)
    {
      ghost var st := Now();
      Place(i, g);
      JoinedAgrees(st, store.words, limit, i, g);
    }

    method Place(i: nat, g: Slot)
      requires Good() && Live(Now(), i) && Node(i) !in conns && Node(i) !in pool.free && g.owned
      modifies this`watched, this`conns, this`power, pool`slots, store
      ensures Good()
      ensures var st := old(Now()); Now() == Joined(st, store.words, i, g)
    {
      SetSlot(i, g);
      SetWatched(watched[i := pool.slots[i].stale]);
      AddConn(i);
      AddPower(-1);
    }

    method Draw() returns (r: Addr)
      requires Sound()
      modifies pool`slots, pool`free, pool`used, store
      ensures Good() && (r.Null? <==> old(pool.free) == [])
      ensures r.Null? ==> Now() == old(Now())
      ensures !r.Null? ==> var st := old(Now());
        && r.Node? && Agree(Now(), limit, Taken(r.slot)) && st.free[0] == r && r.slot < |st.slots|
          && Now() == Drawn(st, store.words, r.slot)
        && !st.slots[r.slot].owned && r !in conns && r !in pool.free && r.slot !in servers && r.slot !in watched
    {
      ghost var st := Now();
      r := TakeSlot();
      if !r.Null? {
        DrawnAgrees(st, store.words, limit, r.slot);
      }
    }

    /** Once `accept` has answered. */
    method Settle(i: nat, answer: AcceptResult)
      requires Good() && Agree(Now(), limit, Taken(i)) && Node(i) !in conns && Node(i) !in pool.free
      modifies this`watched, this`conns, this`power, pool`slots, pool`free, pool`used, store
      ensures Sound()
      ensures var st := old(Now()); Now() == Settled(st, store.words, i, answer)
    {
      if answer.Accepted? {
        var g := CreateSocket(pool.slots[i], answer.fd, Cmnct);
        if answer.watch {
          Welcome(i, g.(close := answer.closes));
        } else {
          Refuse(i, g);
        }
      } else {
        Refuse(i, pool.slots[i]);
      }
    }

    /** One turn of the loop. */
    method AcceptOne(answer: AcceptResult) returns (more: bool)
      requires Sound()
      modifies this`watched, this`conns, this`power, pool`slots, pool`free, pool`used, store
      ensures Sound()
      ensures more <==> old(pool.free) != [] && (answer.Accepted? || answer.Aborted?)
      ensures old(pool.free) == [] ==> Now() == old(Now())
      ensures old(pool.free) != [] ==> FirstFree(old(Now())) && OneAnswer(old(Now()), Now(), answer)
      ensures old(pool.free) != [] && answer.Accepted? && answer.watch ==>
        var i := old(pool.free)[0].slot;
        && pool.slots == old(pool.slots)[i := Slot(true, answer.fd, Cmnct, !old(pool.slots)[i].stale, false, false,
                                                   answer.closes)]
        && i in watched && watched[i] == pool.slots[i].stale && power == old(power) - 1
      ensures old(pool.free) != [] && !(answer.Accepted? && answer.watch) ==>
        pool.free == old(pool.free) && conns == old(conns) && watched == old(watched) && power == old(power)
    {
      ghost var st := Now();
      var p := Draw();
      more := !p.Null? && (answer.Accepted? || answer.Aborted?);
      if !p.Null? {
        ghost var v := store.words;
        Settle(p.slot, answer);
        SettledOne(st, v, store.words, p.slot, answer);
      }
    }

    /** `hixo_handle_accept`; a script that has run out answers EAGAIN.  `n` answers are asked for, and those at the
        places `taken` open connections. */
    method HandleAccept(script: seq<AcceptResult>) returns (ghost n: nat, ghost taken: seq<nat>)
      requires Sound()
      modifies this`watched, this`conns, this`power, pool`slots, pool`free, pool`used, store
      ensures Sound() && Accepts(old(Now()), Now(), script, n, taken)
      ensures n <= |script| && |taken| <= |old(pool.free)| && pool.free == old(pool.free)[|taken|..]
      ensures forall k, l :: 0 <= k < l < |taken| ==> taken[k] < taken[l]
      ensures forall j :: 0 <= j < n ==> (j in taken <==> script[j].Accepted? && script[j].watch)
      ensures forall j :: 0 <= j < n - 1 ==> script[j].Accepted? || script[j].Aborted?
      ensures n == |script| || |taken| == |old(pool.free)|
        || (n > 0 && !script[n - 1].Accepted? && !script[n - 1].Aborted?)
      ensures forall k :: 0 <= k < |taken| ==>
        && taken[k] < |script| && script[taken[k]].Accepted?
        && old(pool.free)[k].Node? && old(pool.free)[k].slot < |pool.slots|
        && var i := old(pool.free)[k].slot;
        && pool.slots[i] == Slot(true, script[taken[k]].fd, Cmnct, pool.slots[i].stale, false, false,
                                 script[taken[k]].closes)
        && i in watched && watched[i] == pool.slots[i].stale
    {
      ghost var st := Now();
      n, taken := AcceptAll(script);
      AcceptsMeans(st, Now(), script, n, taken);
    }

    method AcceptAll(script: seq<AcceptResult>) returns (ghost n: nat, ghost taken: seq<nat>)
      requires Sound()
      modifies this`watched, this`conns, this`power, pool`slots, pool`free, pool`used, store
      ensures Sound() && Accepts(old(Now()), Now(), script, n, taken)
    {
      ghost var st := Now();
      SoundVacant(st, limit);
      FilledNone(st, script);
      n, taken := 0, [];
      var k, more := 0, true;
      while more && k < |script|
        invariant Sound() && Stage(st, Now(), script, n, taken, more) && (more ==> n == k)
        decreases |script| - k
      {
        more, n, taken := AcceptNext(script, k, st, taken);
        k := k + 1;
      }
      if more {
        StageFull(st, Now(), script, n, taken);
      }
    }

    method AcceptNext(script: seq<AcceptResult>, k: nat, ghost st: State, ghost taken: seq<nat>)
      returns (more: bool, ghost n: nat, ghost taken': seq<nat>)
      requires Sound() && k < |script| && Stage(st, Now(), script, k, taken, true)
      modifies this`watched, this`conns, this`power, pool`slots, pool`free, pool`used, store
      ensures Sound() && Stage(st, Now(), script, n, taken', more) && (more ==> n == k + 1)
    {
      ghost var now := Now();
      more := AcceptOne(script[k]);
      n, taken' := k, taken;
      if now.free == [] {
        StageFull(st, now, script, k, taken);
      } else {
        n, taken' := k + 1, if script[k].Accepted? && script[k].watch then taken + [k] else taken;
        StageNext(st, now, Now(), script, k, taken, taken');
      }
    }

    // ----- event_core_init_master

    /** One configured server: a listener in the first free slot, or the slot goes back as it was. */
    method Listen(result: ListenResult)
      requires Sound() && pool.free != []
      modifies this`servers, this`conns, pool`slots, pool`free, pool`used, store
      ensures Sound() && watched == old(watched) && FirstFree(old(Now())) && Listened(old(Now()), Now(), result)
      ensures !result.Opened? ==>
        pool.slots == old(pool.slots) && pool.free == old(pool.free) && servers == old(servers)
      ensures result.Opened? ==>
        var i := old(pool.free)[0].slot;
        && servers == old(servers) + [i] && pool.free == old(pool.free)[1..]
        && pool.slots == old(pool.slots)[i := Slot(true, result.fd, SlotPool.Listen, !old(pool.slots)[i].stale, false,
                                                   false, false)]
    {
      if !result.BadIp? {
        ghost var st := Now();
        var p := Draw();
        assert !p.Null?;
        ghost var v := store.words;
        if result.Opened? {
          Enlist(p.slot, CreateSocket(pool.slots[p.slot], result.fd, SlotPool.Listen));
        } else {
          Refuse(p.slot, pool.slots[p.slot]);
        }
        DrawnListened(st, v, store.words, p.slot, result);
      } else {
        SoundVacant(Now(), limit);
        assert pool.free[0] in pool.free;
      }
    }

    method Enlist(i: nat, g: Slot)
      requires Good() && Agree(Now(), limit, Taken(i)) && Node(i) !in conns && Node(i) !in pool.free
      requires g.owned && g.kind.Listen? && !g.close && g.fd >= 0
      modifies this`servers, this`conns, pool`slots, store
      ensures Sound()
      ensures var st := old(Now()); Now() == Enlisted(st, store.words, i, g)
    {
      ghost var st := Now();
      SetSlot(i, g);
      servers := servers + [i];
      AddConn(i);
      EnlistedAgrees(st, store.words, limit, i, g);
    }

    method Provide(count: nat, memory: bool) returns (ok: bool)
      requires Sound() && posted == [] && servers == [] && conns == [] && watched == map[] && power == limit
        && !pool.start
      modifies pool, store
      ensures Sound()
      ensures ok <==> count > 0 && memory
      ensures ok ==> |pool.slots| == count == |pool.free| && AllZero(pool.slots)
      ensures !ok ==> Now() == old(Now()) && pool.start == old(pool.start)
    {
      ghost var st := Now();
      ok := pool.CreateResource(count, SOCKET_SIZE, memory);
      if ok {
        NewLists(st, store.words, pool.slots, pool.free, pool.used);
        BlankAgrees(Now(), limit);
      }
    }

    /** No listener: the pool is taken down again. */
    method Withdraw()
      requires Sound() && posted == [] && servers == [] && watched == map[] && power == limit
      modifies pool, store
      ensures Sound() && conns == [] && !pool.start
      ensures pool.slots == [] && pool.free == [] && pool.used == 0 && pool.capacity == 0
    {
      assert conns == [];
      pool.Destroy();
    }

    method ListenAll(results: seq<ListenResult>)
      requires Sound() && |pool.free| >= |results| && servers == [] && conns == [] && FreeZero(pool.slots)
      modifies this`servers, this`conns, pool`slots, pool`free, pool`used, store
      ensures Sound() && posted == old(posted) && |pool.slots| == |old(pool.slots)| && watched == old(watched)
      ensures ListenersAre(Now(), results)
    {
      assert results[..0] == [];
      for i := 0 to |results|
        invariant Sound() && posted == old(posted) && |pool.slots| == |old(pool.slots)| && watched == old(watched)
        invariant FreeZero(pool.slots) && ListenersAre(Now(), results[..i]) && |pool.free| >= |results| - i
      {
        ListenNext(results[i], results[..i]);
        assert results[..i + 1] == results[..i] + [results[i]];
      }
      assert results[..|results|] == results;
    }

    method ListenNext(result: ListenResult, ghost before: seq<ListenResult>)
      requires Sound() && pool.free != [] && FreeZero(pool.slots) && ListenersAre(Now(), before)
      modifies this`servers, this`conns, pool`slots, pool`free, pool`used, store
      ensures Sound() && posted == old(posted) && |pool.slots| == |old(pool.slots)| && watched == old(watched)
      ensures FreeZero(pool.slots) && ListenersAre(Now(), before + [result]) && |pool.free| >= |old(pool.free)| - 1
    {
      ghost var st := Now();
      SoundVacant(st, limit);
      Listen(result);
      ListenersNext(st, Now(), before, result);
    }

    /** The pool, and a listener for every configured server that can be opened; it fails when there is none.
        `memory` is whether the allocations succeed. */
    method InitMaster(max: nat, results: seq<ListenResult>, memory: bool) returns (ok: bool)
      requires Idle() && servers == [] && conns == [] && watched == map[] && power == limit && !pool.start
      modifies this`servers, this`conns, this`tags, pool, store
      ensures Idle() && NoneSet(tags) && (ok <==> memory && exists k :: 0 <= k < |results| && results[k].Opened?)
      ensures ok ==>
        |servers| == Listeners(results) && |pool.slots| == max + |results| && |conns| == pool.used == |servers|
      ensures ok ==> forall k :: 0 <= k < |results| && results[k].Opened? ==>
        var l := Listeners(results[..k]);
        l < |servers| && servers[l] < |pool.slots|
        && pool.slots[servers[l]] == Slot(true, results[k].fd, SlotPool.Listen, true, false, false, false)
      ensures !ok ==> servers == [] && conns == [] && !pool.start
    {
      ok := SetUp(max, results, memory);
      tags := seq(|servers|, k => false);
      SomeOpened(results);
      if ok {
        ListenersMean(Now(), results);
      }
    }

    method SetUp(max: nat, results: seq<ListenResult>, memory: bool) returns (ok: bool)
      requires Sound() && posted == [] && servers == [] && conns == [] && watched == map[] && power == limit
        && !pool.start
      modifies this`servers, this`conns, pool, store
      ensures Sound() && posted == [] && (ok <==> memory && Listeners(results) > 0)
      ensures ok ==> |pool.slots| == max + |results| && ListenersAre(Now(), results) && |conns| == pool.used
      ensures !ok ==> servers == [] && conns == [] && !pool.start
    {
      ok := Provide(max + |results|, memory);
      if ok {
        ListenAll(results);
        if |servers| == 0 {
          ok := false;
          Withdraw();
        }
      }
    }

    // ----- event_loop, the posted sockets

    /** The read handler: for a listener the accept handler, for a connection the application's. */
    method Read(i: nat, r: Reaction)
      requires Sound() && Live(Now(), i)
      modifies this`watched, this`conns, this`power, pool`slots, pool`free, pool`used, store
      ensures Sound() && i < |pool.slots|
      ensures var st := old(Now()); var g := st.slots[i];
        if g.readable && g.kind.Listen? then Accepting(st, Now(), r.script)
        else Now() == if g.kind.Listen? then st else st.(slots := st.slots[i := AfterRead(g, r)])
    {
      if pool.slots[i].readable {
        if pool.slots[i].kind.Listen? {
          ghost var n, taken := HandleAccept(r.script);
        } else {
          ghost var st := Now();
          var g := pool.slots[i].(readable := r.readable, close := pool.slots[i].close || r.closes);
          SetSlot(i, g);
          Flagged(st, limit, i, g);
        }
      }
    }

    /** A socket whose close flag is up is closed; its slot is free from here on. */
    method CloseIfAsked(i: nat)
      requires Sound() && Live(Now(), i)
      modifies this`watched, this`conns, this`power, pool`slots, pool`free, pool`used, store
      ensures Sound()
      ensures var st := old(Now()); Now() == if st.slots[i].close then Gone(st, store.words, i) else st
    {
      if pool.slots[i].close {
        HandleClose(i);
      }
    }

    /** The write handler, which a listener does not have; it is never called on a socket that has been closed. */
    method Write(i: nat, r: Reaction)
      requires Sound() && i < |pool.slots| && (pool.slots[i].writable ==> Live(Now(), i))
      modifies pool`slots
      ensures Sound()
      ensures var st := old(Now()); var g := st.slots[i];
        Now() == if g.kind.Cmnct? then st.(slots := st.slots[i := AfterWrite(g, r)]) else st
    {
      if pool.slots[i].writable {
        if pool.slots[i].kind.Cmnct? {
          ghost var st := Now();
          var g := pool.slots[i].(writable := r.writable, close := pool.slots[i].close || r.closesLate);
          SetSlot(i, g);
          Flagged(st, limit, i, g);
        }
      }
    }

    /** One posted socket: read, close, write. */
    method HandlersOf(i: nat, r: Reaction)
      requires Sound() && Live(Now(), i)
      modifies this`watched, this`conns, this`power, pool`slots, pool`free, pool`used, store
      ensures Sound() && i < |old(pool.slots)| && Handled(old(Now()), Now(), i, r)
      ensures var g := old(pool.slots)[i];
        g.kind.Cmnct? && (g.close || (g.readable && r.closes)) ==>
          && pool.slots == old(pool.slots)[i := Slot(false, g.fd, Cmnct, g.stale, false, false, true)]
          && i !in watched && power == old(power) + 1
      ensures var g := old(pool.slots)[i];
        g.kind.Cmnct? && !g.close && !(g.readable && r.closes) ==>
          && pool.slots == old(pool.slots)[i := Slot(true, g.fd, Cmnct, g.stale, g.readable && r.readable,
                                                     g.writable && r.writable, g.writable && r.closesLate)]
          && watched == old(watched) && power == old(power)
    {
      ghost var st := Now();
      RunHandlers(i, r);
      HandledMeans(st, Now(), limit, i, r);
    }

    method RunHandlers(i: nat, r: Reaction)
      requires Sound() && Live(Now(), i)
      modifies this`watched, this`conns, this`power, pool`slots, pool`free, pool`used, store
      ensures Sound() && i < |old(pool.slots)| && Handled(old(Now()), Now(), i, r)
    {
      ghost var st := Now();
      Read(i, r);
      ghost var st1 := Now();
      ReadHandled(st, st1, limit, i, r);
      CloseIfAsked(i);
      ghost var st2 := Now();
      Write(i, r);
      WriteHandled(st, st1, st2, Now(), limit, i, r);
    }

    /** One turn of the loop: the next element is fetched before the handlers run, and is still the next
        element when they are done. */
    method HandleOne(iter: Addr, r: Reaction) returns (next: Addr)
      requires Sound() && PostedLive(Now()) && posted != [] && iter == posted[0]
      modifies this`watched, this`conns, this`power, this`posted, pool`slots, pool`free, pool`used, store
      ensures Sound() && PostedLive(Now())
      ensures servers == old(servers) && |pool.slots| == |old(pool.slots)| && next == Head(posted)
      ensures Turn(old(Now()), Now(), r)
    {
      ghost var st := Now();
      PostedFirst(st);
      next := store.words[iter];
      HandlersOf(iter.slot, r);
      ghost var st' := Now();
      HandledKept(st, st', limit, iter.slot, r);
      var removed := Unpost(iter.slot);
      assert removed;
      PostedDone(st, st', store.words, limit, iter.slot);
      assert st' == Now().(posted := st.posted, words := st'.words);
    }

    /** The loop over the posted list: every posted socket is handled exactly once, in order, as the `trace` of the
        states in between shows. */
    method HandlePosted(reactions: nat -> Reaction) returns (ghost trace: seq<State>)
      requires Sound() && PostedLive(Now())
      modifies this`watched, this`conns, this`power, this`posted, pool`slots, pool`free, pool`used, store
      ensures Sound() && posted == []
      ensures servers == old(servers) && |pool.slots| == |old(pool.slots)| && View() == old(View())
      ensures Traced(trace, old(Now()), Now(), reactions) && Distinct(old(posted))
    {
      ghost var st := Now();
      ChainDistinct(store.words, PostedEvents, posted);
      var iter, k := store.words[PostedEvents], 0;
      trace := [st];
      while iter != Null
        invariant Sound() && PostedLive(Now()) && servers == st.servers && |pool.slots| == |st.slots|
          && View() == old(View())
        invariant iter == Head(posted) && |trace| == k + 1 && Traced(trace, st, Now(), reactions)
        decreases |posted|
      {
        iter, trace := HandleNext(iter, reactions(k), st, trace, reactions);
        k := k + 1;
      }
      HeadNull(Now());
    }

    method HandleNext(iter: Addr, r: Reaction, ghost st: State, ghost trace: seq<State>,
        ghost reactions: nat -> Reaction)
      returns (next: Addr, ghost trace': seq<State>)
      requires Sound() && PostedLive(Now()) && iter == Head(posted) && iter != Null
      requires Traced(trace, st, Now(), reactions) && r == reactions(|trace| - 1)
      modifies this`watched, this`conns, this`power, this`posted, pool`slots, pool`free, pool`used, store
      ensures Sound() && PostedLive(Now()) && next == Head(posted)
      ensures servers == old(servers) && |pool.slots| == |old(pool.slots)| && |posted| < |old(posted)|
        && View() == old(View())
      ensures |trace'| == |trace| + 1 && Traced(trace', st, Now(), reactions)
    {
      ghost var last := Now();
      next := HandleOne(iter, r);
      PassedOne(trace, st, last, Now(), r, reactions);
      TurnWatches(last, Now(), limit, r);
      trace' := trace + [Now()];
    }

    // ----- epoll_process_events

    /** The holder of the accept lock watches the listeners, up to the first failure, which it marks.  It aborts at a
        listener that is marked already. */
    method OpenWindow(adds: seq<bool>) returns (ok: bool)
      requires Sound() && |tags| == |servers| == |adds|
      modifies this`watched, this`tags
      ensures Sound() && |tags| == |servers| && Others(watched, servers) == Others(old(watched), servers)
      ensures OpeningDone(old(tags), old(View()).watched, adds, ok, tags, View().watched)
      ensures !ok <==> exists j :: 0 <= j < |servers| && old(tags)[j] && forall i :: 0 <= i < j ==> adds[i]
      ensures ok ==> forall j :: 0 <= j < |servers| ==>
        && (servers[j] in watched <==> servers[j] in old(watched) || forall i :: 0 <= i <= j ==> adds[i])
        && (tags[j] <==> old(tags)[j] || (!adds[j] && forall i :: 0 <= i < j ==> adds[i]))
    {
      ghost var w := watched;
      ok := AddAll(adds);
      OpenMeans(servers, old(tags), w, adds, ok, tags, watched);
    }

    method AddAll(adds: seq<bool>) returns (ok: bool)
      requires Sound() && |tags| == |servers| == |adds|
      modifies this`watched, this`tags
      ensures Sound() && |tags| == |servers| && Others(watched, servers) == Others(old(watched), servers)
      ensures OpeningDone(old(tags), old(View()).watched, adds, ok, tags, View().watched)
    {
      ghost var t, w := tags, View().watched;
      var i, more := 0, true;
      ok := true;
      while more && i < |servers|
        invariant Sound() && |tags| == |servers| && Others(watched, servers) == Others(old(watched), servers)
        invariant if more then ok && tags == t && Opening(t, w, adds, View().watched, i)
                  else OpeningDone(t, w, adds, ok, tags, View().watched)
        decreases |servers| - i
      {
        OpeningNext(t, w, adds, View().watched, i);
        ok, more := OpenOne(i, adds[i]);
        i := i + 1;
      }
      if more {
        OpeningNext(t, w, adds, View().watched, i);
      }
    }

    /** One turn of the adding loop. */
    method OpenOne(i: nat, add: bool) returns (ok: bool, more: bool)
      requires Sound() && i < |servers| == |tags|
      modifies this`watched, this`tags
      ensures Sound() && Others(watched, servers) == Others(old(watched), servers)
      ensures ok == !old(tags)[i] && more == (ok && add)
      ensures tags == if ok && !add then old(tags)[i := true] else old(tags)
      ensures View().watched == if more then old(View()).watched[i := true] else old(View()).watched
    {
      ok := !tags[i];
      more := ok && add;
      if more {
        WatchListener(i);
      } else if ok {
        tags := tags[i := true];
      }
    }

    method WatchListener(i: nat)
      requires Sound() && i < |servers|
      modifies this`watched
      ensures Sound() && View().watched == old(View()).watched[i := true]
        && Others(watched, servers) == Others(old(watched), servers)
    {
      ServersDistinct(Now(), limit);
      WatchAgrees(Now(), limit, servers[i]);
      WatchOne(servers, watched, i, pool.slots[servers[i]].stale);
      SetWatched(watched[servers[i] := pool.slots[servers[i]].stale]);
    }

    /** It takes them out again and clears marks, up to the first deletion that fails. */
    method CloseWindow(deletes: seq<bool>)
      requires Sound() && |tags| == |servers| == |deletes|
      modifies this`watched, this`tags
      ensures Sound() && Others(watched, servers) == Others(old(watched), servers)
      ensures AcceptLock.Deleted(old(tags), old(View()).watched, tags, View().watched, 0,
        AcceptLock.Stop(old(tags), deletes))
      ensures |tags| == |servers| && forall j :: 0 <= j < |servers| ==>
        var past := forall i :: 0 <= i <= j ==> old(tags)[i] || deletes[i];
        && (tags[j] <==> old(tags)[j] && !past)
        && (servers[j] in watched <==> servers[j] in old(watched) && (!past || old(tags)[j]))
    {
      ghost var w := watched;
      DeleteAll(deletes);
      CloseMeans(servers, old(tags), w, deletes, tags, watched);
    }

    method DeleteAll(deletes: seq<bool>)
      requires Sound() && |tags| == |servers| == |deletes|
      modifies this`watched, this`tags
      ensures Sound() && Others(watched, servers) == Others(old(watched), servers)
      ensures AcceptLock.Deleted(old(tags), old(View()).watched, tags, View().watched, 0,
        AcceptLock.Stop(old(tags), deletes))
    {
      var i := 0;
      while i < |servers|
        invariant i <= AcceptLock.Stop(old(tags), deletes) && Sound()
          && Others(watched, servers) == Others(old(watched), servers)
        invariant AcceptLock.Deleted(old(tags), old(View()).watched, tags, View().watched, 0, i)
      {
        AcceptLock.StopNext(old(tags), deletes, i);
        if tags[i] {
          tags := tags[i := false];
        } else if deletes[i] {
          UnwatchListener(i);
        } else {
          return;
        }
        i := i + 1;
      }
    }

    method UnwatchListener(i: nat)
      requires Sound() && i < |servers|
      modifies this`watched
      ensures Sound() && View().watched == old(View()).watched[i := false]
        && Others(watched, servers) == Others(old(watched), servers)
    {
      ServersDistinct(Now(), limit);
      WatchAgrees(Now(), limit, servers[i]);
      WatchOne(servers, watched, i, false);
      SetWatched(watched - {servers[i]});
    }

    /** One entry of the event array.  Its tests for a closed or reused socket never reject it. */
    method TakeEvent(e: Event, ghost seen: map<nat, bool>)
      requires Sound() && PostedLive(Now()) && Seen(Now(), seen)
      requires e.slot in seen && seen[e.slot] == e.stale && PostedNode(e.slot) !in posted
      modifies this`posted, pool`slots, store
      ensures Sound() && PostedLive(Now()) && Seen(Now(), seen)
      ensures posted == (if Stirs(e) then [PostedNode(e.slot)] else []) + old(posted)
      ensures e.slot < |old(pool.slots)| && pool.slots == old(pool.slots)[e.slot := Woken(old(pool.slots)[e.slot], e)]
    {
      ghost var st := Now();
      assert Live(Now(), e.slot);
      if pool.slots[e.slot].fd != -1 && e.stale == pool.slots[e.slot].stale {
        SetSlot(e.slot, Woken(pool.slots[e.slot], e));
        if pool.slots[e.slot].readable || pool.slots[e.slot].writable {
          Post(e.slot);
        }
        WokenAgrees(st, store.words, limit, e, posted, seen);
      }
      assert [] + st.posted == st.posted;
    }

    method TakeEvents(events: seq<Event>, ghost seen: map<nat, bool>)
      requires Sound() && Seen(Now(), seen) && posted == [] && Reported(seen, events)
      modifies this`posted, pool`slots, store
      ensures Sound() && PostedLive(Now())
      ensures posted == PostsOf(events) && pool.slots == WokenAll(old(pool.slots), events)
      ensures forall i :: 0 <= i < |events| ==>
        var e := events[i];
        && e.slot < |old(pool.slots)| == |pool.slots|
        && pool.slots[e.slot] ==
             old(pool.slots)[e.slot].(readable := e.input || e.hangup, writable := e.output || e.hangup)
        && (PostedNode(e.slot) in posted <==> e.input || e.output || e.hangup)
      ensures forall j :: 0 <= j < |old(pool.slots)| && (forall i :: 0 <= i < |events| ==> events[i].slot != j) ==>
        pool.slots[j] == old(pool.slots)[j]
    {
      AllShow(seen, pool.slots, events);
      TakeAll(events, seen);
    }

    method TakeAll(events: seq<Event>, ghost seen: map<nat, bool>)
      requires Sound() && Seen(Now(), seen) && posted == [] && Reported(seen, events)
      modifies this`posted, pool`slots, store
      ensures Sound() && PostedLive(Now())
      ensures posted == PostsOf(events) && pool.slots == WokenAll(old(pool.slots), events)
    {
      for k := 0 to |events|
        invariant Sound() && PostedLive(Now()) && Seen(Now(), seen)
        invariant posted == PostsOf(events[..k]) && pool.slots == WokenAll(old(pool.slots), events[..k])
      {
        EventNext(seen, events, k, old(pool.slots));
        TakeEvent(events[k], seen);
      }
      assert events[..|events|] == events;
    }

    /** The wait, between opening and closing the window; `seen` is what was watched meanwhile. */
    method Wait(adds: seq<bool>, deletes: seq<bool>) returns (ok: bool, seen: map<nat, bool>)
      requires Sound() && posted == [] && |tags| == |servers| == |adds| == |deletes|
      modifies this`watched, this`tags
      ensures Sound() && |tags| == |servers|
        && (!ok <==> holdLock && AcceptLock.MarkUpTo(old(tags), AcceptLock.FirstFailure(adds)))
      ensures ok ==> Seen(Now(), seen) && SeenWith(seen, old(watched), servers, holdLock, adds)
      ensures Others(watched, servers) == Others(old(watched), servers)
      ensures ok ==>
        if holdLock then AcceptLock.Called(old(tags), old(View()).watched, adds, deletes, tags, View().watched)
                     else tags == old(tags) && watched == old(watched)
    {
      ok, seen := true, map[];
      if holdLock {
        ok := OpenWindow(adds);
      }
      if ok {
        assert store.words[PostedEvents] == Null;
        seen := watched;
        ghost var st, w1 := Now(), View().watched;
        if holdLock {
          CloseWindow(deletes);
          BothLoops(old(tags), old(View()).watched, adds, deletes, w1, tags, View().watched);
        }
        SeenAll(st, limit, Now());
      }
    }

    /** `epoll_process_events`: the posted list is what the kernel reported and the tests let through.  Without the
        power or the lock no listener is added or deleted; the call aborts exactly if it comes to a marked listener,
        with the power, the lock and all additions before; and what is no listener stays registered as it was. */
    method ProcessEvents(round: Round) returns (end: Outcome, ghost seen: map<nat, bool>)
      requires Idle() && |round.adds| == |round.deletes| == |servers|
      modifies this`watched, this`tags, this`holdLock, this`posted, pool`slots, store
      ensures Sound() && |pool.slots| == |old(pool.slots)| && |tags| == |servers|
      ensures end == Aborts <==> AcceptLock.RunsInto(Seat(old(Here())), CallAt(old(Here()), round))
      ensures end == Aborts <==>
        old(power) > 0 && round.lock
        && exists j :: 0 <= j < |old(tags)| && old(tags)[j] && forall i :: 0 <= i < j ==> round.adds[i]
      ensures end != Aborts ==> PostedLive(Now()) && !holdLock && (end == WaitFails <==> round.wait.WaitFailed?)
      ensures end != Aborts ==> Waited(old(Here()), round, seen, Here())
      ensures old(power) <= 0 || !round.lock ==>
        end != Aborts && seen == old(watched) && watched == old(watched) && tags == old(tags)
      ensures end != Aborts && old(power) > 0 && round.lock ==> forall j :: 0 <= j < |servers| ==>
        (servers[j] in seen <==> servers[j] in old(watched) || forall i :: 0 <= i <= j ==> round.adds[i])
      ensures end != Aborts ==> forall i: nat :: i !in servers ==>
        (i in watched <==> i in old(watched)) && (i in old(watched) ==> watched[i] == old(watched)[i])
    {
      ghost var s := Here();
      end, seen := WaitAndPost(round);
      AbortsMeans(s, round);
      if end != Aborts {
        WaitedMeans(s, round, seen, Here());
      }
    }

    method WaitAndPost(round: Round) returns (end: Outcome, ghost seen: map<nat, bool>)
      requires Idle() && |round.adds| == |round.deletes| == |servers|
      modifies this`watched, this`tags, this`holdLock, this`posted, pool`slots, store
      ensures Sound() && |pool.slots| == |old(pool.slots)| && |tags| == |servers|
      ensures end == Aborts <==> AcceptLock.RunsInto(Seat(old(Here())), CallAt(old(Here()), round))
      ensures end != Aborts ==> PostedLive(Now()) && !holdLock && (end == WaitFails <==> round.wait.WaitFailed?)
      ensures end != Aborts ==> Waited(old(Here()), round, seen, Here())
    {
      ghost var s := Here();
      var ok, watching := HoldAndWait(round);
      seen := watching;
      end := Aborts;
      if ok {
        TakeReport(round, watching, s);
        holdLock := false;
        end := if round.wait.WaitFailed? then WaitFails else GoesOnWith;
      }
    }

    /** The try for the lock, and the wait in its window: one call as `AcceptLock` has it. */
    method HoldAndWait(round: Round) returns (ok: bool, seen: map<nat, bool>)
      requires Idle() && |round.adds| == |round.deletes| == |servers|
      modifies this`watched, this`tags, this`holdLock
      ensures Sound() && |tags| == |servers|
      ensures !ok <==> AcceptLock.RunsInto(Seat(old(Here())), CallAt(old(Here()), round))
      ensures ok ==> Seen(Now(), seen) && Woke(old(Here()), round, seen, Here())
    {
      ghost var m, call := View(), CallOf(round, power);
      AcceptLock.RunsIntoExactly(m, call);
      holdLock := power > 0 && round.lock;
      ok, seen := Wait(round.adds, round.deletes);
      if ok {
        CallIsSolo(m, View(), call);
      }
    }

    /** After the wait. */
    method TakeReport(round: Round, seen: map<nat, bool>, ghost s: Stop)
      requires Sound() && Seen(Now(), seen) && posted == [] && Woke(s, round, seen, Here())
      modifies this`posted, pool`slots, store
      ensures Sound() && PostedLive(Now()) && Waited(s, round, seen, Here())
    {
      ghost var s1 := Here();
      if round.wait.Ready? {
        TakeEvents(Report(seen, round.wait.changes), seen);
      }
      WokeWaited(s, round, seen, s1, Here());
    }

    /** One pass: wait, then handle what was posted; `mid` is in between, and `trace` leads through the handling. */
    method Pass(round: Round)
      returns (end: Outcome, ghost seen: map<nat, bool>, ghost mid: Stop, ghost trace: seq<State>)
      requires Idle() && |round.adds| == |round.deletes| == |servers|
      modifies this`watched, this`conns, this`power, this`posted, this`tags, this`holdLock, pool`slots, pool`free,
        pool`used, store
      ensures Sound() && servers == old(servers) && |pool.slots| == |old(pool.slots)|
      ensures end == Aborts <==> AcceptLock.RunsInto(Seat(old(Here())), CallAt(old(Here()), round))
      ensures end != Aborts ==> Idle() && (end == WaitFails <==> round.wait.WaitFailed?)
      ensures end != Aborts ==> PassBy(old(Here()), round, seen, mid, trace, Here())
    {
      ghost var s := Here();
      end, seen := ProcessEvents(round);
      mid, trace := Here(), [];
      if end != Aborts {
        trace := HandleReported(round, end, s, seen);
      }
    }

    /** After `epoll_process_events`, unless it has failed. */
    method HandleReported(round: Round, end: Outcome, ghost s: Stop, ghost seen: map<nat, bool>)
      returns (ghost trace: seq<State>)
      requires Sound() && PostedLive(Now()) && |tags| == |servers| && !holdLock && end != Aborts
      requires !AcceptLock.RunsInto(Seat(s), CallAt(s, round)) && Waited(s, round, seen, Here())
      requires end == WaitFails <==> round.wait.WaitFailed?
      modifies this`watched, this`conns, this`power, this`posted, pool`slots, pool`free, pool`used, store
      ensures Idle() && servers == old(servers) && |pool.slots| == |old(pool.slots)|
      ensures PassBy(s, round, seen, old(Here()), trace, Here())
    {
      trace := [Now()];
      if end == GoesOnWith {
        trace := HandlePosted(round.reactions);
      }
    }

    /** `event_loop`, until a wait fails, the assert on a mark fails, or the script ends.  `run` holds the stops between
        the passes, each of which leads from one stop to the next as `Passes` says. */
    method EventLoop(rounds: seq<Round>, max: nat, configured: nat) returns (end: Outcome, ghost run: seq<Stop>)
      requires Idle() && limit == max - max / 8 && |pool.slots| == max + configured
      requires AllAnswered(|servers|, rounds)
      modifies this`watched, this`conns, this`power, this`posted, this`tags, this`holdLock, pool`slots, pool`free,
        pool`used, store
      ensures Sound() && servers == old(servers) && (end != Aborts ==> Idle())
      ensures Course(run, rounds) && run[0] == old(Here()) && Ended(run, rounds, end, Here())
      ensures AllAtRest(run, max, configured)
      ensures end == GoesOnWith ==> |run| == |rounds| + 1
      ensures end == WaitFails <==> |run| > 1 && rounds[|run| - 2].wait.WaitFailed?
      ensures forall s <- run ::
        s.state.posted == [] && s.state.power >= -(max / 8) - (configured - |s.state.servers|)
      ensures NoneSet(old(tags)) && (forall r <- rounds :: !AcceptLock.Leaves(AcceptLock.Held(r.adds, r.deletes))) ==>
        end != Aborts && NoneSet(tags)
    {
      ghost var first := Here();
      end, run := Loop(rounds, max, configured);
      RunMeans(run, rounds, end, Here(), max, configured);
      if NoneSet(first.tags) && forall r <- rounds :: !AcceptLock.Leaves(AcceptLock.Held(r.adds, r.deletes)) {
        AnswersDecide(run, rounds, end, Here());
      }
    }

    method Loop(rounds: seq<Round>, max: nat, configured: nat) returns (end: Outcome, ghost run: seq<Stop>)
      requires Idle() && limit == max - max / 8 && |pool.slots| == max + configured
      requires AllAnswered(|servers|, rounds)
      modifies this`watched, this`conns, this`power, this`posted, this`tags, this`holdLock, pool`slots, pool`free,
        pool`used, store
      ensures Sound() && servers == old(servers) && (end != Aborts ==> Idle())
      ensures Course(run, rounds) && run[0] == old(Here()) && Ended(run, rounds, end, Here())
      ensures AllAtRest(run, max, configured)
    {
      ghost var first := Here();
      PowerBound(Now(), max, configured);
      RunStarts(first, rounds, max, configured);
      end, run := GoesOnWith, [first];
      var k := 0;
      while end == GoesOnWith && k < |rounds|
        invariant Sound() && servers == old(servers) && |pool.slots| == max + configured && (end != Aborts ==> Idle())
        invariant OnRun(first, run, rounds, k, end, Here(), max, configured)
      {
        end, run := NextRound(rounds, k, first, run, max, configured);
        k := k + 1;
      }
    }

    method NextRound(rounds: seq<Round>, k: nat, ghost first: Stop, ghost run: seq<Stop>, ghost max: nat,
        ghost configured: nat)
      returns (end: Outcome, ghost run': seq<Stop>)
      requires Idle() && limit == max - max / 8 && |pool.slots| == max + configured
      requires AllAnswered(|servers|, rounds) && k < |rounds|
      requires OnRun(first, run, rounds, k, GoesOnWith, Here(), max, configured)
      modifies this`watched, this`conns, this`power, this`posted, this`tags, this`holdLock, pool`slots, pool`free,
        pool`used, store
      ensures Sound() && servers == old(servers) && |pool.slots| == |old(pool.slots)| && (end != Aborts ==> Idle())
      ensures OnRun(first, run', rounds, k + 1, end, Here(), max, configured)
    {
      ghost var s := Here();
      ghost var seen, mid, trace;
      end, seen, mid, trace := Pass(rounds[k]);
      PowerBound(Now(), max, configured);
      RunGoesOn(first, run, rounds, k, s, end, Here(), max, configured);
      run' := if end == Aborts then run else run + [Here()];
    }
  }

  /** A worker from its start: the pool and the listeners are set up, the power is given, and the loop runs. */
  method Serve(max: nat, results: seq<ListenResult>, memory: bool, rounds: seq<Round>)
    returns (w: Worker, ok: bool, end: Outcome, ghost run: seq<Stop>)
    requires AllAnswered(Listeners(results), rounds)
    ensures fresh(w) && w.Sound() && (ok <==> memory && Listeners(results) > 0)
    ensures ok ==> Course(run, rounds) && Ended(run, rounds, end, w.Here()) && AllAtRest(run, max, |results|)
    ensures ok ==> |run[0].state.servers| == Listeners(results) && NoneSet(run[0].tags) && run[0].state.watched == map[]
    ensures ok && (forall r <- rounds :: !AcceptLock.Leaves(AcceptLock.Held(r.adds, r.deletes))) ==> end != Aborts
  {
    SomeOpened(results);
    w := new Worker(max);
    ok := w.InitMaster(max, results, memory);
    end, run := GoesOnWith, [];
    if ok {
      end, run := w.EventLoop(rounds, max, |results|);
    }
  }
}
