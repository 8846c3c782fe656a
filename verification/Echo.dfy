/** The echo application's read handler and its recycling of buffers (src/modules/echo.c). */
module Echo {
  import opened CircularList
  import opened Sequences
  import opened Buffers

  const NBUFS := 4

  /** How a series of reads ends: `readv` answers 0, or fails. */
  datatype End = Eof | Reset | Again | Failed

  /** The three queues do not share buffers, and hold all there are. */
  ghost predicate Queues(m: Links, b: map<nat, Buffer>, r: seq<Link>, o: seq<Link>, t: seq<Link>, top: nat) {
    && Ring(m, ReadQueue, r) && Ring(m, OldQueue, o) && Ring(m, TmpQueue, t)
    && Backed(b, r) && Backed(b, o) && Backed(b, t)
    && (forall x <- r :: x !in o && x !in t) && (forall x <- o :: x !in t)
    && (forall i <- b :: i < top && (Buf(i) in r || Buf(i) in o || Buf(i) in t))
  }

  /** Between calls there is only the read queue. */
  ghost predicate AtRest(m: Links, b: map<nat, Buffer>, r: seq<Link>, top: nat) {
    Ring(m, ReadQueue, r) && Backed(b, r) && forall i <- b :: i < top && Buf(i) in r
  }

  ghost function Concat(chunks: seq<seq<bv8>>): seq<bv8> {
    if chunks == [] then [] else Concat(chunks[..|chunks| - 1]) + chunks[|chunks| - 1]
  }

  function Max(a: int, b: int): int {
    if a > b then a else b
  }

  // ----- the steps, as changes of queues

  lemma {:induction false} Started(m: Links, m': Links, b: map<nat, Buffer>, r: seq<Link>, top: nat)
    requires Backed(b, r) && (forall i <- b :: i < top && Buf(i) in r)
    requires Ring(m, OldQueue, r) && Ring(m, ReadQueue, []) && Ring(m', TmpQueue, []) && Beside(m, m', TmpQueue, [])
    ensures Queues(m', b, [], r, [], top)
  {
    RingBeside(m, m', TmpQueue, [], ReadQueue, []);
    RingBeside(m, m', TmpQueue, [], OldQueue, r);
  }

  /** Buffers move from the end of one queue to another: the third queue does not notice. */
  lemma {:induction false} MergedTmp(m: Links, m': Links, b: map<nat, Buffer>, r: seq<Link>, o: seq<Link>,
      t: seq<Link>, top: nat)
    requires Queues(m, b, r, o, t, top) && Ring(m', ReadQueue, r + t) && Ring(m', TmpQueue, [])
      && Beside(m, m', ReadQueue, r + t + [TmpQueue])
    ensures Queues(m', b, r + t, o, [], top)
  {
    RingBeside(m, m', ReadQueue, r + t + [TmpQueue], OldQueue, o);
  }

  lemma {:induction false} MergedOld(m: Links, m': Links, b: map<nat, Buffer>, r: seq<Link>, o: seq<Link>, top: nat)
    requires Queues(m, b, r, o, [], top) && Ring(m', ReadQueue, r + o)
    ensures AtRest(m', b, r + o, top)
  {}

  /** The other two queues do not notice what happens to the temporary one. */
  lemma {:induction false} BesideTmp(m: Links, m': Links, b: map<nat, Buffer>, r: seq<Link>, o: seq<Link>, t: seq<Link>)
    requires Ring(m, ReadQueue, r) && Ring(m, OldQueue, o) && Backed(b, r) && Backed(b, o) && (forall x <- t :: x.Buf?)
    requires Beside(m, m', TmpQueue, t) && (forall x <- r :: x !in t) && forall x <- o :: x !in t
    ensures Ring(m', ReadQueue, r) && Ring(m', OldQueue, o)
  {
    RingBeside(m, m', TmpQueue, t, ReadQueue, r);
    RingBeside(m, m', TmpQueue, t, OldQueue, o);
  }

  lemma {:induction false} TakenOld(m: Links, m1: Links, m2: Links, b: map<nat, Buffer>, r: seq<Link>, o: seq<Link>,
      t: seq<Link>, top: nat)
    requires Queues(m, b, r, o, t, top) && o != []
    requires Ring(m1, OldQueue, o[1..]) && Beside(m, m1, OldQueue, o[1..])
    requires Ring(m2, TmpQueue, t + [o[0]]) && Beside(m1, m2, TmpQueue, t + [o[0]])
    ensures Queues(m2, b, r, o[1..], t + [o[0]], top)
  {
    var x := o[0];
    assert x in o && x !in o[1..] && forall y <- o[1..] :: y in o;
    RingBeside(m, m1, OldQueue, o[1..], ReadQueue, r);
    BesideTmp(m1, m2, b, r, o[1..], t + [x]);
  }

  lemma {:induction false} TakenNew(m: Links, m': Links, b: map<nat, Buffer>, r: seq<Link>, o: seq<Link>,
      t: seq<Link>, top: nat, g: Buffer)
    requires Queues(m, b, r, o, t, top) && |g.data| == BUF_SIZE && g.size == 0
    requires Ring(m', TmpQueue, t + [Buf(top)]) && Beside(m, m', TmpQueue, t + [Buf(top)])
    ensures Queues(m', b[top := g], r, o, t + [Buf(top)], top + 1)
    ensures Same(b, b[top := g], r) && Same(b, b[top := g], o) && Same(b, b[top := g], t)
  {
    assert top !in b;
    BesideTmp(m, m', b, r, o, t + [Buf(top)]);
  }

  lemma {:induction false} DroppedTmp(m: Links, m': Links, b: map<nat, Buffer>, r: seq<Link>, o: seq<Link>,
      t: seq<Link>, top: nat)
    requires Queues(m, b, r, o, t, top) && t != [] && Ring(m', TmpQueue, t[1..]) && Beside(m, m', TmpQueue, t[1..])
    ensures t[0].Buf? && Queues(m', b - {t[0].id}, r, o, t[1..], top)
    ensures Same(b, b - {t[0].id}, r) && Same(b, b - {t[0].id}, o)
  {
    var x := t[0];
    assert x in t && x !in t[1..] && forall y <- t[1..] :: y in t;
    BesideTmp(m, m', b, r, o, t[1..]);
    assert forall y <- t :: y == x || y in t[1..];
  }

  lemma {:induction false} DroppedRead(m': Links, b: map<nat, Buffer>, r: seq<Link>, top: nat)
    requires Backed(b, r) && Distinct(r) && r != [] && Ring(m', ReadQueue, r[1..])
      && forall i <- b :: i < top && Buf(i) in r
    ensures r[0].Buf? && AtRest(m', b - {r[0].id}, r[1..], top)
  {
    assert r[0] in r && forall y <- r :: y == r[0] || y in r[1..];
  }

  /** New bytes and sizes in the buffers of the read leave the other queues alone. */
  lemma {:induction false} Placed(m: Links, b: map<nat, Buffer>, b': map<nat, Buffer>, r: seq<Link>, o: seq<Link>,
      t: seq<Link>, top: nat)
    requires Queues(m, b, r, o, t, top) && b'.Keys == b.Keys && Backed(b', t)
      && forall i <- b :: Buf(i) !in t ==> b'[i] == b[i]
    ensures Queues(m, b', r, o, t, top) && Contents(b', r) == Contents(b, r) && Same(b, b', o)
  {
    ContentsSame(b, b', r);
    ContentsSame(b, b', o);
  }

  class Connection {
    const lists: Lists
    var buffers: map<nat, Buffer>
    var top: nat
    var readable: bool
    var close: bool
    ghost var readq: seq<Link>
    ghost var oldq: seq<Link>
    ghost var tmpq: seq<Link>
    ghost var created: nat
    ghost var freed: nat

    constructor ()
      ensures Idle() && readq == [] && created == 0 && freed == 0 && !close && top == 0 && fresh(lists)
    {
      lists := new Lists();
      buffers, top, readable, close := map[], 0, false, false;
      readq, oldq, tmpq, created, freed := [], [], [], 0, 0;
    }

    ghost predicate Idle()
      reads this, lists
    {
      AtRest(lists.m, buffers, readq, top)
    }

    ghost predicate Busy()
      reads this, lists
    {
      Queues(lists.m, buffers, readq, oldq, tmpq, top)
    }

    /** The read queue becomes the old queue. */
    method Start()
      requires Idle()
      modifies this`readq, this`oldq, this`tmpq, lists
      ensures Busy() && readq == [] && oldq == old(readq) && tmpq == []
    {
      MoveToOld();
      ghost var m := lists.m;
      lists.Init(TmpQueue);
      Started(m, lists.m, buffers, readq, top);
      readq, oldq, tmpq := [], readq, [];
    }

    method MoveToOld()
      requires Idle()
      modifies lists
      ensures Ring(lists.m, OldQueue, readq) && Ring(lists.m, ReadQueue, [])
    {
      ghost var m := lists.m;
      lists.Init(OldQueue);
      RingBeside(m, lists.m, OldQueue, [], ReadQueue, readq);
      lists.Merge(OldQueue, ReadQueue, [], readq);
      assert [] + readq == readq;
    }

    /** Every old buffer is emptied. */
    method Blanken()
      requires Busy() && readq == [] && tmpq == []
      modifies this`buffers
      ensures Busy() && Blank(buffers, oldq) && buffers.Keys == old(buffers.Keys)
    {
      var iter := lists.m.next[OldQueue];
      ghost var k := 0;
      PathStep(lists.m, OldQueue, oldq, OldQueue, 0);
      while iter != OldQueue
        invariant k <= |oldq| && iter == At(OldQueue, oldq, k) && Busy() && Blank(buffers, oldq[..k])
          && buffers.Keys == old(buffers.Keys)
        decreases |oldq| - k
      {
        assert iter in oldq;
        buffers := buffers[iter.id := buffers[iter.id].(size := 0)];
        assert oldq[..k + 1] == oldq[..k] + [iter];
        PathStep(lists.m, OldQueue, oldq, OldQueue, k + 1);
        iter := lists.m.next[iter];
        k := k + 1;
      }
      assert oldq[..|oldq|] == oldq;
    }

    /** One buffer for the next read: an old one, or, when there is none, a new one. */
    method Draw() returns (node: Link)
      requires Busy() && Blank(buffers, oldq) && Blank(buffers, tmpq)
      modifies this`buffers, this`top, this`oldq, this`tmpq, this`created, lists
      ensures Busy() && Blank(buffers, oldq) && Blank(buffers, tmpq) && tmpq == old(tmpq) + [node]
        && Same(old(buffers), buffers, readq)
      ensures if old(oldq) != [] then oldq == old(oldq)[1..] && created == old(created)
        else oldq == [] && created == old(created) + 1
    {
      var empty := lists.Empty(OldQueue, oldq);
      if !empty {
        node := DrawOld();
      } else {
        node := DrawNew();
      }
    }

    method DrawOld() returns (node: Link)
      requires Busy() && Blank(buffers, oldq) && Blank(buffers, tmpq) && oldq != []
      modifies this`oldq, this`tmpq, lists
      ensures Busy() && Blank(buffers, oldq) && Blank(buffers, tmpq) && tmpq == old(tmpq) + [node]
        && oldq == old(oldq)[1..]
    {
      ghost var m, o, t := lists.m, oldq, tmpq;
      PathStep(m, OldQueue, o, OldQueue, 0);
      node := lists.m.next[OldQueue];
      UnlinkOld(node);
      ghost var m1 := lists.m;
      lists.AddTail(TmpQueue, node, t);
      TakenOld(m, m1, lists.m, buffers, readq, o, t, top);
      oldq, tmpq := o[1..], t + [node];
    }

    method UnlinkOld(node: Link)
      requires Busy() && oldq != [] && node == oldq[0]
      modifies lists
      ensures Ring(lists.m, OldQueue, oldq[1..]) && Beside(old(lists.m), lists.m, OldQueue, oldq[1..])
      ensures Ring(lists.m, TmpQueue, tmpq) && node !in tmpq && node != TmpQueue
    {
      ghost var m := lists.m;
      assert oldq == [] + [oldq[0]] + oldq[1..] && [] + oldq[1..] == oldq[1..] && node in oldq;
      lists.Del(node, OldQueue, [], oldq[1..]);
      assert forall y <- oldq[1..] :: y in oldq;
      RingBeside(m, lists.m, OldQueue, oldq[1..], TmpQueue, tmpq);
    }

    method DrawNew() returns (node: Link)
      requires Busy() && Blank(buffers, oldq) && Blank(buffers, tmpq)
      modifies this`buffers, this`top, this`tmpq, this`created, lists
      ensures Busy() && Blank(buffers, oldq) && Blank(buffers, tmpq) && tmpq == old(tmpq) + [node]
        && Same(old(buffers), buffers, readq)
      ensures created == old(created) + 1
    {
      ghost var m := lists.m;
      node := Buf(top);
      lists.AddTail(TmpQueue, node, tmpq);
      var g := Buffer(seq(BUF_SIZE, i => 0), 0);
      TakenNew(m, lists.m, buffers, readq, oldq, tmpq, top, g);
      buffers, top := buffers[top := g], top + 1;
      created, tmpq := created + 1, tmpq + [node];
    }

    /** The buffers for one scatter read. */
    method DrawAll() returns (vecs: seq<Link>)
      requires Busy() && Blank(buffers, oldq) && tmpq == []
      modifies this`buffers, this`top, this`oldq, this`tmpq, this`created, lists
      ensures Busy() && Blank(buffers, oldq) && Blank(buffers, tmpq) && vecs == tmpq && |tmpq| == NBUFS
        && Same(old(buffers), buffers, readq)
      ensures |oldq| == Max(|old(oldq)| - NBUFS, 0) && created == old(created) + Max(NBUFS - |old(oldq)|, 0)
    {
      vecs := [];
      for i := 0 to NBUFS
        invariant Busy() && Blank(buffers, oldq) && Blank(buffers, tmpq) && vecs == tmpq && |tmpq| == i
          && Same(old(buffers), buffers, readq)
        invariant |oldq| == Max(|old(oldq)| - i, 0) && created == old(created) + Max(i - |old(oldq)|, 0)
      {
        var node := Draw();
        vecs := vecs + [node];
      }
    }

    /** The loop that spreads the count over the buffers of the read. */
    method SpreadSizes(count: nat)
      requires Busy()
      modifies this`buffers
      ensures buffers == Sized(old(buffers), tmpq, count)
    {
      var iter, r: nat := lists.m.next[TmpQueue], count;
      ghost var k := 0;
      PathStep(lists.m, TmpQueue, tmpq, TmpQueue, 0);
      assert tmpq[0..] == tmpq && tmpq[|tmpq|..] == [];
      while iter != TmpQueue && r != 0
        invariant k <= |tmpq| && iter == At(TmpQueue, tmpq, k)
        invariant (forall x <- tmpq :: x.Buf? && x.id in buffers)
          && Sized(buffers, tmpq[k..], r) == Sized(old(buffers), tmpq, count)
        decreases |tmpq| - k
      {
        SizedStep(buffers, tmpq, k, r);
        if r < BUF_SIZE {
          buffers := buffers[iter.id := buffers[iter.id].(size := r)];
          r := 0;
        } else {
          buffers := buffers[iter.id := buffers[iter.id].(size := BUF_SIZE)];
          r := r - BUF_SIZE;
        }
        PathStep(lists.m, TmpQueue, tmpq, TmpQueue, k + 1);
        iter := lists.m.next[iter];
        k := k + 1;
      }
    }

    /** `readv` has answered with bytes. */
    method Receive(vecs: seq<Link>, chunk: seq<bv8>)
      requires Busy() && Blank(buffers, oldq) && Blank(buffers, tmpq) && vecs == tmpq && |chunk| <= |tmpq| * BUF_SIZE
      modifies this`buffers, this`readq, this`tmpq, lists
      ensures Busy() && Blank(buffers, oldq) && readq == old(readq) + old(tmpq) && tmpq == []
      ensures Contents(buffers, readq) == Contents(old(buffers), old(readq)) + chunk
    {
      ghost var b := buffers;
      ReadContents(b, vecs, chunk);
      ReadV(vecs, chunk);
      SpreadSizes(|chunk|);
      Placed(lists.m, b, buffers, readq, oldq, tmpq, top);
      ContentsAppend(buffers, readq, tmpq);
      KeepRead();
    }

    /** The kernel's part of `readv`. */
    method ReadV(vecs: seq<Link>, chunk: seq<bv8>)
      requires Busy() && vecs == tmpq
      modifies this`buffers
      ensures buffers == Scattered(old(buffers), vecs, chunk) && Busy()
    {
      ghost var b := buffers;
      ScatteredElsewhere(b, vecs, chunk);
      buffers := Scattered(buffers, vecs, chunk);
      Placed(lists.m, b, buffers, readq, oldq, tmpq, top);
    }

    method KeepRead()
      requires Busy()
      modifies this`readq, this`tmpq, lists
      ensures Busy() && readq == old(readq) + old(tmpq) && tmpq == []
    {
      ghost var m := lists.m;
      lists.Merge(ReadQueue, TmpQueue, readq, tmpq);
      MergedTmp(m, lists.m, buffers, readq, oldq, tmpq, top);
      readq, tmpq := readq + tmpq, [];
    }

    /** The buffers of a read that brought nothing are freed. */
    method FreeTmp()
      requires Busy() && Blank(buffers, oldq)
      modifies this`buffers, this`tmpq, this`freed, lists
      ensures Busy() && Blank(buffers, oldq) && tmpq == [] && freed == old(freed) + |old(tmpq)|
        && Same(old(buffers), buffers, readq)
    {
      PathStep(lists.m, TmpQueue, tmpq, TmpQueue, 0);
      var iter := lists.m.next[TmpQueue];
      while iter != TmpQueue
        invariant Busy() && Blank(buffers, oldq) && Same(old(buffers), buffers, readq)
          && freed + |tmpq| == old(freed) + |old(tmpq)|
        invariant iter == At(TmpQueue, tmpq, 0)
        decreases |tmpq|
      {
        iter := FreeFirst(iter);
      }
    }

    method FreeFirst(iter: Link) returns (next: Link)
      requires Busy() && tmpq != [] && iter == tmpq[0] && Blank(buffers, oldq)
      modifies this`buffers, this`tmpq, this`freed, lists
      ensures Busy() && tmpq == old(tmpq)[1..] && next == At(TmpQueue, tmpq, 0) && freed == old(freed) + 1
      ensures Same(old(buffers), buffers, readq) && Blank(buffers, oldq)
    {
      ghost var m, t := lists.m, tmpq;
      PathStep(m, TmpQueue, t, TmpQueue, 1);
      assert t == [] + [t[0]] + t[1..] && [] + t[1..] == t[1..] && iter in t;
      next := lists.m.next[iter];
      lists.Del(iter, TmpQueue, [], t[1..]);
      DroppedTmp(m, lists.m, buffers, readq, oldq, t, top);
      buffers, freed, tmpq := buffers - {iter.id}, freed + 1, t[1..];
    }

    /** The old buffers that were not needed go back to the read queue. */
    method Finish()
      requires Busy() && tmpq == [] && Blank(buffers, oldq)
      modifies this`readq, this`oldq, lists
      ensures Idle() && readq == old(readq) + old(oldq)
        && Contents(buffers, readq) == Contents(old(buffers), old(readq))
    {
      ghost var m := lists.m;
      ContentsAppend(buffers, readq, oldq);
      ContentsBlank(buffers, oldq);
      lists.Merge(ReadQueue, OldQueue, readq, oldq);
      MergedOld(m, lists.m, buffers, readq, oldq, top);
      readq, oldq := readq + oldq, [];
    }

    /** One turn of the loop in which `readv` brings bytes. */
    method ReadSome(chunk: seq<bv8>)
      requires Busy() && Blank(buffers, oldq) && tmpq == [] && |chunk| <= NBUFS * BUF_SIZE
      modifies this`buffers, this`top, this`readq, this`oldq, this`tmpq, this`created, lists
      ensures Busy() && Blank(buffers, oldq) && tmpq == []
      ensures Contents(buffers, readq) == Contents(old(buffers), old(readq)) + chunk && |readq| == |old(readq)| + NBUFS
      ensures |oldq| == Max(|old(oldq)| - NBUFS, 0) && created == old(created) + Max(NBUFS - |old(oldq)|, 0)
    {
      ghost var b := buffers;
      var vecs := DrawAll();
      ContentsSame(b, buffers, readq);
      Receive(vecs, chunk);
    }

    /** The turn that ends the loop. */
    method ReadEnd(end: End)
      requires Busy() && Blank(buffers, oldq) && tmpq == []
      modifies this`buffers, this`top, this`oldq, this`tmpq, this`created, this`freed, this`close, this`readable, lists
      ensures Busy() && Blank(buffers, oldq) && tmpq == [] && Contents(buffers, readq) == Contents(old(buffers), readq)
      ensures |oldq| == Max(|old(oldq)| - NBUFS, 0) && created == old(created) + Max(NBUFS - |old(oldq)|, 0)
        && freed == old(freed) + NBUFS
      ensures close && (readable <==> old(readable) && (end.Eof? || end.Reset?))
    {
      ghost var b := buffers;
      var vecs := DrawAll();
      ContentsSame(b, buffers, readq);
      ghost var b1 := buffers;
      FreeTmp();
      ContentsSame(b1, buffers, readq);
      if end.Eof? {
        close := true;
      } else if end.Reset? {
        close := true;
      } else {
        readable := false;
        close := true;
      }
    }

    /** `echo_handle_read`: the read queue stands for exactly the bytes received in this call, in order; `chunks` is
        what the reads that succeed bring, `end` is what ends them.  The buffers are as many as before, plus those
        created, minus those freed.  The reply (`test_syn_send`) always asks for the connection to be closed. */
    method HandleRead(chunks: seq<seq<bv8>>, end: End)
      requires Idle() && forall i :: 0 <= i < |chunks| ==> 0 < |chunks[i]| <= 4 * 4096
      modifies this, lists
      ensures Idle() && Contents(buffers, readq) == if old(readable) then Concat(chunks) else []
      ensures |readq| == |old(readq)| + created - old(created) - (freed - old(freed))
      ensures old(readable) ==>
        |readq| == Max(|old(readq)|, NBUFS * (|chunks| + 1)) - NBUFS && freed == old(freed) + NBUFS
      ensures !old(readable) ==>
        readq == old(readq) && created == old(created) && freed == old(freed) && close == old(close) && !readable
      ensures old(readable) ==> close && (readable <==> end.Eof? || end.Reset?)
      ensures old(readable) ==>
        freed == old(freed) + 4
        && |readq| == if |old(readq)| <= 4 * (|chunks| + 1) then 4 * |chunks| else |old(readq)| - 4
    {
      ReadAndKeep(chunks, end);
    }

    method ReadAndKeep(chunks: seq<seq<bv8>>, end: End)
      requires Idle() && forall i :: 0 <= i < |chunks| ==> 0 < |chunks[i]| <= NBUFS * BUF_SIZE
      modifies this, lists
      ensures Idle() && Contents(buffers, readq) == if old(readable) then Concat(chunks) else []
      ensures |readq| == |old(readq)| + created - old(created) - (freed - old(freed))
      ensures old(readable) ==>
        |readq| == Max(|old(readq)|, NBUFS * (|chunks| + 1)) - NBUFS && freed == old(freed) + NBUFS
      ensures !old(readable) ==>
        readq == old(readq) && created == old(created) && freed == old(freed) && close == old(close) && !readable
      ensures old(readable) ==> close && (readable <==> end.Eof? || end.Reset?)
    {
      Begin();
      if readable {
        ReadLoop(chunks, end);
      }
      Finish();
    }

    method Begin()
      requires Idle()
      modifies this`buffers, this`readq, this`oldq, this`tmpq, lists
      ensures Busy() && Blank(buffers, oldq) && readq == [] && oldq == old(readq) && tmpq == []
    {
      Start();
      Blanken();
    }

    method ReadLoop(chunks: seq<seq<bv8>>, end: End)
      requires Busy() && Blank(buffers, oldq) && tmpq == [] && readq == []
        && forall i :: 0 <= i < |chunks| ==> |chunks[i]| <= NBUFS * BUF_SIZE
      modifies this`buffers, this`top, this`readq, this`oldq, this`tmpq, this`created, this`freed, this`close,
        this`readable, lists
      ensures Busy() && Blank(buffers, oldq) && tmpq == [] && Contents(buffers, readq) == Concat(chunks)
      ensures |readq| + |oldq| == |old(oldq)| + created - old(created) - NBUFS && freed == old(freed) + NBUFS
      ensures |readq| + |oldq| == Max(|old(oldq)|, NBUFS * (|chunks| + 1)) - NBUFS
      ensures close && (readable <==> old(readable) && (end.Eof? || end.Reset?))
    {
      ReadAll(chunks);
      ReadEnd(end);
    }

    method ReadAll(chunks: seq<seq<bv8>>)
      requires Busy() && Blank(buffers, oldq) && tmpq == [] && readq == []
        && forall i :: 0 <= i < |chunks| ==> |chunks[i]| <= NBUFS * BUF_SIZE
      modifies this`buffers, this`top, this`readq, this`oldq, this`tmpq, this`created, lists
      ensures Busy() && Blank(buffers, oldq) && tmpq == [] && Contents(buffers, readq) == Concat(chunks)
        && |readq| == NBUFS * |chunks|
      ensures |oldq| == Max(|old(oldq)| - NBUFS * |chunks|, 0)
        && created == old(created) + Max(NBUFS * |chunks| - |old(oldq)|, 0)
    {
      for k := 0 to |chunks|
        invariant Busy() && Blank(buffers, oldq) && tmpq == [] && Contents(buffers, readq) == Concat(chunks[..k])
          && |readq| == NBUFS * k
        invariant |oldq| == Max(|old(oldq)| - NBUFS * k, 0) && created == old(created) + Max(NBUFS * k - |old(oldq)|, 0)
      {
        assert chunks[..k + 1][..k] == chunks[..k];
        ReadSome(chunks[k]);
      }
      assert chunks[..|chunks|] == chunks;
    }

    /** `echo_handle_disconnect`: every buffer is freed, and the assert at the end holds. */
    method HandleDisconnect()
      requires Idle()
      modifies this`buffers, this`readq, this`freed, lists
      ensures Idle() && readq == [] && buffers == map[] && freed == old(freed) + |old(readq)|
    {
      var empty := lists.Empty(ReadQueue, readq);
      if !empty {
        PathStep(lists.m, ReadQueue, readq, ReadQueue, 0);
        var iter := lists.m.next[ReadQueue];
        while iter != ReadQueue
          invariant Idle() && freed + |readq| == old(freed) + |old(readq)| && iter == At(ReadQueue, readq, 0)
          decreases |readq|
        {
          iter := DisconnectFirst(iter);
        }
      }
      empty := lists.Empty(ReadQueue, readq);
      assert empty;
    }

    method DisconnectFirst(iter: Link) returns (next: Link)
      requires Idle() && readq != [] && iter == readq[0]
      modifies this`buffers, this`readq, this`freed, lists
      ensures Idle() && readq == old(readq)[1..] && next == At(ReadQueue, readq, 0) && freed == old(freed) + 1
    {
      ghost var r := readq;
      next := Unlink(iter, r);
      DroppedRead(lists.m, buffers, r, top);
      buffers, freed, readq := buffers - {iter.id}, freed + 1, r[1..];
    }

    /** The first node leaves the read queue; the one after it has been fetched before. */
    method Unlink(iter: Link, ghost r: seq<Link>) returns (next: Link)
      requires Ring(lists.m, ReadQueue, r) && r != [] && iter == r[0]
      modifies lists
      ensures Ring(lists.m, ReadQueue, r[1..]) && next == At(ReadQueue, r[1..], 0)
    {
      PathStep(lists.m, ReadQueue, r, ReadQueue, 1);
      assert r == [] + [r[0]] + r[1..] && [] + r[1..] == r[1..];
      next := lists.m.next[iter];
      lists.Del(iter, ReadQueue, [], r[1..]);
    }
  }
}
