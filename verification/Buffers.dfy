/** The bytes that a queue of buffers stands for, and what a scatter read puts there (include/buffer.h,
    src/modules/echo.c). */
module Buffers {
  import opened CircularList
  import opened Sequences

  const BUF_SIZE := 4096

  /** `hixo_buffer_t`; `echo_handle_read` makes all of them `BUF_SIZE` bytes long. */
  datatype Buffer = Buffer(data: seq<bv8>, size: nat)

  /** The buffers behind the links of a queue. */
  ghost predicate Backed(b: map<nat, Buffer>, s: seq<Link>) {
    forall x <- s :: x.Buf? && x.id in b && |b[x.id].data| == BUF_SIZE && b[x.id].size <= BUF_SIZE
  }

  /** The first `m_size` bytes of each, one after the other. */
  ghost function Contents(b: map<nat, Buffer>, s: seq<Link>): seq<bv8>
    requires Backed(b, s)
  {
    if s == [] then [] else b[s[0].id].data[..b[s[0].id].size] + Contents(b, s[1..])
  }

  ghost predicate Blank(b: map<nat, Buffer>, s: seq<Link>) {
    forall x <- s :: x.Buf? && x.id in b && b[x.id].size == 0
  }

  /** The buffers of `s` are the same in both. */
  ghost predicate Same(b: map<nat, Buffer>, b': map<nat, Buffer>, s: seq<Link>) {
    forall x <- s :: x.Buf? && x.id in b && x.id in b' && b'[x.id] == b[x.id]
  }

  lemma {:induction false} ContentsSame(b: map<nat, Buffer>, b': map<nat, Buffer>, s: seq<Link>)
    requires Backed(b, s) && Same(b, b', s)
    ensures Backed(b', s) && Contents(b', s) == Contents(b, s)
  {
    if s == [] {
    } else {
      ContentsSame(b, b', s[1..]);
    }
  }

  lemma {:induction false} ContentsAppend(b: map<nat, Buffer>, s: seq<Link>, t: seq<Link>)
    requires Backed(b, s) && Backed(b, t)
    ensures Backed(b, s + t) && Contents(b, s + t) == Contents(b, s) + Contents(b, t)
  {
    if s == [] {
      assert s + t == t;
    } else {
      assert (s + t)[1..] == s[1..] + t;
      ContentsAppend(b, s[1..], t);
    }
  }

  lemma {:induction false} ContentsBlank(b: map<nat, Buffer>, s: seq<Link>)
    requires Backed(b, s) && Blank(b, s)
    ensures Contents(b, s) == []
  {
    if s == [] {
    } else {
      ContentsBlank(b, s[1..]);
    }
  }

  /** `readv`: the bytes go into the buffers in order, each filled before the next. */
  function Scattered(b: map<nat, Buffer>, s: seq<Link>, c: seq<bv8>): (b': map<nat, Buffer>)
    requires forall x <- s :: x.Buf? && x.id in b && |b[x.id].data| == BUF_SIZE
    ensures b'.Keys == b.Keys
    decreases |s|
  {
    if s == [] || c == [] then b else
      var n := if |c| < BUF_SIZE then |c| else BUF_SIZE;
      var g := b[s[0].id];
      Scattered(b[s[0].id := g.(data := c[..n] + g.data[n..])], s[1..], c[n..])
  }

  /** The loop that spreads the number of bytes read over the sizes. */
  function Sized(b: map<nat, Buffer>, s: seq<Link>, r: nat): (b': map<nat, Buffer>)
    requires forall x <- s :: x.Buf? && x.id in b
    ensures b'.Keys == b.Keys
    decreases |s|
  {
    if s == [] || r == 0 then b else
      var n := if r < BUF_SIZE then r else BUF_SIZE;
      Sized(b[s[0].id := b[s[0].id].(size := n)], s[1..], r - n)
  }

  lemma {:induction false} SizedStep(b: map<nat, Buffer>, s: seq<Link>, k: nat, r: nat)
    requires k < |s| && r > 0 && forall x <- s :: x.Buf? && x.id in b
    ensures var n := if r < BUF_SIZE then r else BUF_SIZE;
      s[k] in s && Sized(b, s[k..], r) == Sized(b[s[k].id := b[s[k].id].(size := n)], s[k + 1..], r - n)
  {
    assert s[k] in s && s[k..][0] == s[k] && s[k..][1..] == s[k + 1..];
  }

  /** The buffers hold the bytes, whatever their sizes say. */
  ghost predicate Holds(b: map<nat, Buffer>, s: seq<Link>, c: seq<bv8>) {
    if s == [] then c == [] else
      var n := if |c| < BUF_SIZE then |c| else BUF_SIZE;
      s[0].Buf? && s[0].id in b && |b[s[0].id].data| == BUF_SIZE && b[s[0].id].data[..n] == c[..n]
        && Holds(b, s[1..], c[n..])
  }

  lemma {:induction false} ScatteredElsewhere(b: map<nat, Buffer>, s: seq<Link>, c: seq<bv8>)
    requires forall x <- s :: x.Buf? && x.id in b && |b[x.id].data| == BUF_SIZE
    ensures var b' := Scattered(b, s, c);
      b'.Keys == b.Keys && (forall i <- b ::
        b'[i].size == b[i].size && |b'[i].data| == |b[i].data| && (Buf(i) !in s ==> b'[i] == b[i]))
    decreases |s|
  {
    if s != [] && c != [] {
      var n := if |c| < BUF_SIZE then |c| else BUF_SIZE;
      var g := b[s[0].id];
      ScatteredElsewhere(b[s[0].id := g.(data := c[..n] + g.data[n..])], s[1..], c[n..]);
    }
  }

  lemma {:induction false} ScatteredHolds(b: map<nat, Buffer>, s: seq<Link>, c: seq<bv8>)
    requires Distinct(s) && |c| <= |s| * BUF_SIZE && forall x <- s :: x.Buf? && x.id in b && |b[x.id].data| == BUF_SIZE
    ensures Holds(Scattered(b, s, c), s, c)
    decreases |s|
  {
    if s == [] {
    } else {
      var n := if |c| < BUF_SIZE then |c| else BUF_SIZE;
      var g := b[s[0].id];
      var b1 := b[s[0].id := g.(data := c[..n] + g.data[n..])];
      if c == [] {
        HoldsNothing(b, s);
      } else {
        ScatteredElsewhere(b1, s[1..], c[n..]);
        ScatteredHolds(b1, s[1..], c[n..]);
      }
    }
  }

  lemma {:induction false} HoldsNothing(b: map<nat, Buffer>, s: seq<Link>)
    requires forall x <- s :: x.Buf? && x.id in b && |b[x.id].data| == BUF_SIZE
    ensures Holds(b, s, [])
  {
    if s == [] {
    } else {
      HoldsNothing(b, s[1..]);
    }
  }

  lemma {:induction false} SizedElsewhere(b: map<nat, Buffer>, s: seq<Link>, r: nat)
    requires forall x <- s :: x.Buf? && x.id in b
    ensures var b' := Sized(b, s, r);
      b'.Keys == b.Keys && forall i <- b :: b'[i].data == b[i].data && (Buf(i) !in s ==> b'[i] == b[i])
    ensures var b' := Sized(b, s, r); forall i <- b :: b[i].size <= BUF_SIZE ==> b'[i].size <= BUF_SIZE
    decreases |s|
  {
    if s != [] && r != 0 {
      var n := if r < BUF_SIZE then r else BUF_SIZE;
      SizedElsewhere(b[s[0].id := b[s[0].id].(size := n)], s[1..], r - n);
    }
  }

  lemma {:induction false} HoldsSame(b: map<nat, Buffer>, b': map<nat, Buffer>, s: seq<Link>, c: seq<bv8>)
    requires Holds(b, s, c) && forall x <- s :: x.Buf? && x.id in b && x.id in b' && b'[x.id].data == b[x.id].data
    ensures Holds(b', s, c)
    decreases |s|
  {
    if s == [] {
    } else {
      var n := if |c| < BUF_SIZE then |c| else BUF_SIZE;
      HoldsSame(b, b', s[1..], c[n..]);
    }
  }

  /** Buffers that hold the bytes, and sizes spread over them: the queue now stands for these bytes. */
  lemma {:induction false} SizedContents(b: map<nat, Buffer>, s: seq<Link>, c: seq<bv8>)
    requires Distinct(s) && Backed(b, s) && Blank(b, s) && Holds(b, s, c)
    ensures Backed(Sized(b, s, |c|), s) && Contents(Sized(b, s, |c|), s) == c
    decreases |s|
  {
    if s == [] || c == [] {
      ContentsBlank(b, s);
    } else {
      var n := if |c| < BUF_SIZE then |c| else BUF_SIZE;
      var b1 := b[s[0].id := b[s[0].id].(size := n)];
      HoldsSame(b, b1, s[1..], c[n..]);
      SizedContents(b1, s[1..], c[n..]);
      SizedElsewhere(b1, s[1..], |c| - n);
      SizedHead(b, b1, Sized(b1, s[1..], |c| - n), s, c, n);
    }
  }

  lemma {:induction false} SizedHead(b: map<nat, Buffer>, b1: map<nat, Buffer>, b2: map<nat, Buffer>, s: seq<Link>,
      c: seq<bv8>, n: nat)
    requires s != [] && s[0].Buf? && s[0].id in b && |b[s[0].id].data| == BUF_SIZE && n <= |c| && n <= BUF_SIZE
    requires b[s[0].id].data[..n] == c[..n] && b1 == b[s[0].id := b[s[0].id].(size := n)] && s[0].id in b2
      && b2[s[0].id] == b1[s[0].id]
    requires Backed(b2, s[1..]) && Contents(b2, s[1..]) == c[n..]
    ensures Backed(b2, s) && Contents(b2, s) == c
  {
    assert forall x <- s :: x == s[0] || x in s[1..];
    assert c == c[..n] + c[n..];
  }

  /** A scatter read of `c` and the spreading of its length: the buffers stand for `c`. */
  lemma {:induction false} ReadContents(b: map<nat, Buffer>, s: seq<Link>, c: seq<bv8>)
    requires Distinct(s) && Backed(b, s) && Blank(b, s) && |c| <= |s| * BUF_SIZE
    ensures var b1 := Scattered(b, s, c); var b2 := Sized(b1, s, |c|);
      && b1.Keys == b2.Keys == b.Keys && Backed(b1, s) && Backed(b2, s) && Contents(b2, s) == c
      && forall i <- b :: Buf(i) !in s ==> b2[i] == b[i]
  {
    var b1 := Scattered(b, s, c);
    ScatteredElsewhere(b, s, c);
    ScatteredHolds(b, s, c);
    SizedElsewhere(b1, s, |c|);
    SizedContents(b1, s, c);
  }
}
