/** The queue of connections with data to read: a ring of slots, in which removals leave holes. */
module ConnQueue {
  import opened Definitions

  /** A slot holds a connection, or NULL. */
  datatype Slot = Conn(id: nat) | NoConn

  function Wrap(n: nat, size: nat): (i: nat)
    requires size > 0
    ensures i < size
  {
    n % size
  }

  /** The connections at the ring positions from lo to hi, in order and without the holes. */
  function Live(s: seq<Slot>, lo: nat, hi: nat): seq<nat>
    requires |s| > 0
    decreases hi - lo
  {
    if lo >= hi then []
    else One(s, lo) + Live(s, lo + 1, hi)
  }

  /** The connection at a position, if there is one. */
  function One(s: seq<Slot>, n: nat): seq<nat>
    requires |s| > 0
  {
    if s[Wrap(n, |s|)].Conn? then [s[Wrap(n, |s|)].id] else []
  }

  function Without(xs: seq<nat>, id: nat): seq<nat> {
    if xs == [] then [] else (if xs[0] == id then [] else [xs[0]]) + Without(xs[1..], id)
  }

  /** Positions less than a turn apart have different slots. */
  lemma Apart(n: nat, m: nat, size: nat)
    requires n < m < n + size
    ensures Wrap(n, size) != Wrap(m, size)
  {
    if n % size == m % size {
      assert m - n == (m / size - n / size) * size;
      NoMultiple(m / size - n / size, size);
    }
  }

  lemma Turn(n: nat, size: nat)
    requires size > 0
    ensures Wrap(n + size, size) == Wrap(n, size)
  {
    var x := n + size;
    var d := x / size - n / size - 1;
    assert x == x / size * size + x % size && n == n / size * size + n % size;
    assert d * size == n % size - x % size;
    NoMultiple(d, size);
    NoMultiple(0 - d, size);
    assert (0 - d) * size == x % size - n % size;
  }

  lemma NoMultiple(k: int, size: nat)
    requires size > 0
    ensures !(0 < k * size < size)
  {
    if k >= 1 {
      assert k * size >= size;
    } else {
      assert k * size <= 0;
    }
  }

  lemma {:induction false} LiveFrame(s: seq<Slot>, t: seq<Slot>, lo: nat, hi: nat)
    requires |s| == |t| > 0 && forall n :: lo <= n < hi ==> s[Wrap(n, |s|)] == t[Wrap(n, |s|)]
    ensures Live(s, lo, hi) == Live(t, lo, hi)
    decreases hi - lo
  {
    if lo < hi {
      LiveFrame(s, t, lo + 1, hi);
    }
  }

  lemma {:induction false} LiveSnoc(s: seq<Slot>, lo: nat, hi: nat)
    requires |s| > 0 && lo <= hi
    ensures Live(s, lo, hi + 1) == Live(s, lo, hi) + One(s, hi)
    decreases hi - lo
  {
    hide Wrap;
    if lo < hi {
      LiveSnoc(s, lo + 1, hi);
      Regroup(One(s, lo), Live(s, lo + 1, hi), One(s, hi));
    }
  }

  lemma Regroup(a: seq<nat>, b: seq<nat>, c: seq<nat>)
    ensures a + (b + c) == a + b + c
  {
  }

  lemma {:induction false} WithoutAppend(a: seq<nat>, b: seq<nat>, id: nat)
    ensures Without(a + b, id) == Without(a, id) + Without(b, id)
    decreases |a|
  {
    if a == [] {
      assert a + b == b;
    } else {
      assert (a + b)[1..] == a[1..] + b;
      WithoutAppend(a[1..], b, id);
    }
  }

  lemma WithoutOne(x: nat, id: nat)
    ensures Without([x], id) == if x == id then [] else [x]
  {
    assert [x][1..] == [];
  }

  class Queue {
    const slots: array<Slot>
    var head: nat
    var tail: nat

    /** At most a turn is in use, and every other slot is NULL. */
    ghost predicate Valid()
      reads this, slots
    {
      && slots.Length > 0 && tail <= head <= tail + slots.Length
      && forall n :: head <= n < tail + slots.Length ==> slots[Wrap(n, slots.Length)] == NoConn
    }

    ghost function Contents(): seq<nat>
      requires slots.Length > 0
      reads this, slots
    {
      Live(slots[..], tail, head)
    }

    constructor (size: nat)
      requires size > 0
      ensures Valid() && fresh(slots) && slots.Length == size && head == tail == 0 && Contents() == []
    {
      slots := new Slot[size](i => NoConn);
      head, tail := 0, 0;
    }

    /** Appended, if the positions in use have not come full circle; holes among them count as used. */
    method Push(conn: Slot) returns (rc: int)
      requires Valid()
      modifies this`head, slots
      ensures Valid()
      ensures rc == if conn == NoConn then 0 - EINVAL else if old(head) - tail >= slots.Length then 0 - ENOMEM else 0
      ensures Contents() == if rc == 0 then old(Contents()) + [conn.id] else old(Contents())
      ensures head == if rc == 0 then old(head) + 1 else old(head)
    {
      hide Wrap, Live;
      if conn == NoConn {
        return 0 - EINVAL;
      }
      var size := slots.Length;
      if head - tail >= size || slots[Wrap(head, size)] != NoConn {
        return 0 - ENOMEM;
      }
      ghost var was := slots[..];
      slots[Wrap(head, size)] := conn;
      forall n | tail <= n < tail + size && n != head
        ensures slots[Wrap(n, size)] == was[Wrap(n, size)]
      {
        if n < head {
          Apart(n, head, size);
        } else {
          Apart(head, n, size);
        }
      }
      LiveFrame(was, slots[..], tail, head);
      LiveSnoc(slots[..], tail, head);
      head := head + 1;
      rc := 0;
    }

    /** An empty queue starts over at zero. */
    method ResetCounters()
      requires Valid() && head == tail
      modifies this`head, this`tail
      ensures Valid() && head == tail == 0 && Contents() == [] == old(Contents())
    {
      hide Wrap;
      AllFree();
      head, tail := 0, 0;
    }

    lemma AllFree()
      requires Valid() && head == tail
      ensures forall i :: 0 <= i < slots.Length ==> slots[i] == NoConn
    {
      forall i | 0 <= i < slots.Length ensures slots[i] == NoConn {
        var n := Reaches(tail, i, slots.Length);
        assert slots[Wrap(n, slots.Length)] == NoConn;
      }
    }

    /** The slot at the tail is emptied, and the tail goes on. */
    method TakeTail() returns (conn: Slot)
      requires Valid() && tail < head
      modifies this`tail, slots
      ensures Valid() && tail == old(tail) + 1 && head == old(head)
      ensures old(Contents()) == (if conn.Conn? then [conn.id] else []) + Contents()
    {
      hide Wrap;
      var size := slots.Length;
      ghost var was := slots[..];
      conn := slots[Wrap(tail, size)];
      slots[Wrap(tail, size)] := NoConn;
      forall n | tail < n < tail + size
        ensures slots[Wrap(n, size)] == was[Wrap(n, size)]
      {
        Apart(tail, n, size);
      }
      LiveFrame(was, slots[..], tail + 1, head);
      Turn(tail, size);
      tail := tail + 1;
    }

    /** The first connection left, NULL exactly if there is none. */
    method Pop() returns (conn: Slot)
      requires Valid()
      modifies this`head, this`tail, slots
      ensures Valid()
      ensures conn == if old(Contents()) == [] then NoConn else Conn(old(Contents())[0])
      ensures Contents() == if old(Contents()) == [] then [] else old(Contents())[1..]
    {
      hide Wrap, Live;
      ghost var all := Contents();
      conn := NoConn;
      while conn == NoConn && tail < head
        invariant Valid()
        invariant all == (if conn.Conn? then [conn.id] else []) + Contents()
        decreases head - tail
      {
        conn := TakeTail();
      }
      if head == tail {
        ResetCounters();
      }
      assert conn.Conn? ==> all[1..] == Contents();
    }

    /** Every occurrence of a connection becomes a hole; the others keep their order. */
    method Remove(conn: Slot) returns (rc: int)
      requires Valid()
      modifies this`tail, slots
      ensures Valid() && rc == if conn == NoConn then 0 - EINVAL else 0
      ensures Contents() == if conn == NoConn then old(Contents()) else Without(old(Contents()), conn.id)
      ensures old(slots[Wrap(tail, slots.Length)]) != NoConn && old(slots[Wrap(tail, slots.Length)]) != conn ==> tail == old(tail)
    {
      hide Wrap, Live;
      if conn == NoConn {
        return 0 - EINVAL;
      }
      if head == tail {
        NothingLive(slots[..], tail);
        return 0;
      }
      Blank(conn.id);
      ghost var left, blanked := Contents(), slots[..];
      while slots[Wrap(tail, slots.Length)] == NoConn && tail < head
        invariant Valid() && Contents() == left && old(tail) <= tail
        invariant slots[..] == blanked
        invariant blanked[Wrap(old(tail), slots.Length)] != NoConn ==> tail == old(tail)
        decreases head - tail
      {
        LiveHole(slots[..], tail, head);
        Turn(tail, slots.Length);
        tail := tail + 1;
      }
      rc := 0;
    }

    method Blank(id: nat)
      requires Valid()
      modifies slots
      ensures Valid() && Contents() == Without(old(Contents()), id)
      ensures old(slots[Wrap(tail, slots.Length)]) != Conn(id) ==> slots[Wrap(tail, slots.Length)] == old(slots[Wrap(tail, slots.Length)])
    {
      hide Wrap, Live, Without;
      var size := slots.Length;
      ghost var was := slots[..];
      var n := tail;
      NothingLive(was, tail);
      while n < head
        invariant tail <= n <= head
        invariant forall k :: n <= k < tail + size ==> slots[Wrap(k, size)] == was[Wrap(k, size)]
        invariant Live(slots[..], tail, n) == Without(Live(was, tail, n), id)
        invariant was[Wrap(tail, size)] != Conn(id) ==> slots[Wrap(tail, size)] == was[Wrap(tail, size)]
      {
        var i := Wrap(n, size);
        ghost var before := slots[..];
        assert before[i] == was[i];
        if slots[i] == Conn(id) {
          slots[i] := NoConn;
        }
        forall k | tail <= k < tail + size && k != n
          ensures slots[Wrap(k, size)] == before[Wrap(k, size)]
        {
          if k < n {
            Apart(k, n, size);
          } else {
            Apart(n, k, size);
          }
        }
        BlankStep(was, before, slots[..], tail, n, id);
        n := n + 1;
      }
    }
  }

  lemma BlankStep(was: seq<Slot>, before: seq<Slot>, after: seq<Slot>, lo: nat, n: nat, id: nat)
    requires |was| == |before| == |after| > 0 && lo <= n
    requires Live(before, lo, n) == Without(Live(was, lo, n), id)
    requires forall k :: lo <= k < n ==> after[Wrap(k, |was|)] == before[Wrap(k, |was|)]
    requires after[Wrap(n, |was|)] == if was[Wrap(n, |was|)] == Conn(id) then NoConn else was[Wrap(n, |was|)]
    ensures Live(after, lo, n + 1) == Without(Live(was, lo, n + 1), id)
  {
    hide Wrap, Live, Without;
    LiveFrame(before, after, lo, n);
    LiveSnoc(after, lo, n);
    LiveSnoc(was, lo, n);
    var s := was[Wrap(n, |was|)];
    assert Live(was, lo, n) + [] == Live(was, lo, n);
    assert Without(Live(was, lo, n), id) + [] == Without(Live(was, lo, n), id);
    if s.Conn? {
      WithoutAppend(Live(was, lo, n), [s.id], id);
      WithoutOne(s.id, id);
    }
  }

  lemma LiveHole(s: seq<Slot>, lo: nat, hi: nat)
    requires |s| > 0 && lo < hi && s[Wrap(lo, |s|)] == NoConn
    ensures Live(s, lo, hi) == Live(s, lo + 1, hi)
  {
    hide Wrap;
  }

  lemma NothingLive(s: seq<Slot>, n: nat)
    requires |s| > 0
    ensures Live(s, n, n) == [] && forall id :: Without([], id) == []
  {
  }

  /** Within a turn from anywhere, every slot is reached. */
  lemma FirstTurn(i: nat, size: nat)
    requires i < size
    ensures Wrap(i, size) == i
  {
  }

  lemma Reaches(from: nat, i: nat, size: nat) returns (n: nat)
    requires i < size
    ensures from <= n < from + size && Wrap(n, size) == i
    decreases from
  {
    hide Wrap;
    if from == 0 {
      n := i;
      FirstTurn(i, size);
    } else {
      n := Reaches(from - 1, i, size);
      if n == from - 1 {
        Turn(n, size);
        n := n + size;
      }
    }
  }

  /** A queue with a hole in the middle refuses a push, although a slot is free. */
  method HolesFillTheQueue() returns (rc: int, q: Queue)
    ensures fresh(q) && q.Valid() && rc == 0 - ENOMEM && |q.Contents()| < q.slots.Length
  {
    hide Live, Without, Wrap;
    q := new Queue(3);
    rc := q.Push(Conn(1));
    rc := q.Push(Conn(2));
    rc := q.Push(Conn(3));
    assert q.Contents() == [] + [1] + [2] + [3] == [1, 2, 3];
    FirstHeld(q.slots[..], q.tail, q.head, 1);
    rc := q.Remove(Conn(2));
    WithoutTwo();
    rc := q.Push(Conn(4));
  }

  lemma FirstHeld(s: seq<Slot>, lo: nat, hi: nat, id: nat)
    requires |s| > 0 && |Live(s, lo, hi)| == hi - lo > 0 && Live(s, lo, hi)[0] == id
    ensures s[Wrap(lo, |s|)] == Conn(id)
  {
    hide Wrap;
    LiveBound(s, lo + 1, hi);
  }

  lemma {:induction false} LiveBound(s: seq<Slot>, lo: nat, hi: nat)
    requires |s| > 0 && lo <= hi
    ensures |Live(s, lo, hi)| <= hi - lo
    decreases hi - lo
  {
    if lo < hi {
      LiveBound(s, lo + 1, hi);
    }
  }

  lemma WithoutTwo()
    ensures Without([1, 2, 3], 2) == [1, 3]
  {
    WithoutAppend([1], [2, 3], 2);
    WithoutAppend([2], [3], 2);
    WithoutOne(1, 2);
    WithoutOne(2, 2);
    WithoutOne(3, 2);
    assert [1] + [2, 3] == [1, 2, 3] && [2] + [3] == [2, 3];
  }
}
