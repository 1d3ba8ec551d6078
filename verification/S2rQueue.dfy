/** The linked queues between sender and receiver, and the receiver's loop over a batch of replies. */
module S2rQueue {
  import opened Definitions
  import opened Matching

  class Request {
    const sending: Sending
    var next: Request?

    constructor (s: Sending)
      ensures sending == s && next == null
    {
      sending, next := s, null;
    }
  }

  function Nth(rs: seq<Request>, i: nat, end: Request?): Request? {
    if i < |rs| then rs[i] else end
  }

  ghost predicate Chained(rs: seq<Request>, end: Request?)
    reads rs`next
  {
    forall i :: 0 <= i < |rs| ==> rs[i].next == Nth(rs, i + 1, end)
  }

  ghost predicate Distinct(rs: seq<Request>) {
    forall i, j :: 0 <= i < j < |rs| ==> rs[i] != rs[j]
  }

  function Sendings(rs: seq<Request>): seq<Sending> {
    seq(|rs|, i requires 0 <= i < |rs| => rs[i].sending)
  }

  class Queue {
    var head: Request?
    var tail: Request?
    var len: nat
    ghost var items: seq<Request>

    ghost predicate Valid()
      reads this, items
    {
      && len == |items| && Distinct(items) && Chained(items, null)
      && head == Nth(items, 0, null)
      && tail == if items == [] then null else items[|items| - 1]
    }

    constructor ()
      ensures Valid() && items == []
    {
      head, tail, len := null, null, 0;
      items := [];
    }

    /** A request that is in no queue is appended. */
    method Push(r: Request?) returns (rc: int)
      requires Valid() && (r != null ==> r !in items)
      modifies this, r, items`next
      ensures Valid() && rc == if r == null then 0 - EINVAL else 0
      ensures items == if r == null then old(items) else old(items) + [r]
    {
      if r == null {
        return 0 - EINVAL;
      }
      hide Distinct, Chained;
      Append(r);
      Grown(items, r);
      items := items + [r];
      len := len + 1;
      rc := 0;
    }

    method Append(r: Request)
      requires Valid() && r !in items
      modifies this`head, this`tail, r`next, items`next
      ensures head == Nth(items, 0, r) && tail == r && r.next == null && Chained(items, r)
    {
      if |items| > 0 {
        OnlyLast(items);
      }
      if head == null {
        head := r;
      }
      if tail != null {
        tail.next := r;
      }
      tail := r;
      r.next := null;
    }

    /** The first request, detached; NULL exactly if there is none. */
    method Pop() returns (r: Request?)
      requires Valid()
      modifies this, if head == null then {} else {head}
      ensures Valid() && r == Nth(old(items), 0, null)
      ensures items == if r == null then [] else old(items)[1..]
      ensures r != null ==> r !in items && r.next == null
    {
      r := head;
      if head != null {
        head := r.next;
      }
      if tail != null && tail == r {
        tail := r.next;
      }
      if r != null {
        Shrunk(items);
        items := items[1..];
        r.next := null;
        len := len - 1;
      }
    }
  }

  lemma OnlyLast(rs: seq<Request>)
    requires Distinct(rs) && rs != []
    ensures forall i :: 0 <= i < |rs| - 1 ==> rs[i] != rs[|rs| - 1]
  {
  }

  lemma Grown(rs: seq<Request>, r: Request)
    requires Distinct(rs) && r !in rs && r.next == null && Chained(rs, r)
    ensures Distinct(rs + [r]) && Chained(rs + [r], null)
  {
    var t := rs + [r];
    forall i | 0 <= i < |t| ensures t[i].next == Nth(t, i + 1, null) {
      if i < |rs| {
        assert t[i] == rs[i];
      }
    }
  }

  lemma Shrunk(rs: seq<Request>)
    requires rs != [] && Distinct(rs) && Chained(rs, null)
    ensures Distinct(rs[1..]) && Chained(rs[1..], null) && rs[0] !in rs[1..]
    ensures rs[0].next == Nth(rs[1..], 0, null) && (rs[0] == rs[|rs| - 1] <==> |rs| == 1)
  {
    var t := rs[1..];
    forall i | 0 <= i < |t| ensures t[i].next == Nth(t, i + 1, null) {
      assert t[i] == rs[i + 1];
    }
  }

  /**
    The receiver on one connection, for the replies that its buffer holds: requests are popped from the
    posted queue as the loop of `Matching` has it.
   */
  method ReceiveBatch(posted: Queue, batch: seq<Sending>)
    returns (current: Sending, remain: int, log: seq<Match>, handled: seq<Sending>, stopped: bool)
    requires posted.Valid()
    modifies posted, posted.items
    ensures posted.Valid()
    ensures Loop(Sendings(posted.items), current, remain, log, handled, stopped) == Turns(Start(old(Sendings(posted.items))), batch)
  {
    hide Distinct, Chained, Turns;
    current, remain, log, handled, stopped := NOBODY, 0, [], [], false;
    ghost var goal := Turns(Start(Sendings(posted.items)), batch);
    ghost var all := posted.items;
    var i := 0;
    assert batch[0..] == batch;
    while i < |batch| && !stopped
      invariant 0 <= i <= |batch| && posted.Valid() && all == old(posted.items) && (forall r :: r in posted.items ==> r in all)
      invariant goal == Turns(Loop(Sendings(posted.items), current, remain, log, handled, stopped), batch[i..])
    {
      ghost var before := Loop(Sendings(posted.items), current, remain, log, handled, stopped);
      NextTurn(before, batch, i);
      if remain <= 0 {
        ghost var items := posted.items;
        assert posted.head != null ==> posted.head in items && posted.head in all;
        var r := posted.Pop();
        if r == null {
          log, stopped := log + [Unexpected(batch[i])], true;
        } else {
          assert Sendings(items)[1..] == Sendings(posted.items);
          current := r.sending;
          remain := current.count - 1;
        }
      } else {
        remain := remain - 1;
      }
      if !stopped {
        log := log + [Match(batch[i], current)];
        if !(remain > 0 && i + 1 < |batch|) {
          handled := handled + [current];
        }
      }
      i := i + 1;
    }
    Finished(Loop(Sendings(posted.items), current, remain, log, handled, stopped), batch[i..]);
  }

  lemma NextTurn(l: Loop, batch: seq<Sending>, i: nat)
    requires i < |batch|
    ensures Turns(l, batch[i..]) == Turns(Turn(l, batch[i], i + 1 == |batch|), batch[i + 1..])
  {
    hide Turn;
    assert batch[i..][0] == batch[i] && batch[i..][1..] == batch[i + 1..];
  }

  /** A loop that has stopped, or has nothing left, stays as it is. */
  lemma {:induction false} Finished(l: Loop, batch: seq<Sending>)
    requires l.stopped || batch == []
    ensures Turns(l, batch) == l
    decreases |batch|
  {
    if batch != [] {
      Finished(l, batch[1..]);
    }
  }
}
