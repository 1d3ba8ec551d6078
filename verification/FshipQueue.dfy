/** The queue of pending requests of a function-shipping client: completed out of order, released from the front. */
module FshipQueue {
  import opened Definitions

  /** A request context; it is pending as long as it has a request. A completed one has no user handle either. */
  class Context {
    var user: int
    var pending: bool
    var next: Context?

    constructor (handle: int)
      ensures user == handle && pending && next == null
    {
      user, pending, next := handle, true, null;
    }
  }

  // ---------- contexts that are marked ----------

  function Marked(cs: seq<Context>, flags: seq<bool>): seq<Context>
    requires |cs| == |flags|
  {
    if cs == [] then [] else (if flags[0] then [cs[0]] else []) + Marked(cs[1..], flags[1..])
  }

  function Without(xs: seq<Context>, x: Context): seq<Context> {
    if xs == [] then [] else (if xs[0] == x then [] else [xs[0]]) + Without(xs[1..], x)
  }

  lemma {:induction false} MarkedMember(cs: seq<Context>, flags: seq<bool>, i: nat)
    requires |cs| == |flags| && i < |cs| && flags[i]
    ensures cs[i] in Marked(cs, flags)
    decreases |cs|
  {
    if i > 0 {
      MarkedMember(cs[1..], flags[1..], i - 1);
    }
  }

  lemma {:induction false} NoneMarked(cs: seq<Context>, flags: seq<bool>)
    requires |cs| == |flags| && forall i :: 0 <= i < |flags| ==> !flags[i]
    ensures Marked(cs, flags) == []
    decreases |cs|
  {
    if cs != [] {
      NoneMarked(cs[1..], flags[1..]);
    }
  }

  /** Taking the mark from one context takes that context out, and keeps the order of the others. */
  lemma {:induction false} UnmarkedOne(cs: seq<Context>, flags: seq<bool>, after: seq<bool>, r: Context)
    requires |cs| == |flags| == |after|
    requires forall i :: 0 <= i < |cs| ==> after[i] == (flags[i] && cs[i] != r)
    ensures Marked(cs, after) == Without(Marked(cs, flags), r)
    decreases |cs|
  {
    if cs != [] {
      UnmarkedOne(cs[1..], flags[1..], after[1..], r);
      var rest := Marked(cs[1..], flags[1..]);
      assert [] + rest == rest && [] + Without(rest, r) == Without(rest, r);
      if flags[0] {
        WithoutCons(cs[0], Marked(cs[1..], flags[1..]), r);
      }
    }
  }

  lemma WithoutCons(x: Context, xs: seq<Context>, r: Context)
    ensures Without([x] + xs, r) == (if x == r then [] else [x]) + Without(xs, r)
  {
    assert ([x] + xs)[1..] == xs;
  }

  // ---------- the queue ----------

  ghost predicate Distinct(cs: seq<Context>) {
    forall i, j :: 0 <= i < j < |cs| ==> cs[i] != cs[j]
  }

  lemma StillDistinct(cs: seq<Context>, r: Context)
    requires Distinct(cs) && r !in cs
    ensures Distinct(cs + [r])
  {
  }

  lemma OnlyAt(cs: seq<Context>, k: nat)
    requires Distinct(cs) && k < |cs|
    ensures forall i :: 0 <= i < |cs| ==> (cs[i] == cs[k] <==> i == k)
  {
  }

  ghost function Flags(cs: seq<Context>): (flags: seq<bool>)
    reads cs
    ensures |flags| == |cs|
  {
    seq(|cs|, i requires 0 <= i < |cs| reads cs => cs[i].pending)
  }

  lemma FlagsTell(cs: seq<Context>)
    ensures forall i :: 0 <= i < |cs| ==> Flags(cs)[i] == cs[i].pending
  {
  }

  /** Element i, and behind the last one `end`. */
  function Nth(cs: seq<Context>, i: nat, end: Context?): Context? {
    if i < |cs| then cs[i] else end
  }

  ghost predicate Chained(cs: seq<Context>, from: nat, end: Context?)
    reads cs`next
  {
    forall i :: from <= i < |cs| ==> cs[i].next == Nth(cs, i + 1, end)
  }

  lemma ChainedGrown(cs: seq<Context>, r: Context, from: nat)
    requires r.next == null && Chained(cs, from, r)
    ensures Chained(cs + [r], from, null)
  {
    var t := cs + [r];
    forall i | from <= i < |t| ensures t[i].next == Nth(t, i + 1, null) {
      if i < |cs| {
        assert t[i] == cs[i];
      }
    }
  }

  lemma StillCompleted(cs: seq<Context>, r: Context, to: nat)
    requires Completed(cs, to) && to <= |cs|
    ensures Completed(cs + [r], to)
  {
  }

  ghost predicate Completed(cs: seq<Context>, to: nat)
    reads cs`pending
  {
    forall i :: 0 <= i < to && i < |cs| ==> !cs[i].pending
  }

  lemma CompletedFlags(cs: seq<Context>, to: nat)
    ensures Completed(cs, to) <==> forall i :: 0 <= i < to && i < |cs| ==> !Flags(cs)[i]
  {
    if forall i :: 0 <= i < to && i < |cs| ==> !Flags(cs)[i] {
      forall i | 0 <= i < to && i < |cs| ensures !cs[i].pending {
        assert !Flags(cs)[i];
      }
    }
  }

  class Queue {
    var head: Context?
    var tail: Context?
    ghost var posted: seq<Context>   // all contexts ever pushed, in order
    ghost var released: nat          // how many of them, from the front, have been freed

    /** The list is what was posted and not yet released. */
    ghost predicate Linked()
      reads this, posted
    {
      && released <= |posted| && Distinct(posted) && Chained(posted, released, null)
      && head == Nth(posted, released, null)
      && tail == if released < |posted| then posted[|posted| - 1] else null
    }

    ghost predicate Waiting()
      reads this, posted
    {
      released < |posted| ==> posted[released].pending
    }

    /** Moreover, whatever was released is completed, and the head is pending. */
    ghost predicate Valid()
      reads this, posted
    {
      Linked() && Completed(posted, released) && Waiting()
    }

    ghost function Pending(): seq<Context>
      reads this, posted
    {
      Marked(posted, Flags(posted))
    }

    constructor ()
      ensures Valid() && posted == [] && released == 0
    {
      head, tail := null, null;
      posted, released := [], 0;
    }

    method Push(r: Context)
      requires Valid() && r !in posted && r.pending
      modifies this, r`next, posted`next
      ensures Valid() && posted == old(posted) + [r] && released == old(released)
    {
      hide Distinct, Completed, Chained;
      Append(r);
      StillDistinct(posted, r);
      StillCompleted(posted, r, released);
      ChainedGrown(posted, r, released);
      posted := posted + [r];
    }

    method Append(r: Context)
      requires Valid() && r !in posted
      modifies this`head, this`tail, r`next, posted`next
      ensures head == (if old(head) == null then r else old(head)) && tail == r && r.next == null
      ensures Chained(posted, released, r)
    {
      if |posted| > 0 {
        OnlyAt(posted, |posted| - 1);
      }
      if head == null {
        head := r;
      }
      if tail != null {
        tail.next := r;
      }
      tail := r;
      r.next := null;
    }

    /** Releases completed contexts at the front, up to the first pending one. */
    method DropCompleted()
      requires Linked()
      modifies this`head, this`tail, this`released
      ensures Linked() && Waiting() && posted == old(posted) && old(released) <= released
      ensures forall i :: old(released) <= i < released ==> !posted[i].pending
    {
      hide Distinct, Chained;
      while head != null && !head.pending
        invariant Linked() && posted == old(posted) && old(released) <= released
        invariant forall i :: old(released) <= i < released ==> !posted[i].pending
        decreases |posted| - released
      {
        Advance();
      }
    }

    /** The head moves on by one context, which is released. */
    method Advance()
      requires Linked() && head != null
      modifies this`head, this`tail, this`released
      ensures Linked() && posted == old(posted) && released == old(released) + 1
    {
      assert head == tail <==> released + 1 == |posted|;
      if head == tail {
        tail := tail.next;
      }
      head := head.next;
      released := released + 1;
    }

    /** The head leaves the queue, pending or not, and with it just the completed contexts that follow it. */
    method Pop() returns (t: Context?)
      requires Linked()
      modifies this`head, this`tail, this`released, posted`next
      ensures Linked() && Waiting() && posted == old(posted) && t == old(head)
      ensures if t == null then released == old(released) else released > old(released)
      ensures forall i :: old(released) < i < released ==> !posted[i].pending
      ensures Flags(posted) == old(Flags(posted))
    {
      hide Distinct, Chained;
      t := head;
      if t != null {
        ghost var k := released;
        Advance();
        DropCompleted();
        Decouple(t, k);
      }
    }

    method Decouple(t: Context, ghost k: nat)
      requires Linked() && Waiting() && k < released && posted[k] == t
      modifies t`next
      ensures Linked() && Waiting()
    {
      hide Distinct;
      OnlyAt(posted, k);
      t.next := null;
    }

    /** A context is completed: its request is gone, and it is released once nothing before it is pending. */
    method Complete(r: Context, ghost k: nat) returns (rc: int)
      requires Valid() && k < |posted| && posted[k] == r
      modifies this`head, this`tail, this`released, posted
      ensures Valid() && posted == old(posted) && old(released) <= released
      ensures rc == if old(r.pending) then 0 else 0 - EINVAL
      ensures rc == 0 ==> r.user == 0
      ensures !r.pending && Pending() == if rc == 0 then Without(old(Pending()), r) else old(Pending())
    {
      hide Marked, Without, Distinct, Chained, Completed;
      if !r.pending {
        return 0 - EINVAL;
      }
      Cleared(r, k);
      ghost var flags := Flags(posted);
      r.user := 0;
      assert Flags(posted) == flags;
      ghost var before := released;
      if r == head {
        OnlyAt(posted, k);
        assert posted[before] == r;
        var _ := Pop();
        assert !Flags(posted)[k];
        CompletedBeyond(before);
      }
      rc := 0;
    }

    lemma CompletedBeyond(before: nat)
      requires released <= |posted| && before < released && Completed(posted, before)
      requires forall i :: before <= i < released ==> !posted[i].pending
      ensures Completed(posted, released)
    {
    }

    method Cleared(r: Context, ghost k: nat)
      requires Valid() && k < |posted| && posted[k] == r && r.pending
      modifies r`pending
      ensures Linked() && Completed(posted, released) && !r.pending && (head != null && head != r ==> head.pending)
      ensures Pending() == Without(old(Pending()), r)
    {
      hide Marked, Without, Chained, Distinct, Completed, Flags;
      ghost var flags := Flags(posted);
      FlagsTell(posted);
      CompletedFlags(posted, released);
      r.pending := false;
      FlagsTell(posted);
      forall i | 0 <= i < |posted| ensures Flags(posted)[i] == (flags[i] && posted[i] != r) {
        assert posted[i] != r ==> posted[i].pending == flags[i];
      }
      CompletedFlags(posted, released);
      UnmarkedOne(posted, flags, Flags(posted), r);
    }

    /** The first context of a user handle in the queue, as a cancellation looks for it. */
    method Find(handle: int) returns (t: Context?, ghost k: nat)
      requires Valid()
      ensures released <= k <= |posted| && t == Nth(posted, k, null) && (t != null ==> t.user == handle)
      ensures forall i :: released <= i < k ==> posted[i].user != handle
    {
      t := head;
      k := released;
      while t != null && t.user != handle
        invariant released <= k <= |posted| && t == Nth(posted, k, null)
        invariant forall i :: released <= i < k ==> posted[i].user != handle
        decreases |posted| - k
      {
        t := t.next;
        k := k + 1;
      }
    }

    /** The queue is empty exactly if nothing is pending, and then everything posted has been released. */
    lemma EmptyIffCompleted()
      requires Valid()
      ensures Pending() == [] <==> head == null
      ensures head == null <==> released == |posted|
    {
      if released < |posted| {
        MarkedMember(posted, Flags(posted), released);
      } else {
        NoneMarked(posted, Flags(posted));
      }
    }
  }
}
