/** No request is lost: over every run, each request that was posted is in exactly one place, is over, or was dropped. */
module MatchingQueues {
  import opened Matching

  // ---------- how often a request is somewhere ----------

  function One(b: bool): nat {
    if b then 1 else 0
  }

  function InWaiting(ws: seq<Waiting>, r: nat): nat {
    if ws == [] then 0 else One(ws[0].req == r) + InWaiting(ws[1..], r)
  }

  function InSending(ss: seq<Sending>, r: nat): nat {
    if ss == [] then 0 else One(ss[0].req == r) + InSending(ss[1..], r)
  }

  /** Posted on connections. */
  function InLinks(links: seq<Link>, r: nat): nat {
    if links == [] then 0 else InSending(links[0].posted, r) + InLinks(links[1..], r)
  }

  /** Anywhere in the backend. */
  function Present(s: State, r: nat): nat {
    InWaiting(s.incoming, r) + InWaiting(s.retry, r) + InLinks(s.links, r)
  }

  // ---------- what events say ----------

  function Posts(e: Event, r: nat): nat {
    One(e.Post? && e.count > 0 && e.req == r)
  }

  function PostedBy(es: seq<Event>, r: nat): nat
    decreases |es|
  {
    if es == [] then 0 else PostedBy(es[..|es| - 1], r) + Posts(es[|es| - 1], r)
  }

  /** Of the requests whose replies arrived, those that are over. */
  function OverOf(ss: seq<Sending>, outcomes: seq<Outcome>, r: nat): nat
    requires |ss| == |outcomes|
  {
    if ss == [] then 0 else One(outcomes[0].Over? && ss[0].req == r) + OverOf(ss[1..], outcomes[1..], r)
  }

  function OverBy(s: State, e: Event, r: nat): nat {
    if e.Receive? && Possible(s, e) then OverOf(s.links[e.conn].served[..e.groups], e.outcomes, r) else 0
  }

  function DroppedBy(s: State, e: Event, r: nat): nat {
    if e.Drop? && Possible(s, e) then One((s.retry + s.incoming)[0].req == r) else 0
  }

  function AllOver(s: State, es: seq<Event>, r: nat): nat
    decreases |es|
  {
    if es == [] then 0 else AllOver(s, es[..|es| - 1], r) + OverBy(Run(s, es[..|es| - 1]), es[|es| - 1], r)
  }

  function AllDropped(s: State, es: seq<Event>, r: nat): nat
    decreases |es|
  {
    if es == [] then 0 else AllDropped(s, es[..|es| - 1], r) + DroppedBy(Run(s, es[..|es| - 1]), es[|es| - 1], r)
  }

  // ---------- counting ----------

  lemma {:induction false} WaitingAppend(a: seq<Waiting>, b: seq<Waiting>, r: nat)
    ensures InWaiting(a + b, r) == InWaiting(a, r) + InWaiting(b, r)
    decreases |a|
  {
    if a == [] {
      assert a + b == b;
    } else {
      assert (a + b)[1..] == a[1..] + b;
      WaitingAppend(a[1..], b, r);
    }
  }

  lemma {:induction false} SendingAppend(a: seq<Sending>, b: seq<Sending>, r: nat)
    ensures InSending(a + b, r) == InSending(a, r) + InSending(b, r)
    decreases |a|
  {
    if a == [] {
      assert a + b == b;
    } else {
      assert (a + b)[1..] == a[1..] + b;
      SendingAppend(a[1..], b, r);
    }
  }

  lemma {:induction false} LinksUpdate(links: seq<Link>, c: nat, l: Link, r: nat)
    requires c < |links|
    ensures InLinks(links[c := l], r) + InSending(links[c].posted, r) == InLinks(links, r) + InSending(l.posted, r)
    decreases |links|
  {
    hide InSending;
    if c == 0 {
      assert links[0 := l][1..] == links[1..];
    } else {
      assert links[c := l][1..] == links[1..][c - 1 := l];
      LinksUpdate(links[1..], c - 1, l, r);
    }
  }

  lemma {:induction false} RequeuedOrOver(ss: seq<Sending>, outcomes: seq<Outcome>, r: nat)
    requires |ss| == |outcomes|
    ensures InWaiting(Requeued(ss, outcomes), r) + OverOf(ss, outcomes, r) == InSending(ss, r)
    decreases |ss|
  {
    if ss != [] {
      var rest := Requeued(ss[1..], outcomes[1..]);
      RequeuedOrOver(ss[1..], outcomes[1..], r);
      match outcomes[0]
      case Over => assert Requeued(ss, outcomes) == rest;
      case Again(count) =>
        assert Requeued(ss, outcomes) == [Waiting(ss[0].req, count)] + rest;
        assert Requeued(ss, outcomes)[1..] == rest;
    }
  }

  lemma {:induction false} PendingCounts(posted: seq<Sending>, r: nat)
    ensures InWaiting(Pending(posted), r) == InSending(posted, r)
    decreases |posted|
  {
    if posted != [] {
      assert Pending(posted)[1..] == Pending(posted[1..]);
      PendingCounts(posted[1..], r);
    }
  }

  // ---------- every step ----------

  ghost predicate Conserved(s: State, e: Event, t: State, r: nat) {
    Present(t, r) + OverBy(s, e, r) + DroppedBy(s, e, r) == Present(s, r) + Posts(e, r)
  }

  lemma PostConserves(s: State, req: nat, count: nat, r: nat)
    requires count > 0
    ensures Conserved(s, Post(req, count), Step(s, Post(req, count)), r)
  {
    WaitingAppend(s.incoming, [Waiting(req, count)], r);
  }

  lemma TakenConserves(s: State, r: nat)
    requires s.retry != [] || s.incoming != []
    ensures Present(Taken(s), r) + One((s.retry + s.incoming)[0].req == r) == Present(s, r)
    ensures Taken(s).links == s.links
  {
    hide InLinks;
  }

  lemma SendConserves(s: State, c: nat, r: nat)
    requires Possible(s, Send(c))
    ensures Present(Sent(s, c), r) == Present(s, r)
  {
    hide InWaiting, InLinks, InSending, Taken;
    var l, t, first := s.links[c], Sent(s, c), (s.retry + s.incoming)[0];
    var out := Sending(first.req, first.count, s.serial);
    TakenConserves(s, r);
    LinksUpdate(s.links, c, l.(posted := l.posted + [out], buffered := l.buffered + [out]), r);
    SendingAppend(l.posted, [out], r);
    OneSending(out, r);
  }

  lemma OneSending(s: Sending, r: nat)
    ensures InSending([s], r) == One(s.req == r) && InSending([], r) == 0
  {
  }

  lemma ReceiveConserves(s: State, c: nat, groups: nat, outcomes: seq<Outcome>, r: nat)
    requires Inv(s) && Possible(s, Receive(c, groups, outcomes))
    ensures Conserved(s, Receive(c, groups, outcomes), Received(s, c, groups, outcomes), r)
  {
    hide InWaiting, InLinks, InSending, Turns, Replies, Requeued, OverOf, Rights;
    var l, t := s.links[c], Received(s, c, groups, outcomes);
    assert InOrder(l, s.serial);
    GroupsReceived(l, s.serial, groups);
    var first := l.served[..groups];
    SendingAppend(first, t.links[c].posted, r);
    LinksUpdate(s.links, c, t.links[c], r);
    RequeuedOrOver(first, outcomes, r);
    WaitingAppend(s.retry, Requeued(first, outcomes), r);
  }

  lemma LoseConserves(s: State, c: nat, r: nat)
    requires c < |s.links|
    ensures Present(Lost(s, c), r) == Present(s, r)
  {
    hide InWaiting, InLinks, InSending, Pending;
    var l := s.links[c];
    LinksUpdate(s.links, c, Link([], [], [], []), r);
    WaitingAppend(s.retry, Pending(l.posted), r);
    PendingCounts(l.posted, r);
    OneSending(NOBODY, r);
  }

  lemma StepConserves(s: State, e: Event, r: nat)
    requires Inv(s)
    ensures Conserved(s, e, Step(s, e), r)
  {
    hide InWaiting, InLinks, InSending, Sent, Received, Lost, Taken, OverOf, Inv;
    if Possible(s, e) {
      match e
      case Post(req, count) => PostConserves(s, req, count, r);
      case Send(c) => SendConserves(s, c, r);
      case Flush(c) => LinksUpdate(s.links, c, Step(s, e).links[c], r);
      case Serve(c) => LinksUpdate(s.links, c, Step(s, e).links[c], r);
      case Receive(c, groups, outcomes) => ReceiveConserves(s, c, groups, outcomes, r);
      case Lose(c) => LoseConserves(s, c, r);
      case Drop => TakenConserves(s, r);
    }
  }

  // ---------- every run ----------

  /**
    In every run, a request has been posted just as often as it waits (new or to be sent again), is posted on
    some connection, is over or was dropped: none is lost, and none is there twice.
   */
  lemma {:induction false} RequestsConserved(conns: nat, es: seq<Event>, r: nat)
    ensures var s := Idle(conns); PostedBy(es, r) == Present(Run(s, es), r) + AllOver(s, es, r) + AllDropped(s, es, r)
    decreases |es|
  {
    hide Step, Inv, Present, OverBy, DroppedBy, Posts;
    var s := Idle(conns);
    if es == [] {
      NothingPresent(conns, r);
    } else {
      var before, e := es[..|es| - 1], es[|es| - 1];
      RequestsConserved(conns, before, r);
      IdleInv(conns);
      RunKeepsInv(s, before);
      StepConserves(Run(s, before), e, r);
    }
  }

  lemma NothingPresent(conns: nat, r: nat)
    ensures Present(Idle(conns), r) == 0
  {
    NothingPosted(Idle(conns).links, r);
  }

  lemma {:induction false} NothingPosted(links: seq<Link>, r: nat)
    requires forall i :: 0 <= i < |links| ==> links[i].posted == []
    ensures InLinks(links, r) == 0
    decreases |links|
  {
    if links != [] {
      NothingPosted(links[1..], r);
    }
  }

  /** When nothing waits and nothing is posted, every request is over or was dropped. */
  lemma NothingForgotten(conns: nat, es: seq<Event>, r: nat)
    requires var s := Run(Idle(conns), es);
      s.retry == [] && s.incoming == [] && forall c :: 0 <= c < |s.links| ==> s.links[c].posted == []
    ensures PostedBy(es, r) == AllOver(Idle(conns), es, r) + AllDropped(Idle(conns), es, r)
  {
    RequestsConserved(conns, es, r);
    NothingPosted(Run(Idle(conns), es).links, r);
  }

  // ---------- where requests go ----------

  /** How many of the first requests are sent again. */
  function Agains(outcomes: seq<Outcome>, n: nat): nat
    requires n <= |outcomes|
  {
    if n == 0 then 0 else Agains(outcomes, n - 1) + if outcomes[n - 1].Again? then 1 else 0
  }

  lemma {:induction false} AgainsShift(outcomes: seq<Outcome>, n: nat)
    requires 0 < n <= |outcomes|
    ensures Agains(outcomes, n) == Agains(outcomes[1..], n - 1) + if outcomes[0].Again? then 1 else 0
    decreases n
  {
    if n > 1 {
      AgainsShift(outcomes, n - 1);
    }
  }

  lemma {:induction false} RequeuedAt(ss: seq<Sending>, outcomes: seq<Outcome>, i: nat)
    requires |ss| == |outcomes|
    ensures |Requeued(ss, outcomes)| == Agains(outcomes, |ss|)
    ensures i < |ss| && outcomes[i].Again? ==>
      Agains(outcomes, i) < |Requeued(ss, outcomes)| && Requeued(ss, outcomes)[Agains(outcomes, i)] == Waiting(ss[i].req, outcomes[i].count)
    decreases |ss|
  {
    if ss != [] {
      RequeuedAt(ss[1..], outcomes[1..], if i > 0 then i - 1 else 0);
      AgainsShift(outcomes, |ss|);
      if 0 < i < |ss| {
        AgainsShift(outcomes, i);
      }
    }
  }

  /**
    The requests that are sent again follow, in the order of their replies, behind those that already wait to
    be: the i-th comes behind as many as are sent again before it, under its own name and with its new count.
   */
  lemma AgainGoesLast(s: State, c: nat, groups: nat, outcomes: seq<Outcome>, i: nat)
    requires Inv(s) && Possible(s, Receive(c, groups, outcomes)) && i < groups
    ensures var t := Step(s, Receive(c, groups, outcomes));
      && |t.retry| == |s.retry| + Agains(outcomes, groups) && s.retry <= t.retry && t.incoming == s.incoming
      && (outcomes[i].Again? ==>
           var j := |s.retry| + Agains(outcomes, i);
           j < |t.retry| && t.retry[j] == Waiting(s.links[c].served[i].req, outcomes[i].count))
  {
    hide Turns, Replies, Requeued, Rights, Agains;
    assert InOrder(s.links[c], s.serial);
    GroupsReceived(s.links[c], s.serial, groups);
    RequeuedAt(s.links[c].served[..groups], outcomes, i);
  }

  /** The requests of a lost connection follow in the order in which they were posted. */
  lemma LostGoLast(s: State, c: nat, i: nat)
    requires Possible(s, Lose(c)) && i < |s.links[c].posted|
    ensures var t, posted := Step(s, Lose(c)), s.links[c].posted;
      && |t.retry| == |s.retry| + |posted| && s.retry <= t.retry && t.incoming == s.incoming && t.links[c].posted == []
      && t.retry[|s.retry| + i] == Waiting(posted[i].req, posted[i].count)
  {
  }

  /** The request that is sent is the first to be sent again, or else the first new one; it is posted last, with its count. */
  lemma FirstIsSent(s: State, c: nat)
    requires Possible(s, Send(c))
    ensures var t, l := Step(s, Send(c)), s.links[c];
      && (if s.retry != [] then s.retry == [s.retry[0]] + t.retry && t.incoming == s.incoming
          else s.incoming == [s.incoming[0]] + t.incoming && t.retry == [])
      && |t.links| == |s.links| && (forall d :: 0 <= d < |s.links| && d != c ==> t.links[d] == s.links[d])
      && t.links[c].posted[..|l.posted|] == l.posted && |t.links[c].posted| == |l.posted| + 1
      && var sent, first := t.links[c].posted[|l.posted|], (s.retry + s.incoming)[0];
         sent.req == first.req && sent.count == first.count && t.links[c].buffered == l.buffered + [sent]
  {
  }
}
