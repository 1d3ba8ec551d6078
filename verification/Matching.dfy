/**
  Replies and requests on a connection: the sender queues each request when it writes its commands,
  the receiver pops one for each group of replies.
 */
module Matching {

  /** A request that was sent: which, how many replies its commands cause, and which sending it is. */
  datatype Sending = Sending(req: nat, count: nat, serial: nat)

  /** What the receiver did with a reply: gave it to a request, or found none. */
  datatype Match = Match(reply: Sending, taken: Sending) | Unexpected(reply: Sending)

  predicate Right(m: Match) {
    m.Match? && m.taken == m.reply
  }

  // ---------- the receiver's loop over what has arrived ----------

  datatype Loop = Loop(posted: seq<Sending>, current: Sending, remain: int, log: seq<Match>, handled: seq<Sending>, stopped: bool)

  const NOBODY: Sending := Sending(0, 0, 0)

  function Start(posted: seq<Sending>): Loop {
    Loop(posted, NOBODY, 0, [], [], false)
  }

  /**
    One reply: a request is popped unless replies of the last one are still due. It is handled with its
    last reply, or as soon as the buffer is empty.
   */
  function Turn(l: Loop, reply: Sending, last: bool): Loop {
    if l.stopped then l
    else if l.remain <= 0 && l.posted == [] then l.(log := l.log + [Unexpected(reply)], stopped := true)
    else
      var fetch := l.remain <= 0;
      var request := if fetch then l.posted[0] else l.current;
      var remain := if fetch then request.count - 1 else l.remain - 1;
      Loop(if fetch then l.posted[1..] else l.posted, request, remain, l.log + [Match(reply, request)],
           if remain > 0 && !last then l.handled else l.handled + [request], false)
  }

  function Turns(l: Loop, batch: seq<Sending>): Loop
    decreases |batch|
  {
    if batch == [] then l else Turns(Turn(l, batch[0], |batch| == 1), batch[1..])
  }

  // ---------- replies of whole requests ----------

  function Copies(s: Sending, n: nat): (r: seq<Sending>)
    ensures |r| == n
  {
    seq(n, i => s)
  }

  /** The replies of requests, each as often as it causes replies. */
  function Replies(ss: seq<Sending>): seq<Sending> {
    if ss == [] then [] else Copies(ss[0], ss[0].count) + Replies(ss[1..])
  }

  predicate Answered(ss: seq<Sending>) {
    forall i :: 0 <= i < |ss| ==> ss[i].count > 0
  }

  function Rights(replies: seq<Sending>): seq<Match> {
    seq(|replies|, i requires 0 <= i < |replies| => Match(replies[i], replies[i]))
  }

  /** Replies of the current request, with more to come in the batch. */
  lemma {:induction false} WithinGroup(l: Loop, s: Sending, n: nat, rest: seq<Sending>)
    requires !l.stopped && l.current == s && l.remain == n && rest != []
    ensures Turns(l, Copies(s, n) + rest)
         == Turns(l.(remain := 0, log := l.log + Rights(Copies(s, n)), handled := if n == 0 then l.handled else l.handled + [s]), rest)
    decreases n
  {
    var batch := Copies(s, n) + rest;
    if n == 0 {
      assert batch == rest && Rights(Copies(s, 0)) == [];
      assert l.log + [] == l.log;
    } else {
      assert batch[0] == s && batch[1..] == Copies(s, n - 1) + rest;
      var next := Turn(l, s, false);
      WithinGroup(next, s, n - 1, rest);
      assert l.log + Rights(Copies(s, n)) == l.log + [Match(s, s)] + Rights(Copies(s, n - 1));
    }
  }

  /** The last replies of the current request in a batch; it is handled although some may be missing. */
  lemma {:induction false} EndOfBatch(l: Loop, s: Sending, n: nat)
    requires !l.stopped && l.current == s && 0 < n <= l.remain
    ensures Turns(l, Copies(s, n))
         == l.(remain := l.remain - n, log := l.log + Rights(Copies(s, n)), handled := l.handled + [s])
    decreases n
  {
    var batch := Copies(s, n);
    assert batch[0] == s && batch[1..] == Copies(s, n - 1);
    var next := Turn(l, s, n == 1);
    assert Turns(l, batch) == Turns(next, Copies(s, n - 1));
    if n == 1 {
      assert Copies(s, 0) == [];
      assert Rights(batch) == [Match(s, s)];
    } else {
      EndOfBatch(next, s, n - 1);
      assert l.log + Rights(batch) == l.log + [Match(s, s)] + Rights(Copies(s, n - 1));
    }
  }

  /** The first reply of a request pops it. */
  lemma FirstReply(l: Loop, s: Sending, others: seq<Sending>, batch: seq<Sending>)
    requires !l.stopped && l.remain <= 0 && l.posted == [s] + others && batch != [] && batch[0] == s
    ensures Turn(l, s, |batch| == 1)
         == Loop(others, s, s.count - 1, l.log + [Match(s, s)],
                 if s.count > 1 && |batch| > 1 then l.handled else l.handled + [s], false)
  {
    assert l.posted[1..] == others;
  }

  /** A whole group with more behind it. */
  lemma WholeGroup(l: Loop, s: Sending, others: seq<Sending>, rest: seq<Sending>)
    requires !l.stopped && l.remain <= 0 && l.posted == [s] + others && s.count > 0 && rest != []
    ensures Turns(l, Copies(s, s.count) + rest)
         == Turns(Loop(others, s, 0, l.log + Rights(Copies(s, s.count)), l.handled + [s], false), rest)
  {
    hide Turn;
    var batch := Copies(s, s.count) + rest;
    assert batch[0] == s && batch[1..] == Copies(s, s.count - 1) + rest;
    FirstReply(l, s, others, batch);
    var next := Turn(l, s, false);
    WithinGroup(next, s, s.count - 1, rest);
    assert l.log + Rights(Copies(s, s.count)) == l.log + [Match(s, s)] + Rights(Copies(s, s.count - 1));
  }

  /** The last group of a batch, whole or cut short. */
  lemma LastGroup(l: Loop, s: Sending, others: seq<Sending>, n: nat)
    requires !l.stopped && l.remain <= 0 && l.posted == [s] + others && 0 < n <= s.count
    ensures Turns(l, Copies(s, n)) == Loop(others, s, s.count - n, l.log + Rights(Copies(s, n)), l.handled + [s], false)
  {
    hide Turn;
    var batch := Copies(s, n);
    assert batch[0] == s && batch[1..] == Copies(s, n - 1);
    FirstReply(l, s, others, batch);
    var next := Turn(l, s, n == 1);
    assert Turns(l, batch) == Turns(next, Copies(s, n - 1));
    if n == 1 {
      assert Copies(s, 0) == [];
      assert Rights(batch) == [Match(s, s)];
    } else {
      EndOfBatch(next, s, n - 1);
      assert l.log + Rights(batch) == l.log + [Match(s, s)] + Rights(Copies(s, n - 1));
    }
  }

  lemma RightsAppend(a: seq<Sending>, b: seq<Sending>)
    ensures Rights(a + b) == Rights(a) + Rights(b)
  {
  }

  /**
    A batch of whole groups and the first n replies of another: every reply goes to the request that
    caused it, and all these requests are handled, also the last one.
   */
  lemma {:induction false} BatchMatches(l: Loop, groups: seq<Sending>, s: Sending, n: nat, others: seq<Sending>)
    requires !l.stopped && l.remain <= 0 && Answered(groups) && 0 < n <= s.count
    requires l.posted == groups + [s] + others
    ensures Turns(l, Replies(groups) + Copies(s, n))
         == Loop(others, s, s.count - n, l.log + Rights(Replies(groups) + Copies(s, n)), l.handled + groups + [s], false)
    decreases |groups|
  {
    hide Turns, Rights, Copies;
    if groups == [] {
      assert groups + [s] + others == [s] + others;
      assert Replies(groups) + Copies(s, n) == Copies(s, n);
      assert l.handled + groups == l.handled;
      LastGroup(l, s, others, n);
    } else {
      var g, more := groups[0], groups[1..];
      var rest := Replies(more) + Copies(s, n);
      assert l.posted == [g] + (more + [s] + others);
      assert Replies(groups) + Copies(s, n) == Copies(g, g.count) + rest;
      WholeGroup(l, g, more + [s] + others, rest);
      var next := Loop(more + [s] + others, g, 0, l.log + Rights(Copies(g, g.count)), l.handled + [g], false);
      BatchMatches(next, more, s, n, others);
      RightsAppend(Copies(g, g.count), rest);
      assert next.log + Rights(rest) == l.log + (Rights(Copies(g, g.count)) + Rights(rest));
      assert l.handled + [g] + more == l.handled + groups;
    }
  }

  /** Whole groups. */
  lemma WholeBatchMatches(groups: seq<Sending>, others: seq<Sending>)
    requires Answered(groups) && groups != []
    ensures var end := Turns(Start(groups + others), Replies(groups));
      end.posted == others && end.handled == groups && !end.stopped && end.log == Rights(Replies(groups))
  {
    hide Turns, Rights, Copies;
    var n := |groups| - 1;
    var s := groups[n];
    assert groups == groups[..n] + [s];
    RepliesSnoc(groups[..n], s);
    assert groups + others == groups[..n] + [s] + others;
    BatchMatches(Start(groups + others), groups[..n], s, s.count, others);
  }

  lemma {:induction false} RepliesSnoc(ss: seq<Sending>, s: Sending)
    ensures Replies(ss + [s]) == Replies(ss) + Copies(s, s.count)
    decreases |ss|
  {
    hide Copies;
    if ss == [] {
      assert ss + [s] == [s] && [s][1..] == [];
      assert Replies([s]) == Copies(s, s.count) + Replies([]);
    } else {
      assert (ss + [s])[1..] == ss[1..] + [s];
      RepliesSnoc(ss[1..], s);
    }
  }

  /**
    After a batch that ends with n of a request's replies, the next reply on the connection is matched
    right exactly if those were all of them: groups have to arrive whole.
   */
  lemma NextReplyRightIff(groups: seq<Sending>, s: Sending, n: nat, others: seq<Sending>, reply: Sending)
    requires Answered(groups) && 0 < n <= s.count && s !in others
    requires if n < s.count then reply == s else others != [] && reply == others[0]
    ensures var end := Turns(Start(groups + [s] + others), Replies(groups) + Copies(s, n));
      var again := Turn(Start(end.posted), reply, true);
      Right(again.log[0]) <==> n == s.count
  {
    hide Turns, Rights, Copies;
    BatchMatches(Start(groups + [s] + others), groups, s, n, others);
  }

  // ---------- connections over a whole run ----------

  /**
    A connection: requests posted and not yet answered; of these, the commands still in the command
    buffer, those on their way to the server, and those the server has answered.
   */
  datatype Link = Link(posted: seq<Sending>, buffered: seq<Sending>, wire: seq<Sending>, served: seq<Sending>)

  /** A request that waits to be sent. */
  datatype Waiting = Waiting(req: nat, count: nat)

  /** Connections are entries of a table. */
  datatype State = State(links: seq<Link>, retry: seq<Waiting>, incoming: seq<Waiting>, serial: nat, log: seq<Match>)

  /**
    What becomes of a request after its replies: it is over, or it is sent again (next stage, polling,
    redirected, or refused by the cluster).
   */
  datatype Outcome = Over | Again(count: nat)

  datatype Event =
    | Post(req: nat, count: nat)
    | Send(conn: nat)
    | Flush(conn: nat)
    | Serve(conn: nat)
    | Receive(conn: nat, groups: nat, outcomes: seq<Outcome>)
    | Lose(conn: nat)
    | Drop

  /** Every stage of a request causes a reply. */
  predicate Possible(s: State, e: Event) {
    match e
    case Post(_, count) => count > 0
    case Send(c) => c < |s.links| && (s.retry != [] || s.incoming != [])
    case Flush(c) => c < |s.links|
    case Serve(c) => c < |s.links| && s.links[c].wire != []
    case Receive(c, groups, outcomes) =>
      && c < |s.links| && 0 < groups <= |s.links[c].served| && |outcomes| == groups
      && forall i :: 0 <= i < groups ==> outcomes[i].Again? ==> outcomes[i].count > 0
    case Lose(c) => c < |s.links| && s.links[c].buffered == []
    case Drop => s.retry != [] || s.incoming != []
  }

  function Requeued(handled: seq<Sending>, outcomes: seq<Outcome>): seq<Waiting> {
    if handled == [] || outcomes == [] then []
    else (match outcomes[0]
          case Over => []
          case Again(count) => [Waiting(handled[0].req, count)]) + Requeued(handled[1..], outcomes[1..])
  }

  /** Retries go first. The commands follow those already in the connection's buffer. */
  function Sent(s: State, c: nat): State
    requires c < |s.links| && (s.retry != [] || s.incoming != [])
  {
    var w := if s.retry != [] then s.retry[0] else s.incoming[0];
    var out := Sending(w.req, w.count, s.serial);
    var l := s.links[c];
    Taken(s).(links := s.links[c := l.(posted := l.posted + [out], buffered := l.buffered + [out])], serial := s.serial + 1)
  }

  /** The first request that waits is taken. */
  function Taken(s: State): State
    requires s.retry != [] || s.incoming != []
  {
    if s.retry != [] then s.(retry := s.retry[1..]) else s.(incoming := s.incoming[1..])
  }

  /** Whole groups of replies have arrived. */
  function Received(s: State, c: nat, groups: nat, outcomes: seq<Outcome>): State
    requires c < |s.links| && 0 < groups <= |s.links[c].served|
  {
    var l := s.links[c];
    var end := Turns(Start(l.posted), Replies(l.served[..groups]));
    s.(links := s.links[c := l.(posted := end.posted, served := l.served[groups..])],
       retry := s.retry + Requeued(end.handled, outcomes),
       log := s.log + end.log)
  }

  /** The requests of a lost connection are sent again, and the connection starts anew. */
  function Lost(s: State, c: nat): State
    requires c < |s.links|
  {
    s.(links := s.links[c := Link([], [], [], [])], retry := s.retry + Pending(s.links[c].posted))
  }

  function Pending(posted: seq<Sending>): (ws: seq<Waiting>)
    ensures |ws| == |posted|
  {
    seq(|posted|, i requires 0 <= i < |posted| => Waiting(posted[i].req, posted[i].count))
  }

  function Step(s: State, e: Event): State {
    if !Possible(s, e) then s else
    match e
    case Post(req, count) => s.(incoming := s.incoming + [Waiting(req, count)])
    case Send(c) => Sent(s, c)
    case Flush(c) => var l := s.links[c]; s.(links := s.links[c := l.(wire := l.wire + l.buffered, buffered := [])])
    case Serve(c) => var l := s.links[c]; s.(links := s.links[c := l.(wire := l.wire[1..], served := l.served + [l.wire[0]])])
    case Receive(c, groups, outcomes) => Received(s, c, groups, outcomes)
    case Lose(c) => Lost(s, c)
    case Drop => Taken(s)   // a request that was fetched and cannot be sent
  }

  /** What is posted is what was served, is on the wire or is buffered, in that order. */
  ghost predicate InOrder(l: Link, serial: nat) {
    && l.posted == l.served + l.wire + l.buffered
    && Answered(l.posted)
    && forall i :: 0 <= i < |l.posted| ==> l.posted[i].serial < serial
  }

  ghost predicate AllWaiting(ws: seq<Waiting>) {
    forall i :: 0 <= i < |ws| ==> ws[i].count > 0
  }

  ghost predicate Inv(s: State) {
    && (forall c :: 0 <= c < |s.links| ==> InOrder(s.links[c], s.serial))
    && AllWaiting(s.retry) && AllWaiting(s.incoming)
  }

  lemma SentKeepsInv(s: State, c: nat)
    requires Inv(s) && c < |s.links| && (s.retry != [] || s.incoming != [])
    ensures Inv(Sent(s, c))
  {
    var t := Sent(s, c);
    var m := t.links[c];
    assert m.posted == m.served + m.wire + m.buffered;
    forall d | 0 <= d < |t.links| ensures InOrder(t.links[d], t.serial) {
      assert InOrder(s.links[d], s.serial);
    }
  }

  lemma {:induction false} RequeuedWaits(handled: seq<Sending>, outcomes: seq<Outcome>)
    requires |handled| == |outcomes| && forall i :: 0 <= i < |outcomes| ==> outcomes[i].Again? ==> outcomes[i].count > 0
    ensures AllWaiting(Requeued(handled, outcomes))
    decreases |handled|
  {
    if handled != [] {
      RequeuedWaits(handled[1..], outcomes[1..]);
    }
  }

  /** What a whole number of groups does to the queue: their requests are handled, and every reply is given to its own. */
  lemma GroupsReceived(l: Link, serial: nat, groups: nat)
    requires InOrder(l, serial) && 0 < groups <= |l.served|
    ensures var end := Turns(Start(l.posted), Replies(l.served[..groups]));
      && end.posted == l.served[groups..] + l.wire + l.buffered
      && end.handled == l.served[..groups] && end.log == Rights(Replies(l.served[..groups]))
      && l.posted == l.served[..groups] + end.posted
  {
    hide Turns, Replies, Rights;
    var first, others := l.served[..groups], l.served[groups..] + l.wire + l.buffered;
    assert l.posted == first + others;
    forall i | 0 <= i < |first| ensures first[i].count > 0 {
      assert first[i] == l.posted[i];
    }
    WholeBatchMatches(first, others);
  }

  lemma ReceivedKeepsInv(s: State, c: nat, groups: nat, outcomes: seq<Outcome>)
    requires Inv(s) && Possible(s, Receive(c, groups, outcomes))
    ensures Inv(Received(s, c, groups, outcomes))
  {
    hide Turns, Replies, Rights, Requeued;
    var l := s.links[c];
    var t := Received(s, c, groups, outcomes);
    assert InOrder(l, s.serial);
    GroupsReceived(l, s.serial, groups);
    RequeuedWaits(l.served[..groups], outcomes);
    var others := t.links[c].posted;
    forall i | 0 <= i < |others| ensures others[i].count > 0 && others[i].serial < s.serial {
      assert others[i] == l.posted[groups + i];
    }
    forall d | 0 <= d < |t.links| ensures InOrder(t.links[d], t.serial) {
      assert InOrder(s.links[d], s.serial);
    }
  }

  lemma FlushKeepsInv(s: State, c: nat)
    requires Inv(s) && c < |s.links|
    ensures Inv(Step(s, Flush(c)))
  {
    var t, l := Step(s, Flush(c)), s.links[c];
    assert l.served + l.wire + l.buffered == l.served + (l.wire + l.buffered) + [];
    forall d | 0 <= d < |t.links| ensures InOrder(t.links[d], t.serial) {
      assert InOrder(s.links[d], s.serial);
    }
  }

  lemma ServeKeepsInv(s: State, c: nat)
    requires Inv(s) && c < |s.links| && s.links[c].wire != []
    ensures Inv(Step(s, Serve(c)))
  {
    var t, l := Step(s, Serve(c)), s.links[c];
    assert l.served + l.wire + l.buffered == (l.served + [l.wire[0]]) + l.wire[1..] + l.buffered;
    forall d | 0 <= d < |t.links| ensures InOrder(t.links[d], t.serial) {
      assert InOrder(s.links[d], s.serial);
    }
  }

  lemma LostKeepsInv(s: State, c: nat)
    requires Inv(s) && c < |s.links|
    ensures Inv(Lost(s, c))
  {
    var t, l := Lost(s, c), s.links[c];
    assert InOrder(l, s.serial);
    forall i | 0 <= i < |l.posted| ensures Pending(l.posted)[i].count > 0 {
      assert l.posted[i].count > 0;
    }
    forall d | 0 <= d < |t.links| ensures InOrder(t.links[d], t.serial) {
      assert d != c ==> InOrder(s.links[d], s.serial);
    }
  }

  lemma TakenKeepsInv(s: State)
    requires Inv(s) && (s.retry != [] || s.incoming != [])
    ensures Inv(Taken(s))
  {
    hide InOrder;
  }

  lemma StepKeepsInv(s: State, e: Event)
    requires Inv(s)
    ensures Inv(Step(s, e))
  {
    hide Inv, Sent, Received, Lost, Taken;
    if Possible(s, e) {
      match e
      case Post(req, count) => PostKeepsInv(s, req, count);
      case Send(c) => SentKeepsInv(s, c);
      case Flush(c) => FlushKeepsInv(s, c);
      case Serve(c) => ServeKeepsInv(s, c);
      case Receive(c, groups, outcomes) => ReceivedKeepsInv(s, c, groups, outcomes);
      case Lose(c) => LostKeepsInv(s, c);
      case Drop => TakenKeepsInv(s);
    }
  }

  lemma PostKeepsInv(s: State, req: nat, count: nat)
    requires Inv(s) && count > 0
    ensures Inv(s.(incoming := s.incoming + [Waiting(req, count)]))
  {
    hide InOrder;
  }

  function Run(s: State, es: seq<Event>): State
    decreases |es|
  {
    if es == [] then s else Step(Run(s, es[..|es| - 1]), es[|es| - 1])
  }

  /** A backend that has not yet been given a request. */
  function Idle(conns: nat): State {
    State(seq(conns, i => Link([], [], [], [])), [], [], 0, [])
  }

  lemma {:induction false} RunKeepsInv(s: State, es: seq<Event>)
    requires Inv(s)
    ensures Inv(Run(s, es))
    decreases |es|
  {
    hide Inv, Step;
    if es != [] {
      RunKeepsInv(s, es[..|es| - 1]);
      StepKeepsInv(Run(s, es[..|es| - 1]), es[|es| - 1]);
    }
  }

  lemma IdleInv(conns: nat)
    ensures Inv(Idle(conns))
  {
  }

  // ---------- every reply is matched ----------

  /** The replies that an event brings: those of the requests that the server answered first. */
  function Brought(s: State, e: Event): seq<Sending> {
    if e.Receive? && Possible(s, e) then Replies(s.links[e.conn].served[..e.groups]) else []
  }

  function AllBrought(s: State, es: seq<Event>): seq<Sending>
    decreases |es|
  {
    if es == [] then [] else AllBrought(s, es[..|es| - 1]) + Brought(Run(s, es[..|es| - 1]), es[|es| - 1])
  }

  lemma StepLogs(s: State, e: Event)
    requires Inv(s)
    ensures Step(s, e).log == s.log + Rights(Brought(s, e))
  {
    hide Turns, Replies, Rights, Requeued;
    NoRights();
    if e.Receive? && Possible(s, e) {
      assert InOrder(s.links[e.conn], s.serial);
      GroupsReceived(s.links[e.conn], s.serial, e.groups);
    }
  }

  lemma NoRights()
    ensures Rights([]) == [] && forall log: seq<Match> {:trigger log + []} :: log + [] == log
  {
  }

  /**
    In every run over any connections, which may be lost, with any requests, retries and resendings,
    every reply that arrives is given, in order, to the request whose commands caused it, and to that
    sending of it.
   */
  lemma {:induction false} EveryReplyMatched(conns: nat, es: seq<Event>)
    ensures Run(Idle(conns), es).log == Rights(AllBrought(Idle(conns), es))
    decreases |es|
  {
    hide Step, Inv, Rights, Brought;
    var s := Idle(conns);
    if es == [] {
      NoRights();
    } else {
      var before, e := es[..|es| - 1], es[|es| - 1];
      EveryReplyMatched(conns, before);
      IdleInv(conns);
      RunKeepsInv(s, before);
      StepLogs(Run(s, before), e);
      RightsAppend(AllBrought(s, before), Brought(Run(s, before), e));
    }
  }
}
