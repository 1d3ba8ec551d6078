/** The tuple space after any sequence of requests. */
module TupleRuns {
  import opened Definitions
  import opened Protocol
  import opened Commands
  import opened CommandFits
  import opened Redis
  import opened TupleSpace
  import opened TupleLaws
  import opened NamespaceLaws

  /** A request, and whether it is to fail rather than wait for a value. */
  datatype Call = Call(r: Request, immediate: bool)

  predicate OnTuple(op: Opcode) {
    op in {Put, Get, Read, Remove, Move}
  }

  /** Requests on tuples under these Redis keys, and on namespaces of these names. */
  ghost predicate Callable(c: Call, tuples: set<string>, names: set<string>) {
    && Supported(c.r.op) && HasStage(c.r.op, 0) && Named(c.r.(stage := 0))
    && (if OnTuple(c.r.op) then TupleKey(c.r) in tuples && (c.r.op == Move ==> TargetKey(c.r) in tuples) else NameOf(c.r) in names)
  }

  ghost predicate AllCallable(calls: seq<Call>, tuples: set<string>, names: set<string>) {
    tuples !! names && forall i :: 0 <= i < |calls| ==> Callable(calls[i], tuples, names)
  }

  /** Tuples are kept as lists, namespaces as hashes. */
  ghost predicate Kept(db: Store, tuples: set<string>, names: set<string>) {
    (forall k :: k in tuples ==> Queue(db, k)) && (forall x :: x in names ==> Meta(db, x))
  }

  // ---------- the tuple space ----------

  type Lists = string -> seq<string>

  function NextLists(l: Lists, r: Request): Lists {
    var k, t := TupleKey(r), TargetKey(r);
    match r.op
    case Put => x => if x == k then l(x) + [r.value] else l(x)
    case Get => x => if x == k && l(x) != [] then l(x)[1..] else l(x)
    case Remove => x => if x == k then [] else l(x)
    case Move => if l(k) == [] || l(t) != [] then l else x => if x == t then l(k) else if x == k then [] else l(x)
    case _ => l
  }

  /** A value, a code, or waiting for a value. */
  datatype Answer = Got(value: string) | Ended(rc: int) | Waits | Other

  function AnswerTuple(l: Lists, r: Request, immediate: bool): Answer {
    var items := l(TupleKey(r));
    var none := if immediate then Ended(0 - ENOENT) else Waits;
    match r.op
    case Put => Ended(0)
    case Get => if items == [] then none else Got(items[0])
    case Read => if r.index < |items| then Got(items[r.index]) else none
    case Remove => Ended(if items == [] then 0 - ENOENT else 0)
    case Move => Ended(if items == [] then 0 - ENOENT else if l(TargetKey(r)) != [] then 0 - EEXIST else 0)
    case _ => Other
  }

  function Answered(c: Completion): Answer {
    match c
    case Completion(rc, data) => if rc == 0 && data.CString? then Got(data.text) else Ended(rc)
    case Polling => Waits
    case _ => Other
  }

  function Contents(db: Store): Lists {
    x => Items(db, x)
  }

  // ---------- one call ----------

  ghost predicate TupleStep(db: Store, c: Call, after: Store, told: Completion, tuples: set<string>) {
    && (forall x :: x in tuples ==> Queue(after, x) && Items(after, x) == NextLists(Contents(db), c.r)(x))
    && (forall x :: x !in tuples ==> (x in db <==> x in after) && (x in db && x in after ==> db[x] == after[x]))
    && Answered(told) == AnswerTuple(Contents(db), c.r, c.immediate)
  }

  lemma AgreedItems(db: Store, after: Store, keys: set<string>, x: string)
    requires Agrees(db, after, keys) && x !in keys
    ensures Items(after, x) == Items(db, x) && (Queue(db, x) <==> Queue(after, x))
  {
  }

  /** A step that touches just these keys. */
  lemma TouchesOnly(db: Store, c: Call, after: Store, told: Completion, keys: set<string>, tuples: set<string>)
    requires keys <= tuples && Agrees(db, after, keys) && (forall x :: x in tuples ==> Queue(db, x))
    requires forall x :: x in keys ==> Queue(after, x) && Items(after, x) == NextLists(Contents(db), c.r)(x)
    requires forall x :: x !in keys ==> NextLists(Contents(db), c.r)(x) == Items(db, x)
    requires Answered(told) == AnswerTuple(Contents(db), c.r, c.immediate)
    ensures TupleStep(db, c, after, told, tuples)
  {
    hide NextLists, AnswerTuple, Answered, Items, Queue;
    forall x | x in tuples && x !in keys ensures Items(after, x) == Items(db, x) && Queue(after, x) {
      AgreedItems(db, after, keys, x);
    }
  }

  lemma QueueCall(sv: Server, db: Store, c: Call, tuples: set<string>, names: set<string>)
    requires Callable(c, tuples, names) && c.r.op in {Put, Get, Read, Remove} && Kept(db, tuples, names)
    ensures var (after, told) := Perform(sv, db, c.r, c.immediate); TupleStep(db, c, after, told, tuples)
  {
    hide Perform, Named, Items, Queue, Qualified, TupleStep;
    var r := c.r;
    var (after, told) := Perform(sv, db, r, c.immediate);
    match r.op {
      case Put => PutLaw(sv, db, r, c.immediate);
      case Get => GetLaw(sv, db, r, c.immediate);
      case Read => ReadLaw(sv, db, r, c.immediate);
      case Remove => RemoveLaw(sv, db, r, c.immediate);
    }
    TouchesOnly(db, c, after, told, {TupleKey(r)}, tuples);
  }

  lemma MoveCall(sv: Server, db: Store, c: Call, tuples: set<string>, names: set<string>)
    requires Callable(c, tuples, names) && c.r.op == Move && Kept(db, tuples, names) && Restores(sv) && Dumpable(sv, db, c.r)
    ensures var (after, told) := Perform(sv, db, c.r, c.immediate); TupleStep(db, c, after, told, tuples)
  {
    hide Perform, Named, Items, Queue, Restores, Dumpable, Qualified, TupleStep;
    var r := c.r;
    var (after, told) := Perform(sv, db, r, c.immediate);
    MoveLaw(sv, db, r, c.immediate);
    TouchesOnly(db, c, after, told, {TupleKey(r), TargetKey(r)}, tuples);
  }

  lemma TupleCall(sv: Server, db: Store, c: Call, tuples: set<string>, names: set<string>)
    requires Callable(c, tuples, names) && OnTuple(c.r.op) && Kept(db, tuples, names) && Restores(sv) && Dumpable(sv, db, c.r)
    ensures var (after, told) := Perform(sv, db, c.r, c.immediate); TupleStep(db, c, after, told, tuples)
  {
    hide Perform, Callable, Kept, Restores, Dumpable, TupleStep;
    if c.r.op == Move {
      MoveCall(sv, db, c, tuples, names);
    } else {
      QueueCall(sv, db, c, tuples, names);
    }
  }

  ghost predicate NsStep(db: Store, c: Call, after: Store, told: Completion, names: set<string>) {
    && (forall x :: x in names ==>
          Meta(after, x) && NsAt(after, x) == if x == NameOf(c.r) then NextNs(NsAt(db, x), c.r) else NsAt(db, x))
    && (forall x :: x !in names ==> (x in db <==> x in after) && (x in db && x in after ==> db[x] == after[x]))
    && ToldBy(told) == AnswerNs(NsAt(db, NameOf(c.r)), c.r.op)
  }

  lemma AgreedNs(db: Store, after: Store, keys: set<string>, x: string)
    requires Agrees(db, after, keys) && x !in keys
    ensures NsAt(after, x) == NsAt(db, x) && (Meta(db, x) <==> Meta(after, x))
  {
  }

  lemma NamespaceCall(sv: Server, db: Store, c: Call, tuples: set<string>, names: set<string>)
    requires Callable(c, tuples, names) && !OnTuple(c.r.op) && Kept(db, tuples, names) && Orders(sv)
    ensures var (after, told) := Perform(sv, db, c.r, c.immediate); NsStep(db, c, after, told, names)
  {
    hide Perform, Named, Meta, NsAt, NextNs, AnswerNs, Orders;
    var r := c.r;
    var (after, told) := Perform(sv, db, r, c.immediate);
    match r.op {
      case NsCreate => CreateLaw(sv, db, r, c.immediate);
      case NsAttach => AttachLaw(sv, db, r, c.immediate);
      case NsDetach => DetachLaw(sv, db, r, c.immediate);
      case NsDelete => DeleteLaw(sv, db, r, c.immediate);
      case NsQuery => QueryLaw(sv, db, r, c.immediate);
    }
    assert Lawful(db, r, after, told);
    forall x | x in names && x != NameOf(r) ensures NsAt(after, x) == NsAt(db, x) && Meta(after, x) {
      AgreedNs(db, after, {NameOf(r)}, x);
    }
  }

  // ---------- any sequence of calls ----------

  /** The store after n calls. */
  function After(sv: Server, db: Store, calls: seq<Call>, n: nat): Store
    requires n <= |calls| && forall i :: 0 <= i < |calls| ==> Supported(calls[i].r.op) && HasStage(calls[i].r.op, 0)
  {
    if n == 0 then db else Perform(sv, After(sv, db, calls, n - 1), calls[n - 1].r, calls[n - 1].immediate).0
  }

  function ListsAfter(l: Lists, calls: seq<Call>, n: nat): Lists
    requires n <= |calls|
  {
    if n == 0 then l else NextLists(ListsAfter(l, calls, n - 1), calls[n - 1].r)
  }

  function NsAfter(ns: Ns, calls: seq<Call>, n: nat, x: string): Ns
    requires n <= |calls|
  {
    if n == 0 then ns else
    var r, before := calls[n - 1].r, NsAfter(ns, calls, n - 1, x);
    if !OnTuple(r.op) && NameOf(r) == x then NextNs(before, r) else before
  }

  /** A server, a store and calls on tuples and namespaces that do not share a key; what is moved can be dumped. */
  ghost predicate Setting(sv: Server, db: Store, calls: seq<Call>, tuples: set<string>, names: set<string>) {
    && Restores(sv) && Orders(sv) && AllCallable(calls, tuples, names) && Kept(db, tuples, names)
    && forall n :: 0 <= n < |calls| ==> Dumpable(sv, After(sv, db, calls, n), calls[n].r)
  }

  ghost predicate Agreeing(l: Lists, m: Lists, tuples: set<string>) {
    forall x :: x in tuples ==> l(x) == m(x)
  }

  lemma NextAgrees(l: Lists, m: Lists, c: Call, tuples: set<string>, names: set<string>)
    requires Agreeing(l, m, tuples) && Callable(c, tuples, names)
    ensures Agreeing(NextLists(l, c.r), NextLists(m, c.r), tuples)
    ensures OnTuple(c.r.op) ==> AnswerTuple(l, c.r, c.immediate) == AnswerTuple(m, c.r, c.immediate)
  {
    hide Named, Qualified;
  }

  lemma TupleLeavesNames(db: Store, after: Store, tuples: set<string>, names: set<string>, c: Call, told: Completion)
    requires Kept(db, tuples, names) && tuples !! names && TupleStep(db, c, after, told, tuples)
    ensures Kept(after, tuples, names) && forall x :: x in names ==> NsAt(after, x) == NsAt(db, x)
  {
    hide NextLists, AnswerTuple, Items, Answered;
    forall x | x in names ensures Meta(after, x) && NsAt(after, x) == NsAt(db, x) {
      assert x !in tuples;
    }
  }

  lemma NamesLeaveTuples(db: Store, after: Store, tuples: set<string>, names: set<string>, c: Call, told: Completion)
    requires Kept(db, tuples, names) && tuples !! names && NsStep(db, c, after, told, names)
    ensures Kept(after, tuples, names) && Agreeing(Contents(db), Contents(after), tuples)
  {
    hide Meta, NsAt, NextNs, AnswerNs, ToldBy;
    forall k | k in tuples ensures Queue(after, k) && Items(after, k) == Items(db, k) {
      assert k !in names;
    }
  }

  /** One call in a sequence. */
  lemma CallRefines(sv: Server, db: Store, c: Call, tuples: set<string>, names: set<string>, l: Lists)
    requires Restores(sv) && Orders(sv) && tuples !! names && Callable(c, tuples, names) && Kept(db, tuples, names) && Dumpable(sv, db, c.r)
    requires Agreeing(Contents(db), l, tuples)
    ensures var (after, told) := Perform(sv, db, c.r, c.immediate);
      && Kept(after, tuples, names) && Agreeing(Contents(after), NextLists(l, c.r), tuples)
      && (forall x :: x in names ==>
            NsAt(after, x) == if !OnTuple(c.r.op) && NameOf(c.r) == x then NextNs(NsAt(db, x), c.r) else NsAt(db, x))
      && (if OnTuple(c.r.op) then Answered(told) == AnswerTuple(l, c.r, c.immediate)
          else ToldBy(told) == AnswerNs(NsAt(db, NameOf(c.r)), c.r.op))
  {
    hide Perform, Restores, Orders, Kept, Dumpable, NextLists, AnswerTuple, Items, NsAt, NextNs, AnswerNs, Answered, ToldBy;
    var (after, told) := Perform(sv, db, c.r, c.immediate);
    NextAgrees(Contents(db), l, c, tuples, names);
    if OnTuple(c.r.op) {
      TupleCall(sv, db, c, tuples, names);
      TupleLeavesNames(db, after, tuples, names, c, told);
    } else {
      NamespaceCall(sv, db, c, tuples, names);
      NamesLeaveTuples(db, after, tuples, names, c, told);
      OtherLists(l, c.r);
    }
  }

  lemma OtherLists(l: Lists, r: Request)
    requires !OnTuple(r.op)
    ensures NextLists(l, r) == l
  {
  }

  /**
    After any sequence of requests on any tuples and namespaces, Redis holds the lists and the namespaces that
    the requests mean, request by request.
   */
  lemma {:induction false} SpaceRefined(sv: Server, db: Store, calls: seq<Call>, tuples: set<string>, names: set<string>, n: nat)
    requires AllCallable(calls, tuples, names) && Setting(sv, db, calls, tuples, names) && n <= |calls|
    ensures Kept(After(sv, db, calls, n), tuples, names)
    ensures forall x :: x in tuples ==> Items(After(sv, db, calls, n), x) == ListsAfter(Contents(db), calls, n)(x)
    ensures forall x :: x in names ==> NsAt(After(sv, db, calls, n), x) == NsAfter(NsAt(db, x), calls, n, x)
  {
    hide Perform, Restores, Orders, Kept, Dumpable, NextLists, Items, NsAt, NextNs, Callable;
    CallsSupported(calls, tuples, names);
    if n > 0 {
      SpaceRefined(sv, db, calls, tuples, names, n - 1);
      var before := After(sv, db, calls, n - 1);
      CallRefines(sv, before, calls[n - 1], tuples, names, ListsAfter(Contents(db), calls, n - 1));
    }
  }

  lemma CallsSupported(calls: seq<Call>, tuples: set<string>, names: set<string>)
    requires AllCallable(calls, tuples, names)
    ensures forall i :: 0 <= i < |calls| ==> Supported(calls[i].r.op) && HasStage(calls[i].r.op, 0)
  {
    hide Named;
  }

  /** And each request is answered as it means. */
  lemma AnswersRefined(sv: Server, db: Store, calls: seq<Call>, tuples: set<string>, names: set<string>, n: nat)
    requires AllCallable(calls, tuples, names) && Setting(sv, db, calls, tuples, names) && n < |calls|
    ensures forall i :: 0 <= i < |calls| ==> Supported(calls[i].r.op) && HasStage(calls[i].r.op, 0)
    ensures var c := calls[n]; var told := Perform(sv, After(sv, db, calls, n), c.r, c.immediate).1;
      if OnTuple(c.r.op) then Answered(told) == AnswerTuple(ListsAfter(Contents(db), calls, n), c.r, c.immediate)
      else ToldBy(told) == AnswerNs(NsAfter(NsAt(db, NameOf(c.r)), calls, n, NameOf(c.r)), c.r.op)
  {
    hide Perform, Restores, Orders, Kept, Dumpable, NextLists, Items, NsAt, NextNs, AnswerTuple, AnswerNs, Answered, ToldBy, Named;
    CallsSupported(calls, tuples, names);
    SpaceRefined(sv, db, calls, tuples, names, n);
    CallRefines(sv, After(sv, db, calls, n), calls[n], tuples, names, ListsAfter(Contents(db), calls, n));
  }

  // ---------- queues ----------

  /** The values that are put under a key by the calls from i to n. */
  function PutTo(calls: seq<Call>, i: nat, n: nat, k: string): seq<string>
    requires i <= n <= |calls|
  {
    if i == n then [] else
    PutTo(calls, i, n - 1, k) + PutBy(calls[n - 1], k)
  }

  /** The values that the gets among these calls return. */
  function GotFrom(sv: Server, db: Store, calls: seq<Call>, i: nat, n: nat, k: string): seq<string>
    requires i <= n <= |calls| && forall i :: 0 <= i < |calls| ==> Supported(calls[i].r.op) && HasStage(calls[i].r.op, 0)
  {
    if i == n then [] else
    var c := calls[n - 1];
    var answer := Answered(Perform(sv, After(sv, db, calls, n - 1), c.r, c.immediate).1);
    GotFrom(sv, db, calls, i, n - 1, k) + GotBy(c, answer, k)
  }

  /** None of these calls removes the tuple or moves it. */
  predicate Undisturbed(calls: seq<Call>, i: nat, n: nat, k: string)
    requires n <= |calls|
  {
    forall j :: i <= j < n ==> var r := calls[j].r;
      !(r.op == Remove && TupleKey(r) == k) && !(r.op == Move && (TupleKey(r) == k || TargetKey(r) == k))
  }

  lemma QueueMoves(l: Lists, c: Call, k: string)
    requires !(c.r.op == Remove && TupleKey(c.r) == k) && !(c.r.op == Move && (TupleKey(c.r) == k || TargetKey(c.r) == k))
    ensures l(k) + PutBy(c, k) == GotBy(c, AnswerTuple(l, c.r, c.immediate), k) + NextLists(l, c.r)(k)
  {
    hide Qualified;
  }

  function PutBy(c: Call, k: string): seq<string> {
    if c.r.op == Put && TupleKey(c.r) == k then [c.r.value] else []
  }

  function GotBy(c: Call, answer: Answer, k: string): seq<string> {
    if c.r.op == Get && TupleKey(c.r) == k && answer.Got? then [answer.value] else []
  }

  /** One call of such a stretch. */
  lemma QueueStep(sv: Server, db: Store, calls: seq<Call>, tuples: set<string>, names: set<string>, n: nat, k: string)
    requires AllCallable(calls, tuples, names) && Setting(sv, db, calls, tuples, names) && n < |calls| && k in tuples
    requires Undisturbed(calls, n, n + 1, k)
    ensures forall i :: 0 <= i < |calls| ==> Supported(calls[i].r.op) && HasStage(calls[i].r.op, 0)
    ensures var c, before := calls[n], After(sv, db, calls, n);
      var answer := Answered(Perform(sv, before, c.r, c.immediate).1);
      Items(before, k) + PutBy(c, k) == GotBy(c, answer, k) + Items(After(sv, db, calls, n + 1), k)
  {
    hide Perform, Setting, Items, NextLists, AnswerTuple, Answered, TupleKey, TargetKey, Callable, Contents, After;
    CallsSupported(calls, tuples, names);
    var c, l := calls[n], ListsAfter(Contents(db), calls, n);
    SpaceRefined(sv, db, calls, tuples, names, n);
    SpaceRefined(sv, db, calls, tuples, names, n + 1);
    QueueMoves(l, c, k);
    GetIsAnswered(sv, db, calls, tuples, names, n);
  }

  /**
    First in, first out: over any stretch of calls that neither remove nor move a tuple, what was there and what
    was put, in order, is what was got, in order, and what is there.
   */
  lemma {:induction false} FirstInFirstOut(sv: Server, db: Store, calls: seq<Call>, tuples: set<string>, names: set<string>,
                                           i: nat, n: nat, k: string)
    requires AllCallable(calls, tuples, names) && Setting(sv, db, calls, tuples, names) && i <= n <= |calls|
    requires k in tuples && Undisturbed(calls, i, n, k)
    ensures forall i :: 0 <= i < |calls| ==> Supported(calls[i].r.op) && HasStage(calls[i].r.op, 0)
    ensures Items(After(sv, db, calls, i), k) + PutTo(calls, i, n, k) == GotFrom(sv, db, calls, i, n, k) + Items(After(sv, db, calls, n), k)
    decreases n - i
  {
    hide Perform, Setting, Items, Answered, PutBy, GotBy, AllCallable, After;
    CallsSupported(calls, tuples, names);
    if i < n {
      var c, before := calls[n - 1], After(sv, db, calls, n - 1);
      var answer := Answered(Perform(sv, before, c.r, c.immediate).1);
      FirstInFirstOut(sv, db, calls, tuples, names, i, n - 1, k);
      QueueStep(sv, db, calls, tuples, names, n - 1, k);
      Chain(Items(After(sv, db, calls, i), k), PutTo(calls, i, n - 1, k), GotFrom(sv, db, calls, i, n - 1, k), Items(before, k),
            PutBy(c, k), GotBy(c, answer, k), Items(After(sv, db, calls, n), k));
    }
  }

  lemma GetIsAnswered(sv: Server, db: Store, calls: seq<Call>, tuples: set<string>, names: set<string>, n: nat)
    requires AllCallable(calls, tuples, names) && Setting(sv, db, calls, tuples, names) && n < |calls|
    ensures forall i :: 0 <= i < |calls| ==> Supported(calls[i].r.op) && HasStage(calls[i].r.op, 0)
    ensures var c := calls[n]; c.r.op == Get ==>
      Answered(Perform(sv, After(sv, db, calls, n), c.r, c.immediate).1) == AnswerTuple(ListsAfter(Contents(db), calls, n), c.r, c.immediate)
  {
    hide Perform, Setting, NextLists, AnswerTuple, Answered, Callable, AnswerNs, ToldBy, NsAt, NextNs;
    AnswersRefined(sv, db, calls, tuples, names, n);
  }

  lemma Chain(start: seq<string>, puts: seq<string>, gots: seq<string>, there: seq<string>, put: seq<string>, got: seq<string>, next: seq<string>)
    requires start + puts == gots + there && there + put == got + next
    ensures start + (puts + put) == (gots + got) + next
  {
    assert start + (puts + put) == (start + puts) + put;
    assert (gots + there) + put == gots + (there + put);
    assert gots + (got + next) == (gots + got) + next;
  }

  // ---------- reference counts ----------

  /** How many of the calls from i to n are of this kind, on this namespace. */
  function Calls(calls: seq<Call>, i: nat, n: nat, op: Opcode, x: string): nat
    requires i <= n <= |calls|
  {
    if i == n then 0 else
    var r := calls[n - 1].r;
    Calls(calls, i, n - 1, op, x) + if r.op == op && NameOf(r) == x then 1 else 0
  }

  lemma {:induction false} CountFollows(ns: Ns, calls: seq<Call>, i: nat, n: nat, x: string)
    requires i <= n <= |calls| && Made(NsAfter(ns, calls, i, x))
    ensures var before, after := NsAfter(ns, calls, i, x), NsAfter(ns, calls, n, x);
      && Made(after) && after.id == before.id && after.groups == before.groups
      && Count(after) == Count(before) + Calls(calls, i, n, NsAttach, x) - Calls(calls, i, n, NsDetach, x)
    decreases n - i
  {
    if i < n {
      CountFollows(ns, calls, i, n - 1, x);
    }
  }

  /**
    From its creation on, the reference count that Redis keeps of a namespace changes by one up for each attach and by
    one down for each detach, whatever other requests there are; creating it sets the count to one.
   */
  lemma CountIsBalance(sv: Server, db: Store, calls: seq<Call>, tuples: set<string>, names: set<string>, i: nat, n: nat, x: string)
    requires AllCallable(calls, tuples, names) && Setting(sv, db, calls, tuples, names) && i <= n <= |calls| && x in names
    requires forall i :: 0 <= i < |calls| ==> Supported(calls[i].r.op) && HasStage(calls[i].r.op, 0)
    requires var ns := NsAt(After(sv, db, calls, i), x); Made(ns)
    ensures var before, after := NsAt(After(sv, db, calls, i), x), NsAt(After(sv, db, calls, n), x);
      && Made(after) && after.id == before.id && after.groups == before.groups
      && Count(after) == Count(before) + Calls(calls, i, n, NsAttach, x) - Calls(calls, i, n, NsDetach, x)
  {
    hide Perform, Setting, NsAt, NextNs, Callable, Items, NextLists, Contents, Count;
    SpaceRefined(sv, db, calls, tuples, names, i);
    SpaceRefined(sv, db, calls, tuples, names, n);
    CountFollows(NsAt(db, x), calls, i, n, x);
  }
}
