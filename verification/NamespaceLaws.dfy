/** Namespaces as Redis keeps them: their reference counts and marks under create, attach, detach, delete and query. */
module NamespaceLaws {
  import opened Definitions
  import opened Resp
  import opened Protocol
  import opened Commands
  import opened CommandFits
  import opened Redis
  import opened RedisWords
  import opened RespSession
  import opened TupleSpace
  import opened TupleLaws
  import Detach
  import Parser = RespParser
  import Whole = RespParserWhole

  /** What is kept under the name of a namespace; only one that was created has an id. */
  datatype Ns = Absent | There(id: Option<string>, count: Option<int>, marked: Option<bool>, groups: Option<string>)

  predicate Made(ns: Ns) {
    ns.There? && ns.id.Some?
  }

  const ALL_FIELDS: set<string> := {"id", "refcnt", "groups", "flags"}

  ghost predicate Orderly(fields: map<string, string>) {
    && fields.Keys <= ALL_FIELDS && ("id" in fields ==> fields.Keys == ALL_FIELDS)
    && ("refcnt" in fields ==> exists n :: fields["refcnt"] == SignedDecimal(n))
    && ("flags" in fields ==> fields["flags"] == "0" || fields["flags"] == "1")
  }

  /** A key that holds a namespace: free, or a hash of the fields of a namespace. */
  ghost predicate Meta(db: Store, x: string) {
    x in db ==> db[x].Hash? && Orderly(db[x].fields)
  }

  function NsOf(fields: map<string, string>): Ns {
    There(if "id" in fields then Some(fields["id"]) else None,
          if "refcnt" in fields then IntOf(fields["refcnt"]) else None,
          if "flags" in fields then Some(fields["flags"] == "1") else None,
          if "groups" in fields then Some(fields["groups"]) else None)
  }

  function NsAt(db: Store, x: string): Ns {
    if x in db && db[x].Hash? then NsOf(db[x].fields) else Absent
  }

  function NameOf(r: Request): string {
    if r.op in {NsCreate, NsAttach} then r.key else r.ns
  }

  // ---------- what is meant to happen ----------

  function Count(ns: Ns): int {
    if ns.There? && ns.count.Some? then ns.count.value else 0
  }

  /** The same, with nothing in it where nothing is. */
  function Filled(ns: Ns): (r: Ns)
    ensures r.There?
  {
    if ns.There? then ns else There(None, None, None, None)
  }

  function Counted(ns: Ns, change: int): Ns {
    var f := Filled(ns);
    There(f.id, Some(Count(ns) + change), f.marked, f.groups)
  }

  function Marked(ns: Ns): Ns {
    var f := Filled(ns);
    There(f.id, f.count, Some(true), f.groups)
  }

  function GroupsOf(r: Request): string {
    if r.groups.Some? then r.groups.value else ""
  }

  /** The namespace after a request. */
  function NextNs(ns: Ns, r: Request): Ns {
    match r.op
    case NsCreate => if Made(ns) then ns else There(Some(r.key), Some(1), Some(false), Some(GroupsOf(r)))
    case NsAttach => if ns.Absent? then ns else Counted(ns, 1)
    case NsDetach => Counted(ns, -1)
    case NsDelete => Marked(ns)
    case _ => ns
  }

  /** What the user is told: a code, and a number if there is one. */
  datatype Told = Code(rc: int, number: Option<int>) | GoesOn | Null

  function AnswerNs(ns: Ns, op: Opcode): Told {
    match op
    case NsCreate => if Made(ns) then Code(0 - EEXIST, None) else Code(0, Some(0))
    case NsAttach =>
      if ns.Absent? then Code(0 - ENOENT, None)
      else if Count(ns) + 1 < 1 then Code(0 - EOVERFLOW, None)
      else Code(0, Some(0))
    case NsDetach =>
      var left := Count(ns) - 1;
      if left < 0 then Code(0 - EOVERFLOW, None)
      else if Parser.ToInt32(left) > 0 then Code(0, Some(0))
      else if ns.Absent? || ns.marked.None? then Null
      else if ns.marked.value then GoesOn
      else Code(0, Some(0))
    case NsDelete =>
      var n := Parser.ToInt32(Count(ns));
      if ns.Absent? || ns.marked.None? then Code(0 - EEXIST, None)
      else if n > 1 then Code(EBUSY, Some(n - 1))
      else Code(0, Some(0))
    case _ => Code(if Made(ns) then 0 else 0 - ENOENT, None)
  }

  function ToldBy(c: Completion): Told {
    match c
    case Completion(rc, data) => Code(rc, if data.CInt? then Some(data.n) else None)
    case Polling => GoesOn
    case Deleting => GoesOn
    case Crash => Null
  }

  ghost predicate Lawful(db: Store, r: Request, after: Store, c: Completion) {
    var x := NameOf(r);
    && Meta(after, x) && Agrees(db, after, {x})
    && NsAt(after, x) == NextNs(NsAt(db, x), r) && ToldBy(c) == AnswerNs(NsAt(db, x), r.op)
  }

  // ---------- fields ----------

  lemma CountReads(fields: map<string, string>)
    requires Orderly(fields) && "refcnt" in fields
    ensures var n := NsOf(fields).count; n.Some? && fields["refcnt"] == SignedDecimal(n.value) && IntOf(fields["refcnt"]) == n
  {
    var n :| fields["refcnt"] == SignedDecimal(n);
    IntReadsBack(n);
  }

  lemma Incremented(fields: map<string, string>, n: int)
    requires Orderly(fields)
    ensures var after := fields["refcnt" := SignedDecimal(n)];
      Orderly(after) && NsOf(after) == NsOf(fields).(count := Some(n))
  {
    hide SignedDecimal;
    IntReadsBack(n);
    var after := fields["refcnt" := SignedDecimal(n)];
    assert "refcnt" in ALL_FIELDS;
    assert after.Keys == fields.Keys + {"refcnt"};
    DistinctNames();
  }

  lemma MarkedSet(fields: map<string, string>)
    requires Orderly(fields)
    ensures var after := fields["flags" := "1"]; Orderly(after) && NsOf(after) == NsOf(fields).(marked := Some(true))
  {
    hide SignedDecimal, IntOf;
    var after := fields["flags" := "1"];
    assert "flags" in ALL_FIELDS;
    assert after.Keys == fields.Keys + {"flags"};
    DistinctNames();
  }

  lemma DistinctNames()
    ensures "id" != "refcnt" && "id" != "groups" && "id" != "flags" && "refcnt" != "groups" && "refcnt" != "flags"
    ensures "groups" != "flags"
  {
    assert "refcnt"[0] == 'r' && "groups"[0] == 'g';
  }

  lemma NoFields()
    ensures Orderly(map[]) && NsOf(map[]) == There(None, None, None, None)
  {
  }

  lemma FieldsAt(db: Store, x: string)
    requires Meta(db, x)
    ensures HashOrFree(db, x) && Orderly(FieldsOf(db, x))
    ensures NsAt(db, x) == if x in db then NsOf(FieldsOf(db, x)) else Absent
    ensures x !in db ==> FieldsOf(db, x) == map[]
  {
    NoFields();
  }

  // ---------- create ----------

  lemma Created(fields: map<string, string>, name: string, groups: string)
    requires Orderly(fields)
    ensures var after := WithPairs(fields["id" := name], ["refcnt", "1", "groups", groups, "flags", "0"]);
      Orderly(after) && NsOf(after) == There(Some(name), Some(1), Some(false), Some(groups))
  {
    DistinctNames();
    var f1 := fields["id" := name];
    var p1 := ["refcnt", "1", "groups", groups, "flags", "0"];
    assert p1[2..] == ["groups", groups, "flags", "0"] && p1[2..][2..] == ["flags", "0"] && p1[2..][2..][2..] == [];
    var f2, f3 := f1["refcnt" := "1"], f1["refcnt" := "1"]["groups" := groups];
    var after := f3["flags" := "0"];
    assert WithPairs(f1, p1) == WithPairs(f2, p1[2..]);
    assert WithPairs(f2, p1[2..]) == WithPairs(f3, p1[2..][2..]);
    assert WithPairs(f3, p1[2..][2..]) == WithPairs(after, []);
    assert after.Keys == ALL_FIELDS;
    assert SignedDecimal(1) == "1";
    IntReadsBack(1);
    assert "0" != "1";
  }

  lemma CreateLaw(sv: Server, db: Store, r: Request, immediate: bool)
    requires r.op == NsCreate && Named(r.(stage := 0)) && Meta(db, r.key)
    ensures var (after, c) := Perform(sv, db, r, immediate); Lawful(db, r, after, c)
  {
    hide Named, Finish, Orderly, NsOf, WithPairs;
    var x, fields := r.key, FieldsOf(db, r.key);
    FieldsAt(db, x);
    NamesTell(fields);
    FinishMeant(sv, db, r.(stage := 0), immediate, Crash);
    if "id" !in fields {
      var db1 := db[x := Hash(fields["id" := x])];
      CreateEnds(sv, db1, r, immediate, x);
      Created(fields, x, GroupsOf(r));
    }
  }

  lemma NamesTell(fields: map<string, string>)
    ensures NsOf(fields).There? && (Made(NsOf(fields)) <==> "id" in fields)
  {
  }

  lemma CreateEnds(sv: Server, db: Store, r: Request, immediate: bool, result: string)
    requires r.op == NsCreate && Named(r.(stage := 0)) && r.key in db && db[r.key].Hash?
    ensures Finish(sv, db, r.(stage := 1), immediate, Crash) ==
      (db[r.key := Hash(WithPairs(db[r.key].fields, ["refcnt", "1", "groups", GroupsOf(r), "flags", "0"]))],
       Completion(0, CInt(0)))
  {
    hide Named, Finish, WithPairs;
    NamedStage(r);
    FinishMeant(sv, db, r.(stage := 1), immediate, Crash);
  }

  lemma NamedStage(r: Request)
    requires r.op in {NsCreate, NsAttach, NsDelete} && Named(r.(stage := 0))
    ensures Named(r.(stage := 1))
  {
  }

  // ---------- attach ----------

  /** The count of a namespace goes up or down. */
  lemma Increments(db: Store, x: string, add: string, change: int)
    requires Meta(db, x) && IntOf(add) == Some(change)
    ensures var (after, reply) := HIncrBy(db, x, "refcnt", add); var n := Count(NsAt(db, x)) + change;
      && reply == Integer(n) && after == db[x := Hash(FieldsOf(db, x)["refcnt" := SignedDecimal(n)])]
      && Meta(after, x) && Agrees(db, after, {x}) && NsAt(after, x) == Counted(NsAt(db, x), change)
  {
    hide Orderly, SignedDecimal, IntOf;
    var fields, n := FieldsOf(db, x), Count(NsAt(db, x)) + change;
    FieldsAt(db, x);
    NoFields();
    if "refcnt" in fields {
      CountReads(fields);
    }
    ZeroReads();
    Incremented(fields, n);
  }

  lemma ZeroReads()
    ensures IntOf("0") == Some(0) && IntOf("1") == Some(1) && IntOf("-1") == Some(-1)
  {
    assert SignedDecimal(0) == "0" && SignedDecimal(1) == "1" && SignedDecimal(-1) == "-1";
    IntReadsBack(0);
    IntReadsBack(1);
    IntReadsBack(-1);
  }

  lemma AttachLaw(sv: Server, db: Store, r: Request, immediate: bool)
    requires r.op == NsAttach && Named(r.(stage := 0)) && Meta(db, r.key)
    ensures var (after, c) := Perform(sv, db, r, immediate); Lawful(db, r, after, c)
  {
    hide Named, Finish, Orderly, NsOf, HIncrBy, SignedDecimal, IntOf, Meta;
    FinishMeant(sv, db, r.(stage := 0), immediate, Crash);
    Presence(db, r.key);
    if r.key in db {
      NamedStage(r);
      FinishMeant(sv, db, r.(stage := 1), immediate, Crash);
      ZeroReads();
      Increments(db, r.key, "1", 1);
    }
  }

  lemma Presence(db: Store, x: string)
    requires Meta(db, x)
    ensures NsAt(db, x).Absent? <==> x !in db
  {
  }

  // ---------- delete ----------

  lemma DigitsToEnd(text: string, p: nat, n: nat)
    requires p <= |text| && text[p..] == Decimal(n)
    ensures Parser.SkipDigits(text, p, 0) == (n, |text|)
  {
    hide Decimal, Parser.SkipDigits;
    Whole.SkipDigitsReads(text, p, Decimal(n), 0);
    DecimalReadsBack(n);
    NoDigitsLeft(text, n);
  }

  lemma NoDigitsLeft(text: string, n: nat)
    ensures Parser.SkipDigits(text, |text|, n) == (n, |text|)
  {
  }

  lemma SignedReads(n: int)
    ensures Detach.ToInt(SignedDecimal(n)) == Parser.ToInt32(n)
  {
    hide Decimal, Parser.ToInt32, Parser.SkipDigits;
    var text := SignedDecimal(n);
    if n < 0 {
      assert text[1..] == Decimal(0 - n) && Parser.At(text, 0) == '-';
      DigitsToEnd(text, 1, 0 - n);
    } else {
      assert text[0..] == Decimal(n);
      DigitsToEnd(text, 0, n);
    }
  }

  /** What count and mark read as. */
  lemma FieldsRead(db: Store, x: string)
    requires Meta(db, x)
    ensures var ns, fields := NsAt(db, x), FieldsOf(db, x);
      && HMGet(db, x, ["refcnt", "flags"]) == Array([FieldReply(fields, "refcnt"), FieldReply(fields, "flags")])
      && FieldReply(fields, "refcnt") == (if ns.There? && ns.count.Some? then Bulk(SignedDecimal(ns.count.value)) else Nil)
      && FieldReply(fields, "flags") == (if ns.There? && ns.marked.Some? then Bulk(if ns.marked.value then "1" else "0") else Nil)
  {
    hide SignedDecimal, IntOf;
    FieldsAt(db, x);
    var fields := FieldsOf(db, x);
    if "refcnt" in fields {
      CountReads(fields);
    }
  }

  lemma MeaningOfTwo(a: Reply, b: Reply)
    ensures Meaning(Array([a, b])) == CArray([Meaning(a), Meaning(b)])
  {
    assert [a, b][1..] == [b] && [b][1..] == [];
    assert Meanings([b]) == [Meaning(b)];
  }

  lemma CountJudged(db: Store, x: string)
    requires Meta(db, x)
    ensures var n := Parser.ToInt32(Count(NsAt(db, x)));
      JudgeCount(Meaning(HMGet(db, x, ["refcnt", "flags"]))) == if n > 1 then Goes(EBUSY, CInt(n - 1)) else Goes(0, CInt(0))
  {
    hide SignedDecimal, HMGet, Meta, NsAt, Detach.ToInt;
    FieldsRead(db, x);
    var fields, ns := FieldsOf(db, x), NsAt(db, x);
    MeaningOfTwo(FieldReply(fields, "refcnt"), FieldReply(fields, "flags"));
    SignedReads(Count(ns));
  }

  lemma Marks(db: Store, x: string)
    requires Meta(db, x)
    ensures var (after, reply) := HSet(db, x, "flags", "1"); var ns := NsAt(db, x);
      && reply == Integer(if ns.There? && ns.marked.Some? then 0 else 1)
      && Meta(after, x) && Agrees(db, after, {x}) && NsAt(after, x) == Marked(ns)
  {
    hide Orderly;
    FieldsAt(db, x);
    NoFields();
    MarkedSet(FieldsOf(db, x));
  }

  lemma DeleteEnds(sv: Server, db: Store, r: Request, immediate: bool, now: Completion)
    requires r.op == NsDelete && Named(r.(stage := 0)) && Meta(db, r.ns)
    ensures var ns := NsAt(db, r.ns);
      Finish(sv, db, r.(stage := 1), immediate, now) ==
        (HSet(db, r.ns, "flags", "1").0, if ns.There? && ns.marked.Some? then now else Completion(0 - EEXIST, CNull))
  {
    hide Named, Finish, NsAt, HSet, Meta;
    NamedStage(r);
    FinishMeant(sv, db, r.(stage := 1), immediate, now);
    Marks(db, r.ns);
  }

  lemma DeleteLaw(sv: Server, db: Store, r: Request, immediate: bool)
    requires r.op == NsDelete && Named(r.(stage := 0)) && Meta(db, r.ns)
    ensures var (after, c) := Perform(sv, db, r, immediate); Lawful(db, r, after, c)
  {
    hide Named, Finish, NsAt, HSet, HMGet, Meta, JudgeCount, Count, Parser.ToInt32, Marked;
    FinishMeant(sv, db, r.(stage := 0), immediate, Crash);
    CountJudged(db, r.ns);
    var n := Parser.ToInt32(Count(NsAt(db, r.ns)));
    DeleteEnds(sv, db, r, immediate, if n > 1 then Completion(EBUSY, CInt(n - 1)) else Completion(0, CInt(0)));
    Marks(db, r.ns);
  }

  // ---------- detach, up to its verdict ----------

  lemma QueueOne(sv: Server, db: Store, queue: seq<seq<string>>, ws: seq<string>)
    requires |ws| > 1
    ensures Serve(sv, Multi(queue), db, ws) == Served(Multi(queue + [ws]), db, [Simple("QUEUED")])
  {
  }

  lemma ExecuteNone(sv: Server, db: Store)
    ensures ExecuteAll(sv, db, []) == (db, [])
  {
  }

  lemma ExecuteTwo(sv: Server, db: Store, a: seq<string>, b: seq<string>)
    ensures var (db1, r1) := Execute(sv, db, a); var (db2, r2) := Execute(sv, db1, b);
      ExecuteAll(sv, db, [a, b]) == (db2, [r1, r2])
  {
    hide Execute;
    assert [a, b][1..] == [b] && [b][1..] == [];
    var (db1, r1) := Execute(sv, db, a);
    var (db2, r2) := Execute(sv, db1, b);
    ExecuteNone(sv, db2);
    assert [r2] + [] == [r2] && [r1] + [r2] == [r1, r2];
    assert ExecuteAll(sv, db1, [b]) == (db2, [r2]);
  }

  /** A transaction of two commands. */
  lemma ServeTransaction(sv: Server, db: Store, a: seq<string>, b: seq<string>)
    requires |a| > 1 && |b| > 1
    ensures var (after, replies) := ExecuteAll(sv, db, [a, b]);
      ServeAll(sv, Direct, db, [["MULTI"], a, b, ["EXEC"]]) ==
        Served(Direct, after, [OK, Simple("QUEUED"), Simple("QUEUED"), Array(replies)])
  {
    hide ExecuteAll, Execute;
    var cmds := [["MULTI"], a, b, ["EXEC"]];
    assert cmds[1..] == [a, b, ["EXEC"]] && cmds[1..][1..] == [b, ["EXEC"]] && cmds[1..][1..][1..] == [["EXEC"]];
    assert cmds[1..][1..][1..][1..] == [];
    assert |"MULTI"| != |"EXEC"|;
    QueueOne(sv, db, [], a);
    QueueOne(sv, db, [a], b);
    assert [] + [a] == [a] && [a] + [b] == [a, b];
    var (after, replies) := ExecuteAll(sv, db, [a, b]);
    var last := Served(Direct, after, [Array(replies)]);
    assert ServeAll(sv, Multi([a, b]), db, [["EXEC"]]) == last;
    assert ServeAll(sv, Multi([a]), db, [b, ["EXEC"]]) == last.(replies := [Simple("QUEUED"), Array(replies)]);
    assert ServeAll(sv, Multi([]), db, [a, b, ["EXEC"]]) == last.(replies := [Simple("QUEUED"), Simple("QUEUED"), Array(replies)]);
  }

  lemma SaidByDetach(r: Request)
    requires r.op == NsDetach && r.stage == 0 && AreCommands(Command(r))
    ensures Said(Command(r)) == [["MULTI"], ["HINCRBY", r.ns, "refcnt", "-1"], ["HMGET", r.ns, "refcnt", "flags"], ["EXEC"]]
  {
    hide Words, WordsOf, IsCommand;
    WordsBack(["MULTI"]);
    WordsBack(["HINCRBY", r.ns, "refcnt", "-1"]);
    WordsBack(["HMGET", r.ns, "refcnt", "flags"]);
    WordsBack(["EXEC"]);
  }

  lemma ExecuteCheck(sv: Server, db: Store, x: string)
    ensures Execute(sv, db, ["HINCRBY", x, "refcnt", "-1"]) == HIncrBy(db, x, "refcnt", "-1")
    ensures Execute(sv, db, ["HMGET", x, "refcnt", "flags"]) == (db, HMGet(db, x, ["refcnt", "flags"]))
  {
    hide HIncrBy, HMGet;
    assert "HINCRBY"[0] != "RESTORE"[0] && |"HINCRBY"| != |"HSETNX"| && |"HINCRBY"| != |"HSET"|;
    assert |"HMGET"| == 5 && |"HSET"| == 4 && |"HSETNX"| == 6 && |"RESTORE"| == 7 && |"HINCRBY"| == 7;
  }

  lemma DetachEffect(sv: Server, db: Store, r: Request)
    requires r.op == NsDetach && r.stage == 0 && Named(r)
    ensures var (after, reply) := HIncrBy(db, r.ns, "refcnt", "-1");
      Effect(sv, db, r) ==
        Served(Direct, after, [OK, Simple("QUEUED"), Simple("QUEUED"), Array([reply, HMGet(after, r.ns, ["refcnt", "flags"])])])
  {
    hide Effect, Named, HIncrBy, HMGet, Execute, ServeAll, Said, Command;
    var a, b := ["HINCRBY", r.ns, "refcnt", "-1"], ["HMGET", r.ns, "refcnt", "flags"];
    EffectIsSaid(sv, db, r);
    SaidByDetach(r);
    ServeTransaction(sv, db, a, b);
    ExecuteTwo(sv, db, a, b);
    ExecuteCheck(sv, db, r.ns);
    var (after, reply) := HIncrBy(db, r.ns, "refcnt", "-1");
    ExecuteCheck(sv, after, r.ns);
  }

  /** The verdict on a count, and a mark that may be missing. */
  lemma DetachJudged(left: int, marked: Option<bool>)
    ensures var mark := if marked.Some? then CString(if marked.value then "1" else "0") else CNull;
      var v := JudgeDetach(CArray([CInt(left), CArray([CString(SignedDecimal(left)), mark])]));
      if left < 0 then v == Fails(0 - EOVERFLOW)
      else if Parser.ToInt32(left) > 0 then v == Goes(0, CInt(0))
      else if marked.None? then v == Undefined
      else v == if marked.value then Deletes else Goes(0, CInt(0))
  {
    hide SignedDecimal, Parser.ToInt32, Detach.ToInt;
    SignedReads(left);
    SignedReads(0);
    SignedReads(1);
    assert Parser.ToInt32(0) == 0 && Parser.ToInt32(1) == 1 by {
      SmallInts();
    }
    assert SignedDecimal(0) == "0" && SignedDecimal(1) == "1" by {
      SmallTexts();
    }
  }

  lemma SmallInts()
    ensures Parser.ToInt32(0) == 0 && Parser.ToInt32(1) == 1
  {
  }

  lemma SmallTexts()
    ensures SignedDecimal(0) == "0" && SignedDecimal(1) == "1"
  {
  }

  lemma PerformDetach(sv: Server, db: Store, r: Request, immediate: bool)
    requires r.op == NsDetach && Named(r.(stage := 0))
    ensures var (after, reply) := HIncrBy(db, r.ns, "refcnt", "-1");
      Perform(sv, db, r, immediate) == (after,
        match JudgeDetach(Meaning(Array([reply, HMGet(after, r.ns, ["refcnt", "flags"])])))
        case Fails(rc) => Completion(rc, CNull)
        case Polls => Polling
        case Deletes => Deleting
        case Undefined => Crash
        case Goes(rc, data) => Completion(rc, data))
  {
    hide Named, HIncrBy, HMGet, JudgeDetach, Effect, Meaning;
    DetachEffect(sv, db, r.(stage := 0));
  }

  /** The count goes down by one; the namespace is handed over to deletion exactly if nobody uses it and it is marked. */
  lemma DetachLaw(sv: Server, db: Store, r: Request, immediate: bool)
    requires r.op == NsDetach && Named(r.(stage := 0)) && Meta(db, r.ns)
    ensures var (after, c) := Perform(sv, db, r, immediate); Lawful(db, r, after, c)
  {
    hide Named, HIncrBy, HMGet, Meta, NsAt, SignedDecimal, Parser.ToInt32, JudgeDetach, IntOf, Perform, FieldsOf, FieldReply;
    var x := r.ns;
    ZeroReads();
    Increments(db, x, "-1", -1);
    PerformDetach(sv, db, r, immediate);
    var (after, reply) := HIncrBy(db, x, "refcnt", "-1");
    FieldsRead(after, x);
    var ns, fields := NsAt(db, x), FieldsOf(after, x);
    MeaningOfTwo(FieldReply(fields, "refcnt"), FieldReply(fields, "flags"));
    MeaningOfTwo(reply, HMGet(after, x, ["refcnt", "flags"]));
    DetachJudged(Count(ns) - 1, if ns.There? then ns.marked else None);
  }

  // ---------- query ----------

  /** The fields of a hash are given each once. */
  ghost predicate Orders(sv: Server) {
    forall f: map<string, string> {:trigger sv.order(f)} ::
      (forall i, j :: 0 <= i < j < |sv.order(f)| ==> sv.order(f)[i] != sv.order(f)[j]) && (forall x :: x in sv.order(f) <==> x in f)
  }

  lemma {:induction false} DistinctCounted(s: seq<string>, keys: set<string>)
    requires (forall i, j :: 0 <= i < j < |s| ==> s[i] != s[j]) && forall x :: x in s <==> x in keys
    ensures |s| == |keys|
    decreases |s|
  {
    if s == [] {
      assert keys == {};
    } else {
      var rest := s[1..];
      forall x ensures x in rest <==> x in keys - {s[0]} {
        if x in rest {
          var i :| 0 <= i < |rest| && rest[i] == x;
          assert s[i + 1] == x;
        }
        if x in keys && x != s[0] {
          var i :| 0 <= i < |s| && s[i] == x;
          assert rest[i - 1] == x;
        }
      }
      DistinctCounted(rest, keys - {s[0]});
    }
  }

  lemma {:induction false} PairsCounted(fields: map<string, string>, order: seq<string>)
    requires forall x :: x in order ==> x in fields
    ensures |Pairs(fields, order)| == 2 * |order|
    decreases |order|
  {
    if order != [] {
      assert order[0] in order;
      PairsCounted(fields, order[1..]);
    }
  }

  lemma {:induction false} MeaningsCounted(rs: seq<Reply>)
    ensures |Meanings(rs)| == |rs|
    decreases |rs|
  {
    hide Meaning;
    if rs != [] {
      MeaningsCounted(rs[1..]);
    }
  }

  lemma FourFields(fields: map<string, string>)
    requires Orderly(fields)
    ensures |fields| >= 4 <==> "id" in fields
  {
    DistinctNames();
    assert |fields| == |fields.Keys| && |ALL_FIELDS| == 4;
    if "id" !in fields {
      assert fields.Keys <= ALL_FIELDS - {"id"};
      Smaller(fields.Keys, ALL_FIELDS - {"id"});
    }
  }

  lemma Smaller(a: set<string>, b: set<string>)
    requires a <= b
    ensures |a| <= |b|
  {
    assert b == a + (b - a);
  }

  lemma QueryLaw(sv: Server, db: Store, r: Request, immediate: bool)
    requires r.op == NsQuery && Named(r.(stage := 0)) && Meta(db, r.ns) && Orders(sv)
    ensures var (after, c) := Perform(sv, db, r, immediate); Lawful(db, r, after, c) && after == db
  {
    hide Named, Finish, Orderly, Pairs, Meanings, NsOf, Orders;
    var x, fields := r.ns, FieldsOf(db, r.ns);
    FieldsAt(db, x);
    FinishMeant(sv, db, r.(stage := 0), immediate, Crash);
    OrderIs(sv, fields);
    DistinctCounted(sv.order(fields), fields.Keys);
    PairsCounted(fields, sv.order(fields));
    MeaningsCounted(Pairs(fields, sv.order(fields)));
    FourFields(fields);
    NamesTell(fields);
  }

  lemma OrderIs(sv: Server, f: map<string, string>)
    requires Orders(sv)
    ensures forall i, j :: 0 <= i < j < |sv.order(f)| ==> sv.order(f)[i] != sv.order(f)[j]
    ensures forall x :: x in sv.order(f) <==> x in f.Keys
  {
  }

  // ---------- what a query tells ----------

  /** A field of a namespace, as text. */
  function FieldText(ns: Ns, f: string): string
    requires ns.There? && ns.id.Some? && ns.count.Some? && ns.marked.Some? && ns.groups.Some?
  {
    if f == "id" then ns.id.value
    else if f == "refcnt" then SignedDecimal(ns.count.value)
    else if f == "groups" then ns.groups.value
    else if ns.marked.value then "1"
    else "0"
  }

  lemma FieldsTold(fields: map<string, string>, f: string)
    requires Orderly(fields) && "id" in fields && f in ALL_FIELDS
    ensures var ns := NsOf(fields);
      ns.count.Some? && ns.marked.Some? && ns.groups.Some? && f in fields && fields[f] == FieldText(ns, f)
  {
    hide SignedDecimal, IntOf;
    DistinctNames();
    CountReads(fields);
  }

  lemma {:induction false} PairAt(fields: map<string, string>, order: seq<string>, i: nat)
    requires (forall x :: x in order ==> x in fields) && i < |order|
    ensures |Pairs(fields, order)| == 2 * |order|
    ensures Pairs(fields, order)[2 * i] == Bulk(order[i]) && Pairs(fields, order)[2 * i + 1] == Bulk(fields[order[i]])
    decreases i
  {
    PairsCounted(fields, order);
    assert order[0] in order;
    if i > 0 {
      PairAt(fields, order[1..], i - 1);
    }
  }

  lemma {:induction false} MeaningAt(rs: seq<Reply>, i: nat)
    requires i < |rs|
    ensures |Meanings(rs)| == |rs| && Meanings(rs)[i] == Meaning(rs[i])
    decreases i
  {
    hide Meaning;
    MeaningsCounted(rs);
    if i > 0 {
      MeaningAt(rs[1..], i - 1);
    }
  }

  /** The completion of a query holds the field and its text, one behind the other. */
  ghost predicate Tells(c: Completion, f: string, text: string) {
    && c.Completion? && c.rc == 0 && c.data.CArray? && |c.data.elems| == 8
    && exists i :: 0 <= i < 7 && c.data.elems[i] == CString(f) && c.data.elems[i + 1] == CString(text)
  }

  /** A query tells id, count, groups and mark of the namespace. */
  lemma QueryTells(sv: Server, db: Store, r: Request, immediate: bool, f: string)
    requires r.op == NsQuery && Named(r.(stage := 0)) && Meta(db, r.ns) && Orders(sv) && Made(NsAt(db, r.ns)) && f in ALL_FIELDS
    ensures var ns := NsAt(db, r.ns);
      && ns.count.Some? && ns.marked.Some? && ns.groups.Some?
      && Tells(Perform(sv, db, r, immediate).1, f, FieldText(ns, f))
  {
    hide Named, Finish, Orderly, Pairs, Meanings, NsOf, Orders, FieldText;
    var x, fields := r.ns, FieldsOf(db, r.ns);
    FieldsAt(db, x);
    NamesTell(fields);
    FieldsTold(fields, f);
    FinishMeant(sv, db, r.(stage := 0), immediate, Crash);
    OrderIs(sv, fields);
    var order := sv.order(fields);
    AllInOrder(fields, order);
    var i :| 0 <= i < |order| && order[i] == f;
    PairAt(fields, order, i);
    MeaningAt(Pairs(fields, order), 2 * i);
    MeaningAt(Pairs(fields, order), 2 * i + 1);
    var c := Perform(sv, db, r, immediate).1;
    assert c.data.elems[2 * i] == CString(f) && c.data.elems[2 * i + 1] == CString(fields[f]);
  }

  lemma AllInOrder(fields: map<string, string>, order: seq<string>)
    requires Orderly(fields) && "id" in fields
    requires (forall i, j :: 0 <= i < j < |order| ==> order[i] != order[j]) && forall x :: x in order <==> x in fields.Keys
    ensures |order| == 4
  {
    DistinctNames();
    DistinctCounted(order, fields.Keys);
    assert |ALL_FIELDS| == 4;
  }
}
