/** The laws of the tuple space: queues under put, get, read, remove and move; reference counts of namespaces. */
module TupleLaws {
  import opened Definitions
  import opened Resp
  import opened Protocol
  import opened Commands
  import opened CommandFits
  import opened Redis
  import opened RedisWords
  import opened RespSession
  import opened TupleSpace
  import Detach
  import RespParser

  // ---------- what the stages say to Redis ----------

  function TupleKey(r: Request): string {
    Qualified(r.ns, r.key)
  }

  function TargetKey(r: Request): string {
    Qualified(r.target, r.key)
  }

  /** The effect and the reply of a stage, in terms of the store. */
  function Meant(sv: Server, db: Store, r: Request): (Store, Reply)
    requires HasStage(r.op, r.stage) && Supported(r.op) && r.op != NsDetach
  {
    match r.op
    case Put => RPush(db, TupleKey(r), r.value)
    case Get => LPop(db, TupleKey(r))
    case Read => (db, LIndex(db, TupleKey(r), Decimal(r.index)))
    case Remove => Del(db, TupleKey(r))
    case Move =>
      if r.stage == 0 then (db, Dump(sv, db, TupleKey(r)))
      else if r.stage == 1 then Restore(sv, db, TargetKey(r), r.dump)
      else Del(db, TupleKey(r))
    case NsCreate =>
      if r.stage == 0 then HSetNx(db, r.key, "id", r.key)
      else HMSet(db, r.key, ["refcnt", "1", "groups", if r.groups.Some? then r.groups.value else "", "flags", "0"])
    case NsAttach => if r.stage == 0 then (db, Exists(db, r.key)) else HIncrBy(db, r.key, "refcnt", "1")
    case NsDelete => if r.stage == 0 then (db, HMGet(db, r.ns, ["refcnt", "flags"])) else HSet(db, r.ns, "flags", "1")
    case NsQuery => (db, HGetAll(sv, db, r.ns))
  }

  ghost predicate IsMeant(sv: Server, db: Store, r: Request)
    requires HasStage(r.op, r.stage) && Supported(r.op) && r.op != NsDetach
  {
    var (after, reply) := Meant(sv, db, r); Effect(sv, db, r) == Served(Direct, after, [reply])
  }

  lemma ListEffect(sv: Server, db: Store, r: Request)
    requires HasStage(r.op, r.stage) && Named(r) && r.op in {Put, Get, Read}
    ensures IsMeant(sv, db, r)
  {
    hide Effect, Named, Qualified, Decimal, RPush, LPop, LIndex, Words;
    var k := TupleKey(r);
    var ws := match r.op case Put => ["RPUSH", k, r.value] case Get => ["LPOP", k] case Read => ["LINDEX", k, Decimal(r.index)];
    assert Command(r) == [Words(ws)];
    EffectOne(sv, db, r, ws);
    assert "LINDEX"[0] != "RPUSH"[0];
  }

  lemma ValueEffect(sv: Server, db: Store, r: Request)
    requires HasStage(r.op, r.stage) && Named(r) && r.op in {Remove, Move}
    ensures IsMeant(sv, db, r)
  {
    hide Effect, Named, Qualified, Decimal, Dump, Restore, Del, Words;
    var k := TupleKey(r);
    var ws :=
      if r.op == Move && r.stage == 0 then ["DUMP", k]
      else if r.op == Move && r.stage == 1 then ["RESTORE", TargetKey(r), "0", r.dump]
      else ["DEL", k];
    assert Command(r) == [Words(ws)];
    EffectOne(sv, db, r, ws);
    assert "DUMP"[0] != "LPOP"[0] && |"DEL"| != |"LPOP"| && |"DEL"| != |"DUMP"|;
  }

  lemma CreateEffect(sv: Server, db: Store, r: Request)
    requires HasStage(r.op, r.stage) && Named(r) && r.op == NsCreate
    ensures IsMeant(sv, db, r)
  {
    hide Effect, Named, HSetNx, HMSet, Words;
    var groups := if r.groups.Some? then r.groups.value else "";
    var ws :=
      if r.stage == 0 then ["HSETNX", r.key, "id", r.key]
      else ["HMSET", r.key, "refcnt", "1", "groups", groups, "flags", "0"];
    assert r.stage == 1 ==> ws[2..] == ["refcnt", "1", "groups", groups, "flags", "0"];
    assert Command(r) == [Words(ws)];
    EffectOne(sv, db, r, ws);
    assert |"HSETNX"| != |"RESTORE"|;
  }

  lemma AttachEffect(sv: Server, db: Store, r: Request)
    requires HasStage(r.op, r.stage) && Named(r) && r.op in {NsAttach, NsQuery}
    ensures IsMeant(sv, db, r)
  {
    hide Effect, Named, HIncrBy, Exists, HGetAll, Words;
    var ws :=
      if r.op == NsQuery then ["HGETALL", r.ns] else if r.stage == 0 then ["EXISTS", r.key] else ["HINCRBY", r.key, "refcnt", "1"];
    assert Command(r) == [Words(ws)];
    EffectOne(sv, db, r, ws);
    assert "HINCRBY"[0] != "RESTORE"[0] && |"HINCRBY"| != |"HSETNX"| && |"HINCRBY"| != |"HSET"|;
    assert |"EXISTS"| == 6 && |"HGETALL"| == 7;
  }

  lemma DeleteEffect(sv: Server, db: Store, r: Request)
    requires HasStage(r.op, r.stage) && Named(r) && r.op == NsDelete
    ensures IsMeant(sv, db, r)
  {
    hide Effect, Named, HSet, HMGet, Words;
    var ws := if r.stage == 0 then ["HMGET", r.ns, "refcnt", "flags"] else ["HSET", r.ns, "flags", "1"];
    assert Command(r) == [Words(ws)];
    EffectOne(sv, db, r, ws);
    assert |"HMGET"| == 5 && |"HSET"| == 4 && |"HSETNX"| == 6 && |"RESTORE"| == 7 && |"HINCRBY"| == 7;
  }

  lemma EffectIsMeant(sv: Server, db: Store, r: Request)
    requires HasStage(r.op, r.stage) && Supported(r.op) && r.op != NsDetach && Named(r)
    ensures IsMeant(sv, db, r)
  {
    hide IsMeant, Named;
    match r.op
    case Put => ListEffect(sv, db, r);
    case Get => ListEffect(sv, db, r);
    case Read => ListEffect(sv, db, r);
    case Remove => ValueEffect(sv, db, r);
    case Move => ValueEffect(sv, db, r);
    case NsCreate => CreateEffect(sv, db, r);
    case NsAttach => AttachEffect(sv, db, r);
    case NsQuery => AttachEffect(sv, db, r);
    case NsDelete => DeleteEffect(sv, db, r);
  }

  /** How a request goes on from a stage whose effect is known. */
  lemma FinishMeant(sv: Server, db: Store, r: Request, immediate: bool, told: Completion)
    requires HasStage(r.op, r.stage) && Supported(r.op) && r.op != NsDetach && Named(r)
    ensures var (after, reply) := Meant(sv, db, r); var spec := StageOf(r.op, r.stage);
      Finish(sv, db, r, immediate, told) ==
        match Judge(r, immediate, Meaning(reply))
        case Fails(rc) => (after, Completion(rc, CNull))
        case Polls => (after, Polling)
        case Deletes => (after, Deleting)
        case Undefined => (after, Crash)
        case Goes(rc, data) =>
          var now := if spec.result then Completion(rc, data) else told;
          if spec.final then (after, now)
          else (NextStage(r.op, r.stage); Finish(sv, after, Advanced(r, Meaning(reply)), immediate, now))
  {
    hide Effect, Meant, Judge, Meaning, StageOf, Named;
    EffectIsMeant(sv, db, r);
  }

  // ---------- stores ----------

  /** Nothing outside these keys has changed. */
  ghost predicate Agrees(db: Store, after: Store, keys: set<string>) {
    forall x :: x !in keys ==> (x in db <==> x in after) && (x in db && x in after ==> db[x] == after[x])
  }

  lemma ItemsSet(db: Store, k: string, items: seq<string>)
    ensures Items(SetItems(db, k, items), k) == items && Agrees(db, SetItems(db, k, items), {k})
    ensures k in SetItems(db, k, items) <==> items != []
    ensures k in SetItems(db, k, items) ==> SetItems(db, k, items)[k] == List(items)
  {
  }

  /** A key that holds tuples: free, or a list that is not empty. */
  predicate Queue(db: Store, k: string) {
    k in db ==> db[k].List? && db[k].items != []
  }

  // ---------- one request on a tuple ----------

  /** The list of a name, and what the user is told. */
  lemma PutLaw(sv: Server, db: Store, r: Request, immediate: bool)
    requires r.op == Put && Named(r.(stage := 0)) && Queue(db, TupleKey(r))
    ensures var (after, c) := Perform(sv, db, r, immediate); var k := TupleKey(r);
      && Items(after, k) == Items(db, k) + [r.value] && Queue(after, k) && Agrees(db, after, {k})
      && c == Completion(0, CInt(|Items(after, k)|))
  {
    hide Named, Qualified, Finish, SetItems;
    FinishMeant(sv, db, r.(stage := 0), immediate, Crash);
    ItemsSet(db, TupleKey(r), Items(db, TupleKey(r)) + [r.value]);
  }

  lemma GetLaw(sv: Server, db: Store, r: Request, immediate: bool)
    requires r.op == Get && Named(r.(stage := 0)) && Queue(db, TupleKey(r))
    ensures var (after, c) := Perform(sv, db, r, immediate); var k := TupleKey(r); var items := Items(db, k);
      && Items(after, k) == (if items == [] then [] else items[1..]) && Queue(after, k) && Agrees(db, after, {k})
      && c == if items != [] then Completion(0, CString(items[0])) else if immediate then Completion(0 - ENOENT, CNull) else Polling
  {
    hide Named, Qualified, Finish, SetItems;
    var k := TupleKey(r);
    FinishMeant(sv, db, r.(stage := 0), immediate, Crash);
    if Items(db, k) != [] {
      ItemsSet(db, k, Items(db, k)[1..]);
    }
  }

  lemma ReadLaw(sv: Server, db: Store, r: Request, immediate: bool)
    requires r.op == Read && Named(r.(stage := 0)) && Queue(db, TupleKey(r))
    ensures var (after, c) := Perform(sv, db, r, immediate); var items := Items(db, TupleKey(r));
      && after == db
      && c == if r.index < |items| then Completion(0, CString(items[r.index]))
              else if immediate then Completion(0 - ENOENT, CNull) else Polling
  {
    hide Named, Qualified, Finish, IntOf, Decimal;
    FinishMeant(sv, db, r.(stage := 0), immediate, Crash);
    IntReadsBack(r.index);
  }

  lemma RemoveLaw(sv: Server, db: Store, r: Request, immediate: bool)
    requires r.op == Remove && Named(r.(stage := 0)) && Queue(db, TupleKey(r))
    ensures var (after, c) := Perform(sv, db, r, immediate); var k := TupleKey(r);
      && Items(after, k) == [] && Queue(after, k) && Agrees(db, after, {k})
      && c == if Items(db, k) == [] then Completion(0 - ENOENT, CNull) else Completion(0, CInt(0))
  {
    hide Named, Qualified, Finish;
    FinishMeant(sv, db, r.(stage := 0), immediate, Crash);
  }

  // ---------- a move ----------

  /** A value that Redis can dump into a reply. */
  predicate Dumpable(sv: Server, db: Store, r: Request) {
    r.op == Move && TupleKey(r) in db ==> |sv.dump(db[TupleKey(r)])| <= INT64_MAX
  }

  lemma NamedOn(r: Request, stage: nat, dump: string)
    requires HasStage(r.op, 0) && HasStage(r.op, stage) && Named(r.(stage := 0)) && |dump| <= INT64_MAX
    ensures Named(r.(stage := stage, dump := dump))
  {
  }

  lemma BusyKey()
    ensures Contains(BUSY_KEY.text, "BUSYKEY")
  {
  }

  lemma MoveStarts(sv: Server, db: Store, r: Request, immediate: bool)
    requires r.op == Move && Named(r.(stage := 0)) && Dumpable(sv, db, r)
    ensures var k := TupleKey(r);
      Perform(sv, db, r, immediate) ==
        if k !in db then (db, Completion(0 - ENOENT, CNull))
        else Finish(sv, db, r.(stage := 1, dump := sv.dump(db[k])), immediate, Crash)
  {
    hide Named, Qualified, Finish;
    FinishMeant(sv, db, r.(stage := 0), immediate, Crash);
  }

  lemma MoveRestores(sv: Server, db: Store, r: Request, immediate: bool, v: Stored)
    requires r.op == Move && r.stage == 1 && Named(r) && Restores(sv) && r.dump == sv.dump(v)
    ensures var t := TargetKey(r);
      Finish(sv, db, r, immediate, Crash) ==
        if t in db then (db, Completion(0 - EEXIST, CNull)) else Finish(sv, db[t := v], r.(stage := 2), immediate, Crash)
  {
    hide Named, Qualified, Finish, Contains;
    FinishMeant(sv, db, r, immediate, Crash);
    BusyKey();
  }

  lemma MoveDeletes(sv: Server, db: Store, r: Request, immediate: bool)
    requires r.op == Move && r.stage == 2 && Named(r)
    ensures var k := TupleKey(r);
      Finish(sv, db, r, immediate, Crash) ==
        if k in db then (db - {k}, Completion(0, CInt(1))) else (db - {k}, Completion(0 - ENOENT, CNull))
  {
    hide Named, Qualified, Finish;
    FinishMeant(sv, db, r, immediate, Crash);
  }

  /** The list of the source goes to the target, if there is one and the target is free. */
  lemma MoveLaw(sv: Server, db: Store, r: Request, immediate: bool)
    requires r.op == Move && Named(r.(stage := 0)) && Restores(sv) && Dumpable(sv, db, r)
    requires Queue(db, TupleKey(r)) && Queue(db, TargetKey(r))
    ensures var (after, c) := Perform(sv, db, r, immediate); var k, t := TupleKey(r), TargetKey(r); var moved := Items(db, k);
      && Queue(after, k) && Queue(after, t) && Agrees(db, after, {k, t})
      && (if moved == [] || Items(db, t) != [] then
            after == db && c == Completion(if moved == [] then 0 - ENOENT else 0 - EEXIST, CNull)
          else
            Items(after, t) == moved && Items(after, k) == [] && c == Completion(0, CInt(1)))
  {
    hide Named, Qualified, Finish, Perform, Restores;
    var k, t := TupleKey(r), TargetKey(r);
    MoveStarts(sv, db, r, immediate);
    if k in db {
      var dump := sv.dump(db[k]);
      NamedOn(r, 1, dump);
      NamedOn(r, 2, dump);
      MoveRestores(sv, db, r.(stage := 1, dump := dump), immediate, db[k]);
      if t !in db {
        MoveDeletes(sv, db[t := db[k]], r.(stage := 2, dump := dump), immediate);
      }
    }
  }
}
