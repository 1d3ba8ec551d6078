/** What Redis does with a command: a store of lists and hashes, one reply for each command. */
module Redis {
  import opened Resp
  import opened Protocol

  datatype Stored = List(items: seq<string>) | Hash(fields: map<string, string>)

  type Store = map<string, Stored>

  /**
    What is left to the server: the format of dumped values, the order in which it gives the fields of a
    hash, and the pages of its keys that a scan goes through.
   */
  datatype Server = Server(
    dump: Stored -> string,
    load: string -> Option<Stored>,
    order: map<string, string> -> seq<string>,
    page: (Store, string) -> (string, seq<string>))

  /** A dumped value is loaded as it was. */
  ghost predicate Restores(sv: Server) {
    forall v :: sv.load(sv.dump(v)) == Some(v)
  }

  const OK: Reply := Simple("OK")
  const WRONG_TYPE: Reply := Error("WRONGTYPE Operation against a key holding the wrong kind of value")
  const BUSY_KEY: Reply := Error("BUSYKEY Target key name already exists.")
  const NOT_AN_INTEGER: Reply := Error("ERR hash value is not an integer")
  const UNKNOWN: Reply := Error("ERR unknown command")

  // ---------- numbers ----------

  predicate Digits(s: string) {
    s != "" && forall i :: 0 <= i < |s| ==> IsDigit(s[i])
  }

  function IntOf(s: string): Option<int> {
    if Digits(s) then Some(Accumulate(0, s))
    else if s != "" && s[0] == '-' && Digits(s[1..]) then Some(0 - Accumulate(0, s[1..]))
    else None
  }

  lemma IntReadsBack(n: int)
    ensures IntOf(SignedDecimal(n)) == Some(n)
  {
    if n < 0 {
      assert SignedDecimal(n)[1..] == Decimal(0 - n);
      DecimalReadsBack(0 - n);
    } else {
      DecimalReadsBack(n);
    }
  }

  // ---------- lists ----------

  /** The key is free or holds a list. */
  predicate ListOrFree(db: Store, k: string) {
    k in db ==> db[k].List?
  }

  function Items(db: Store, k: string): seq<string> {
    if k in db && db[k].List? then db[k].items else []
  }

  /** A list that becomes empty is gone. */
  function SetItems(db: Store, k: string, items: seq<string>): Store {
    if items == [] then db - {k} else db[k := List(items)]
  }

  function RPush(db: Store, k: string, v: string): (Store, Reply) {
    if !ListOrFree(db, k) then (db, WRONG_TYPE)
    else (SetItems(db, k, Items(db, k) + [v]), Integer(|Items(db, k)| + 1))
  }

  function LPop(db: Store, k: string): (Store, Reply) {
    var items := Items(db, k);
    if !ListOrFree(db, k) then (db, WRONG_TYPE)
    else if items == [] then (db, Nil)
    else (SetItems(db, k, items[1..]), Bulk(items[0]))
  }

  function LIndex(db: Store, k: string, index: string): Reply {
    var items := Items(db, k);
    match IntOf(index)
    case None => NOT_AN_INTEGER
    case Some(i) =>
      if !ListOrFree(db, k) then WRONG_TYPE
      else if 0 <= i < |items| then Bulk(items[i])
      else if 0 <= i + |items| < |items| then Bulk(items[i + |items|])
      else Nil
  }

  // ---------- any value ----------

  function Del(db: Store, k: string): (Store, Reply) {
    (db - {k}, Integer(if k in db then 1 else 0))
  }

  function Exists(db: Store, k: string): Reply {
    Integer(if k in db then 1 else 0)
  }

  function Dump(sv: Server, db: Store, k: string): Reply {
    if k in db then Bulk(sv.dump(db[k])) else Nil
  }

  function Restore(sv: Server, db: Store, k: string, payload: string): (Store, Reply) {
    if k in db then (db, BUSY_KEY)
    else match sv.load(payload)
      case None => (db, Error("ERR DUMP payload version or checksum are wrong"))
      case Some(v) => (db[k := v], OK)
  }

  // ---------- hashes ----------

  predicate HashOrFree(db: Store, k: string) {
    k in db ==> db[k].Hash?
  }

  function FieldsOf(db: Store, k: string): map<string, string> {
    if k in db && db[k].Hash? then db[k].fields else map[]
  }

  function HSet(db: Store, k: string, f: string, v: string): (Store, Reply) {
    var fields := FieldsOf(db, k);
    if !HashOrFree(db, k) then (db, WRONG_TYPE)
    else (db[k := Hash(fields[f := v])], Integer(if f in fields then 0 else 1))
  }

  function HSetNx(db: Store, k: string, f: string, v: string): (Store, Reply) {
    var fields := FieldsOf(db, k);
    if !HashOrFree(db, k) then (db, WRONG_TYPE)
    else if f in fields then (db, Integer(0))
    else (db[k := Hash(fields[f := v])], Integer(1))
  }

  function WithPairs(fields: map<string, string>, pairs: seq<string>): map<string, string>
    decreases |pairs|
  {
    if |pairs| < 2 then fields else WithPairs(fields[pairs[0] := pairs[1]], pairs[2..])
  }

  function HMSet(db: Store, k: string, pairs: seq<string>): (Store, Reply) {
    if !HashOrFree(db, k) then (db, WRONG_TYPE) else (db[k := Hash(WithPairs(FieldsOf(db, k), pairs))], OK)
  }

  function HIncrBy(db: Store, k: string, f: string, add: string): (Store, Reply) {
    var fields := FieldsOf(db, k);
    if !HashOrFree(db, k) then (db, WRONG_TYPE)
    else match (IntOf(if f in fields then fields[f] else "0"), IntOf(add))
      case (Some(n), Some(d)) => (db[k := Hash(fields[f := SignedDecimal(n + d)])], Integer(n + d))
      case (_, _) => (db, NOT_AN_INTEGER)
  }

  function FieldReply(fields: map<string, string>, f: string): Reply {
    if f in fields then Bulk(fields[f]) else Nil
  }

  function HMGet(db: Store, k: string, fs: seq<string>): Reply {
    if !HashOrFree(db, k) then WRONG_TYPE
    else Array(seq(|fs|, i requires 0 <= i < |fs| => FieldReply(FieldsOf(db, k), fs[i])))
  }

  function Pairs(fields: map<string, string>, order: seq<string>): seq<Reply> {
    if order == [] then []
    else (if order[0] in fields then [Bulk(order[0]), Bulk(fields[order[0]])] else []) + Pairs(fields, order[1..])
  }

  function HGetAll(sv: Server, db: Store, k: string): Reply {
    if !HashOrFree(db, k) then WRONG_TYPE else Array(Pairs(FieldsOf(db, k), sv.order(FieldsOf(db, k))))
  }

  // ---------- scans ----------

  /** Patterns with '*', '?' and escapes. */
  predicate Glob(p: string, s: string)
    decreases |p| + |s|
  {
    if p == "" then s == ""
    else if p[0] == '*' then Glob(p[1..], s) || (s != "" && Glob(p, s[1..]))
    else if s == "" then false
    else if p[0] == '?' then Glob(p[1..], s[1..])
    else if p[0] == '\\' && |p| > 1 then p[1] == s[0] && Glob(p[2..], s[1..])
    else p[0] == s[0] && Glob(p[1..], s[1..])
  }

  /** The keys of a page that are in the store and match. */
  function Matching(db: Store, pattern: string, keys: seq<string>): seq<string> {
    if keys == [] then []
    else (if keys[0] in db && Glob(pattern, keys[0]) then [keys[0]] else []) + Matching(db, pattern, keys[1..])
  }

  function Bulks(ws: seq<string>): seq<Reply> {
    seq(|ws|, i requires 0 <= i < |ws| => Bulk(ws[i]))
  }

  function ScanPage(sv: Server, db: Store, cursor: string, pattern: string): Reply {
    var (next, keys) := sv.page(db, cursor);
    Array([Bulk(next), Array(Bulks(Matching(db, pattern, keys)))])
  }

  // ---------- commands ----------

  function Execute(sv: Server, db: Store, ws: seq<string>): (Store, Reply) {
    match |ws|
    case 2 => ExecuteKey(sv, db, ws[0], ws[1])
    case 3 =>
      if ws[0] == "RPUSH" then RPush(db, ws[1], ws[2])
      else if ws[0] == "LINDEX" then (db, LIndex(db, ws[1], ws[2]))
      else (db, UNKNOWN)
    case 4 => ExecuteFields(sv, db, ws[0], ws[1], ws[2], ws[3])
    case 6 =>
      if ws[0] == "SCAN" && ws[2] == "MATCH" && ws[4] == "COUNT" then (db, ScanPage(sv, db, ws[1], ws[3]))
      else (db, UNKNOWN)
    case 8 => if ws[0] == "HMSET" then HMSet(db, ws[1], ws[2..]) else (db, UNKNOWN)
    case _ => (db, UNKNOWN)
  }

  function ExecuteKey(sv: Server, db: Store, verb: string, k: string): (Store, Reply) {
    if verb == "LPOP" then LPop(db, k)
    else if verb == "DEL" then Del(db, k)
    else if verb == "DUMP" then (db, Dump(sv, db, k))
    else if verb == "EXISTS" then (db, Exists(db, k))
    else if verb == "HGETALL" then (db, HGetAll(sv, db, k))
    else (db, UNKNOWN)
  }

  function ExecuteFields(sv: Server, db: Store, verb: string, k: string, a: string, b: string): (Store, Reply) {
    if verb == "RESTORE" then (if a == "0" then Restore(sv, db, k, b) else (db, UNKNOWN))
    else if verb == "HSETNX" then HSetNx(db, k, a, b)
    else if verb == "HSET" then HSet(db, k, a, b)
    else if verb == "HINCRBY" then HIncrBy(db, k, a, b)
    else if verb == "HMGET" then (db, HMGet(db, k, [a, b]))
    else (db, UNKNOWN)
  }

  function ExecuteAll(sv: Server, db: Store, cmds: seq<seq<string>>): (Store, seq<Reply>)
    decreases |cmds|
  {
    if cmds == [] then (db, []) else
    var (after, reply) := Execute(sv, db, cmds[0]);
    var (end, replies) := ExecuteAll(sv, after, cmds[1..]);
    (end, [reply] + replies)
  }

  // ---------- connections ----------

  /** Between MULTI and EXEC, commands are queued. */
  datatype Conn = Direct | Multi(queue: seq<seq<string>>)

  datatype Served = Served(conn: Conn, db: Store, replies: seq<Reply>)

  function Serve(sv: Server, c: Conn, db: Store, ws: seq<string>): Served {
    if ws == ["MULTI"] then Served(Multi([]), db, [OK])
    else if ws == ["EXEC"] then
      (match c
       case Direct => Served(c, db, [Error("ERR EXEC without MULTI")])
       case Multi(queue) => var (after, replies) := ExecuteAll(sv, db, queue); Served(Direct, after, [Array(replies)]))
    else match c
      case Direct => var (after, reply) := Execute(sv, db, ws); Served(c, after, [reply])
      case Multi(queue) => Served(Multi(queue + [ws]), db, [Simple("QUEUED")])
  }

  /** Commands that arrive on one connection. */
  function ServeAll(sv: Server, c: Conn, db: Store, cmds: seq<seq<string>>): Served
    decreases |cmds|
  {
    if cmds == [] then Served(c, db, []) else
    var first := Serve(sv, c, db, cmds[0]);
    var rest := ServeAll(sv, first.conn, first.db, cmds[1..]);
    rest.(replies := first.replies + rest.replies)
  }
}
