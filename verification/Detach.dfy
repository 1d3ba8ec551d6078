/**
  Namespace detach: DELCHECK, then for a namespace that is to be deleted a SCAN on
  every connection, a DEL for every key that any SCAN returns, and at last the DEL
  of the namespace itself. All sub-requests share one in-flight counter; their
  replies arrive in any order.
 */
module Detach {
  import opened Definitions
  import opened RespSession
  import RespParser

  datatype Stage = DelCheck | Scan | DelKeys | DelNs

  /** A sub-request; `scankey` is the cursor of a SCAN and the key of a DEL. */
  datatype Request = Request(stage: Stage, conn: nat, scankey: string)

  /** request_stage_transition: a detach that does not delete skips to the last stage. */
  function NextStage(stage: Stage, toDelete: bool): Stage
    requires !stage.DelNs?
  {
    match stage
    case DelCheck => if toDelete then Scan else DelNs
    case Scan => DelKeys
    case DelKeys => DelNs
  }

  predicate Final(stage: Stage) {
    stage.DelNs?
  }

  // ---------- the decision ----------

  datatype Verdict = Delete | Keep | Refuse(rc: int)

  function ToInt(text: string): int {
    RespParser.ToInt32(RespParser.StrToL(text, 0).0)
  }

  /** nsdetach_check_delete: bit 0 for the reference count, bit 1 for the delete mark. */
  function CheckDelete(count: int, fields: seq<Content>): Verdict {
    if |fields| > 0 && !fields[0].CString? then Refuse(-EBADMSG)
    else if |fields| > 0 && (ToInt(fields[0].text) > 0 || RespParser.ToInt32(count) > 0) then Keep
    else if |fields| > 1 && !fields[1].CString? then Refuse(-EBADMSG)
    else if |fields| > 1 && ToInt(fields[1].text) % 2 == 0 then Keep
    else if exists i :: 2 <= i < |fields| && !fields[i].CString? then Refuse(-EBADMSG)
    else Delete
  }

  /** What the reply to MULTI/HINCRBY/HMGET/EXEC decides. */
  function Decide(result: Content): Verdict {
    if !result.CArray? then Refuse(-EBADMSG)
    else if |result.elems| != 2 then Refuse(-EINVAL)
    else if !result.elems[0].CInt? || !result.elems[1].CArray? then Refuse(-EPROTO)
    else if result.elems[0].n < 0 then Refuse(-EOVERFLOW)
    else CheckDelete(result.elems[0].n, result.elems[1].elems)
  }

  /** A reply of the transaction: the decremented count, and the fields of the namespace. */
  predicate Readable(result: Content) {
    && result.CArray? && |result.elems| == 2
    && result.elems[0].CInt? && result.elems[1].CArray? && result.elems[0].n >= 0
    && forall e | e in result.elems[1].elems :: e.CString?
  }

  /** Both counts that the reply gives, as far as it gives them, are not positive. */
  predicate Unreferenced(result: Content)
    requires Readable(result)
  {
    var fields := result.elems[1].elems;
    fields != [] && ToInt(fields[0].text) <= 0 && RespParser.ToInt32(result.elems[0].n) <= 0
  }

  predicate Marked(result: Content)
    requires Readable(result)
  {
    var fields := result.elems[1].elems;
    |fields| >= 2 && ToInt(fields[1].text) % 2 == 1
  }

  /**
    A namespace is deleted exactly if it is unreferenced and marked, or the reply does not say: no
    field at all, whatever the count; or an unreferenced namespace without a flags field.
   */
  lemma DeletedIff(result: Content)
    ensures Decide(result).Delete? <==> (Readable(result) &&
      var n := |result.elems[1].elems|;
      n == 0 || (Unreferenced(result) && (n == 1 || Marked(result))))
  {
    hide ToInt, RespParser.ToInt32;
    if result.CArray? && |result.elems| == 2 && result.elems[1].CArray? {
      var fields := result.elems[1].elems;
      assert (forall e | e in fields :: e.CString?) <==> forall i | 0 <= i < |fields| :: fields[i].CString?;
    }
  }

  /** A reply without fields deletes a namespace that is referenced and was never marked. */
  lemma UnmarkedIsDeleted()
    ensures var result := CArray([CInt(5), CArray([])]);
      Decide(result).Delete? && Readable(result) && !Unreferenced(result) && !Marked(result)
  {
    DeletedIff(CArray([CInt(5), CArray([])]));
  }

  // ---------- states ----------

  /**
    `flight` holds the sub-requests in the retry and posted queues, `sent` those that
    are posted. The rest records what has happened: the keys for which a DEL was
    queued, the DELs answered, the connections whose SCAN ended or failed, the
    completions, and the SCAN failures that came while other sub-requests were in flight.
   */
  datatype State = State(
    conns: seq<nat>,
    flight: map<nat, Request>, sent: set<nat>, next: nat,
    up: nat, down: nat,
    deleting: bool,
    deletes: map<nat, string>, answered: set<nat>,
    finished: set<nat>, failed: set<nat>,
    namespaceDeletes: nat,
    completions: seq<int>, early: nat)

  datatype Event =
    | Send(id: nat)                      // the sender posts a request from the retry queue
    | Requeue(id: nat)                   // CLUSTERDOWN: back to the retry queue as it is
    | Answer(id: nat, result: Content)

  function Init(conns: seq<nat>): State {
    State(conns, map[0 := Request(DelCheck, 0, "")], {}, 1, 0, 0, false, map[], {}, {}, {}, 0, [], 0)
  }

  function Without(s: State, id: nat): State {
    s.(flight := s.flight - {id}, sent := s.sent - {id})
  }

  function Complete(s: State, id: nat, rc: int): State {
    Without(s, id).(completions := s.completions + [rc])
  }

  function Replace(s: State, id: nat, r: Request): State {
    s.(flight := s.flight[id := r], sent := s.sent - {id})
  }

  /** A new request goes to the retry queue and is counted. */
  function Push(s: State, r: Request): State {
    s.(flight := s.flight[s.next := r], next := s.next + 1, up := s.up + 1)
  }

  /** The fan-out: one SCAN from cursor 0 for each connection. */
  function PushScans(s: State, conns: seq<nat>): State
    decreases |conns|
  {
    if conns == [] then s else PushScans(Push(s, Request(Scan, conns[0], "0")), conns[1..])
  }

  function PushKey(s: State, conn: nat, key: string): State {
    Push(s, Request(DelKeys, conn, key)).(deletes := s.deletes[s.next := key])
  }

  function PushKeys(s: State, conn: nat, keys: seq<string>): State
    decreases |keys|
  {
    if keys == [] then s else PushKeys(PushKey(s, conn, keys[0]), conn, keys[1..])
  }

  lemma {:induction false} PushKeysHolds(s: State, conn: nat, keys: seq<string>, id: nat)
    requires id in s.flight
    ensures id in PushKeys(s, conn, keys).flight
    decreases |keys|
  {
    if keys != [] {
      PushKeysHolds(PushKey(s, conn, keys[0]), conn, keys[1..], id);
    }
  }

  lemma {:induction false} PushKeysKeepsRequest(s: State, id: nat, conn: nat, keys: seq<string>)
    requires id in s.flight && id < s.next
    ensures var t := PushKeys(s, conn, keys); id in t.flight && t.flight[id] == s.flight[id]
    decreases |keys|
  {
    if keys != [] {
      PushKeysKeepsRequest(PushKey(s, conn, keys[0]), id, conn, keys[1..]);
    }
  }

  /** The keys in a SCAN reply; NULL entries are skipped. */
  function Strings(elems: seq<Content>): seq<string>
    decreases |elems|
  {
    if elems == [] then []
    else (if elems[0].CString? then [elems[0].text] else []) + Strings(elems[1..])
  }

  /** What Redis sends for a SCAN: a cursor and an array of strings. Anything that is no array of two is an error. */
  predicate ScanReply(result: Content) {
    && result.CArray? && |result.elems| == 2
    && result.elems[0].CString? && result.elems[1].CArray?
    && forall e | e in result.elems[1].elems :: e.CString? || e.CNull?
  }

  predicate Defined(s: State, e: Event) {
    match e
    case Send(id) => id in s.flight && id !in s.sent
    case Requeue(id) => id in s.flight && id in s.sent
    case Answer(id, result) =>
      && id in s.flight && id in s.sent
      && (s.flight[id].stage.Scan? && result.CArray? && |result.elems| == 2 ==> ScanReply(result))
      && (s.flight[id].stage.DelCheck? ==> FieldsPresent(result))
  }

  /** HMGET returns a value for both fields; a NULL would be read as a string. */
  predicate FieldsPresent(result: Content) {
    result.CArray? && |result.elems| == 2 && result.elems[1].CArray? ==> CNull !in result.elems[1].elems
  }

  function Step(s: State, e: Event): State
    requires Defined(s, e)
  {
    match e
    case Send(id) => s.(sent := s.sent + {id})
    case Requeue(id) => s.(sent := s.sent - {id})
    case Answer(id, result) =>
      match s.flight[id].stage
      case DelCheck => AnswerDelCheck(s, id, result)
      case Scan => AnswerScan(s, id, result)
      case DelKeys => AnswerDelKeys(s, id, result)
      case DelNs => Complete(s, id, if result == CInt(1) then 0 else -EEXIST)
  }

  function AnswerDelCheck(s: State, id: nat, result: Content): State {
    match Decide(result)
    case Refuse(rc) => Complete(s, id, rc)
    case Keep => Complete(s, id, 0)
    case Delete =>
      if s.conns == [] then Complete(s, id, -ENOTCONN)
      else PushScans(Without(s, id), s.conns).(deleting := true)
  }

  function AnswerScan(s: State, id: nat, result: Content): State
    requires id in s.flight
    requires result.CArray? && |result.elems| == 2 ==> ScanReply(result)
  {
    var conn := s.flight[id].conn;
    var s1 := s.(down := s.down + 1);
    if !result.CArray? || |result.elems| != 2 then
      ScanFailed(s1, id, conn)
    else
      var cursor, keys := result.elems[0].text, Strings(result.elems[1].elems);
      PushKeysHolds(s1, conn, keys, id);
      ScanFollowed(PushKeys(s1, conn, keys), id, cursor)
  }

  /** The SCAN is repeated with the new cursor, or the connection is done. */
  function ScanFollowed(s: State, id: nat, cursor: string): State
    requires id in s.flight
  {
    var conn := s.flight[id].conn;
    if RespParser.At(cursor, 0) != '0' then
      Replace(s, id, Request(Scan, conn, cursor)).(up := s.up + 1)
    else
      var t := s.(finished := s.finished + {conn});
      if t.up - t.down != 0 then Without(t, id) else QueueDelNs(t, id)
  }

  function ScanFailed(s: State, id: nat, conn: nat): State {
    var s1 := Complete(s, id, -EINVAL).(failed := s.failed + {conn});
    if s1.flight == map[] then s1 else s1.(early := s1.early + 1)
  }

  function AnswerDelKeys(s: State, id: nat, result: Content): State
    requires id in s.flight
  {
    var s1 := s.(down := s.down + 1, answered := s.answered + {id});
    if s1.up - s1.down != 0 then Without(s1, id)
    else if !result.CInt? then Complete(s1, id, -EBADMSG)
    else QueueDelNs(s1, id)
  }

  /** The last sub-request in flight goes on to delete the namespace. */
  function QueueDelNs(s: State, id: nat): State
    requires id in s.flight
  {
    Replace(s, id, Request(DelNs, s.flight[id].conn, "")).(namespaceDeletes := s.namespaceDeletes + 1)
  }

  // ---------- runs ----------

  /** The states of a run: any event that is possible may be next. */
  ghost predicate IsRun(conns: seq<nat>, states: seq<State>, events: seq<Event>) {
    && |states| == |events| + 1 && states[0] == Init(conns)
    && forall i {:trigger events[i]} :: 0 <= i < |events| ==>
         Defined(states[i], events[i]) && states[i + 1] == Step(states[i], events[i])
  }

  // ---------- what every step keeps ----------

  /** Before the decision there is only the DELCHECK. */
  ghost predicate Starting(s: State) {
    && (exists id :: s.flight.Keys == {id} && s.flight[id].stage.DelCheck?)
    && s.up == s.down && s.deletes == map[] && s.namespaceDeletes == 0 && s.completions == [] && s.early == 0
    && !s.deleting && s.finished == {} && s.failed == {}
  }

  /** While keys are collected: only SCANs and key DELs, at least one, and the counter counts them. */
  ghost predicate Collecting(s: State) {
    && s.deleting && s.flight != map[] && s.namespaceDeletes == 0 && |s.completions| == s.early
    && s.up - s.down == |s.flight|
    && (forall id | id in s.flight :: s.flight[id].stage.Scan? || s.flight[id].stage.DelKeys?)
    && Tracked(s)
  }

  /** Every connection is being scanned or done with, and every queued DEL is in flight or answered. */
  ghost predicate Tracked(s: State) {
    && (forall c | c in s.conns :: c in s.finished || c in s.failed || Scanned(s, c))
    && (forall id | id in s.deletes :: id in s.answered ||
          (id in s.flight && s.flight[id].stage.DelKeys?))
    && (forall id | id in s.flight && s.flight[id].stage.DelKeys? :: id in s.deletes && s.deletes[id] == s.flight[id].scankey)
  }

  ghost predicate Scanned(s: State, c: nat) {
    exists id :: id in s.flight && s.flight[id].stage.Scan? && s.flight[id].conn == c
  }

  /** The DEL of the namespace is the only request left, and everything before it is done. */
  ghost predicate Deleting(s: State) {
    && s.deleting && s.namespaceDeletes == 1 && |s.completions| == s.early && s.up == s.down
    && (exists id :: s.flight.Keys == {id} && s.flight[id].stage.DelNs?)
    && AllCollected(s)
  }

  ghost predicate AllCollected(s: State) {
    && (forall c | c in s.conns :: c in s.finished || c in s.failed)
    && s.deletes.Keys <= s.answered
  }

  ghost predicate Done(s: State) {
    && s.flight == map[] && |s.completions| == 1 + s.early && s.up == s.down
    && (s.namespaceDeletes == 0 || (s.deleting && s.namespaceDeletes == 1 && AllCollected(s)))
    && (!s.deleting ==> s.deletes == map[] && s.early == 0)
  }

  ghost predicate Inv(s: State) {
    && (forall id | id in s.flight :: id < s.next) && s.sent <= s.flight.Keys
    && (forall id | id in s.deletes :: id < s.next)
    && (s.failed == {} ==> s.early == 0)
    && (Starting(s) || Collecting(s) || Deleting(s) || Done(s))
  }

  lemma WithoutShrinks(s: State, id: nat)
    requires id in s.flight
    ensures |Without(s, id).flight| == |s.flight| - 1
  {
    assert Without(s, id).flight.Keys == s.flight.Keys - {id};
  }

  lemma OnlyOne(m: map<nat, Request>, id: nat)
    requires id in m && |m| == 1
    ensures m.Keys == {id}
  {
    assert |m.Keys - {id}| == 0;
    assert m.Keys == {id} + (m.Keys - {id});
  }

  lemma IdBelowNext(s: State, id: nat)
    requires Inv(s) && id in s.flight
    ensures id < s.next
  {
  }

  lemma InitInv(conns: seq<nat>)
    ensures Inv(Init(conns))
  {
    assert Init(conns).flight.Keys == {0};
  }

  lemma DelCheckKeepsInv(s: State, id: nat, result: Content)
    requires Inv(s) && id in s.flight && s.flight[id].stage.DelCheck?
    ensures Inv(AnswerDelCheck(s, id, result))
  {
    hide Decide;
    assert Starting(s) && s.flight.Keys == {id};
    assert Without(s, id).flight == map[];
    if Decide(result).Delete? && s.conns != [] {
      FanOutCollects(Without(s, id));
    }
  }

  /** `flight` holds one SCAN for each connection of `conns`, counted, and nothing else. */
  ghost predicate FannedOut(s: State, conns: seq<nat>) {
    && (forall i | i in s.flight :: i < s.next && s.flight[i].stage.Scan?) && s.sent == {}
    && s.up - s.down == |s.flight| >= |conns| && s.deletes == map[]
    && forall c | c in conns :: Scanned(s, c)
  }

  function History(s: State): (seq<nat>, bool, set<nat>, set<nat>, set<nat>, nat, seq<int>, nat) {
    (s.conns, s.deleting, s.answered, s.finished, s.failed, s.namespaceDeletes, s.completions, s.early)
  }

  lemma {:induction false} FanOut(s: State, done: seq<nat>, conns: seq<nat>)
    requires FannedOut(s, done)
    ensures FannedOut(PushScans(s, conns), done + conns)
    ensures History(PushScans(s, conns)) == History(s)
    decreases |conns|
  {
    if conns == [] {
      assert done + conns == done;
    } else {
      var after := Push(s, Request(Scan, conns[0], "0"));
      assert Scanned(after, conns[0]) by { assert after.flight[s.next].conn == conns[0]; }
      forall c | c in done ensures Scanned(after, c) {
        var i :| i in s.flight && s.flight[i].stage.Scan? && s.flight[i].conn == c;
        assert after.flight[i] == s.flight[i];
      }
      assert done + conns == (done + [conns[0]]) + conns[1..];
      FanOut(after, done + [conns[0]], conns[1..]);
    }
  }

  lemma FanOutCollects(s: State)
    requires s.flight == map[] && s.sent == {} && s.conns != [] && s.up == s.down && s.deletes == map[]
    requires s.namespaceDeletes == 0 && s.completions == [] && s.early == 0
    ensures Inv(PushScans(s, s.conns).(deleting := true))
  {
    hide PushScans;
    var pushed := PushScans(s, s.conns);
    var after := pushed.(deleting := true);
    FanOut(s, [], s.conns);
    assert [] + s.conns == s.conns;
    forall c | c in s.conns ensures Scanned(after, c) {
      var i :| i in pushed.flight && pushed.flight[i].stage.Scan? && pushed.flight[i].conn == c;
      assert after.flight[i] == pushed.flight[i];
    }
    assert |after.flight| > 0;
    assert Collecting(after);
  }

  lemma ScanFailedKeepsInv(s: State, id: nat)
    requires Inv(s) && Collecting(s) && id in s.flight && s.flight[id].stage.Scan?
    ensures Inv(ScanFailed(s.(down := s.down + 1), id, s.flight[id].conn))
  {
    var after := ScanFailed(s.(down := s.down + 1), id, s.flight[id].conn);
    WithoutShrinks(s, id);
    assert after.failed != {};
    if after.flight != map[] {
      forall c | c in s.conns && c !in after.finished && c !in after.failed ensures Scanned(after, c) {
        var i :| i in s.flight && s.flight[i].stage.Scan? && s.flight[i].conn == c;
        assert i in after.flight;
      }
    }
  }

  /** After the keys of a SCAN reply are queued: the SCAN itself is in flight but no longer counted. */
  ghost predicate Queued(s: State, id: nat) {
    && s.deleting && s.namespaceDeletes == 0 && |s.completions| == s.early && (s.failed == {} ==> s.early == 0)
    && id in s.flight && s.flight[id].stage.Scan?
    && s.up - s.down == |s.flight| - 1
    && (forall i | i in s.flight :: i < s.next) && s.sent <= s.flight.Keys
    && (forall i | i in s.deletes :: i < s.next)
    && (forall i | i in s.flight :: s.flight[i].stage.Scan? || s.flight[i].stage.DelKeys?)
    && Tracked(s)
  }

  lemma PushKeyQueued(s: State, id: nat, conn: nat, key: string)
    requires Queued(s, id)
    ensures Queued(PushKey(s, conn, key), id) && PushKey(s, conn, key).flight[id] == s.flight[id]
  {
    var after := PushKey(s, conn, key);
    assert s.next !in s.flight;
    forall c | c in s.conns && c !in s.finished && c !in s.failed ensures Scanned(after, c) {
      var i :| i in s.flight && s.flight[i].stage.Scan? && s.flight[i].conn == c;
      assert after.flight[i] == s.flight[i];
    }
  }

  lemma {:induction false} PushKeysQueued(s: State, id: nat, conn: nat, keys: seq<string>)
    requires Queued(s, id)
    ensures Queued(PushKeys(s, conn, keys), id) && PushKeys(s, conn, keys).flight[id] == s.flight[id]
    decreases |keys|
  {
    hide Queued, PushKey;
    if keys != [] {
      PushKeyQueued(s, id, conn, keys[0]);
      PushKeysQueued(PushKey(s, conn, keys[0]), id, conn, keys[1..]);
    }
  }

  lemma CountedDown(s: State, id: nat)
    requires Inv(s) && Collecting(s) && id in s.flight && s.flight[id].stage.Scan?
    ensures Queued(s.(down := s.down + 1), id)
  {
    assert forall c :: Scanned(s, c) ==> Scanned(s.(down := s.down + 1), c);
  }

  lemma ScanContinues(s: State, id: nat, cursor: string)
    requires Queued(s, id)
    ensures Inv(Replace(s, id, Request(Scan, s.flight[id].conn, cursor)).(up := s.up + 1))
  {
    var after := Replace(s, id, Request(Scan, s.flight[id].conn, cursor)).(up := s.up + 1);
    assert after.flight.Keys == s.flight.Keys && |after.flight.Keys| == |after.flight|;
    forall c | c in s.conns && c !in after.finished && c !in after.failed ensures Scanned(after, c) {
      var i :| i in s.flight && s.flight[i].stage.Scan? && s.flight[i].conn == c;
      assert i in after.flight && after.flight[i].stage.Scan? && after.flight[i].conn == c;
    }
  }

  lemma ScanEnds(s: State, id: nat)
    requires Queued(s, id) && |s.flight| > 1
    ensures Inv(Without(s.(finished := s.finished + {s.flight[id].conn}), id))
  {
    var after := Without(s.(finished := s.finished + {s.flight[id].conn}), id);
    WithoutShrinks(s, id);
    assert |after.flight| > 0;
    forall c | c in s.conns && c !in after.finished && c !in after.failed ensures Scanned(after, c) {
      var i :| i in s.flight && s.flight[i].stage.Scan? && s.flight[i].conn == c;
      assert i in after.flight;
    }
  }

  lemma ScanEndsLast(s: State, id: nat)
    requires Queued(s, id) && |s.flight| == 1
    ensures Inv(QueueDelNs(s.(finished := s.finished + {s.flight[id].conn}), id))
  {
    var after := QueueDelNs(s.(finished := s.finished + {s.flight[id].conn}), id);
    OnlyOne(s.flight, id);
    assert after.flight.Keys == {id};
    forall c | c in s.conns ensures c in after.finished || c in after.failed {
      assert Scanned(s, c) ==> c == s.flight[id].conn;
    }
  }

  lemma ScanKeepsInv(s: State, id: nat, result: Content)
    requires Inv(s) && Collecting(s) && id in s.flight && s.flight[id].stage.Scan?
    requires result.CArray? && |result.elems| == 2 ==> ScanReply(result)
    ensures Inv(AnswerScan(s, id, result))
  {
    hide Strings, PushKeys, ScanFailed, Tracked, QueueDelNs, Without, Replace, Inv, Collecting;
    if !result.CArray? || |result.elems| != 2 {
      ScanFailedKeepsInv(s, id);
    } else {
      var conn, keys := s.flight[id].conn, Strings(result.elems[1].elems);
      CountedDown(s, id);
      PushKeysQueued(s.(down := s.down + 1), id, conn, keys);
      var queued := PushKeys(s.(down := s.down + 1), conn, keys);
      var cursor := result.elems[0].text;
      if RespParser.At(cursor, 0) != '0' {
        ScanContinues(queued, id, cursor);
      } else if |queued.flight| == 1 {
        ScanEndsLast(queued, id);
      } else {
        ScanEnds(queued, id);
      }
    }
  }

  lemma DelKeysKeepsInv(s: State, id: nat, result: Content)
    requires Inv(s) && Collecting(s) && id in s.flight && s.flight[id].stage.DelKeys?
    ensures Inv(AnswerDelKeys(s, id, result))
  {
    var after := AnswerDelKeys(s, id, result);
    WithoutShrinks(s, id);
    if |s.flight| == 1 {
      OnlyOne(s.flight, id);
      assert QueueDelNs(s, id).flight.Keys == {id};
      assert forall c :: !Scanned(s, c);
    } else {
      forall c | c in s.conns && c !in after.finished && c !in after.failed ensures Scanned(after, c) {
        var i :| i in s.flight && s.flight[i].stage.Scan? && s.flight[i].conn == c;
        assert i in after.flight;
      }
    }
  }

  /** Every event, in any order of replies, keeps the invariant. */
  lemma StepKeepsInv(s: State, e: Event)
    requires Inv(s) && Defined(s, e)
    ensures Inv(Step(s, e))
  {
    match e
    case Send(id) =>
      SentChangesNothing(s, s.sent + {id});
    case Requeue(id) =>
      SentChangesNothing(s, s.sent - {id});
    case Answer(id, result) =>
      match s.flight[id].stage
      case DelCheck => DelCheckKeepsInv(s, id, result);
      case Scan => ScanKeepsInv(s, id, result);
      case DelKeys => DelKeysKeepsInv(s, id, result);
      case DelNs =>
        assert Deleting(s) && s.flight.Keys == {id};
        assert Step(s, e).flight == map[];
  }

  lemma SentChangesNothing(s: State, sent: set<nat>)
    requires Inv(s) && sent <= s.flight.Keys
    ensures Inv(s.(sent := sent))
  {
    var after := s.(sent := sent);
    if Collecting(s) {
      forall c | c in s.conns && c !in s.finished && c !in s.failed ensures Scanned(after, c) {
        assert Scanned(s, c);
        var i :| i in s.flight && s.flight[i].stage.Scan? && s.flight[i].conn == c;
        assert after.flight[i] == s.flight[i];
      }
    }
  }

  // ---------- whole runs ----------

  lemma {:induction false} RunKeepsInv(conns: seq<nat>, states: seq<State>, events: seq<Event>, n: nat)
    requires IsRun(conns, states, events) && n < |states|
    ensures Inv(states[n]) && states[n].conns == conns
  {
    if n == 0 {
      InitInv(conns);
    } else {
      RunKeepsInv(conns, states, events, n - 1);
      assert events[n - 1] == events[n - 1];
      StepKeepsInv(states[n - 1], events[n - 1]);
      StepRecords(states[n - 1], events[n - 1]);
    }
  }

  /** The sub-requests the shared counter is meant to count. */
  ghost function Counted(s: State): set<nat> {
    set id | id in s.flight && (s.flight[id].stage.Scan? || s.flight[id].stage.DelKeys?)
  }

  /** In every run the counter is exactly the number of SCANs and key DELs in flight. */
  lemma CounterIsExact(conns: seq<nat>, states: seq<State>, events: seq<Event>, n: nat)
    requires IsRun(conns, states, events) && n < |states|
    ensures states[n].up - states[n].down == |Counted(states[n])|
  {
    RunKeepsInv(conns, states, events, n);
    var s := states[n];
    if Collecting(s) {
      assert Counted(s) == s.flight.Keys;
    } else {
      assert Counted(s) == {};
    }
  }

  /** A SCAN is answered by something else than a scan reply while another sub-request is in flight. */
  predicate FailsEarly(s: State, e: Event) {
    && e.Answer? && e.id in s.flight && s.flight[e.id].stage.Scan? && !ScanReply(e.result)
    && |s.flight| > 1
  }

  function EarlyFailures(states: seq<State>, events: seq<Event>, n: nat): nat
    requires n <= |events| && n < |states|
  {
    if n == 0 then 0
    else EarlyFailures(states, events, n - 1) + if FailsEarly(states[n - 1], events[n - 1]) then 1 else 0
  }

  lemma {:induction false} PushKeysKeeps(s: State, conn: nat, keys: seq<string>)
    ensures History(PushKeys(s, conn, keys)) == History(s)
    decreases |keys|
  {
    if keys != [] {
      PushKeysKeeps(PushKey(s, conn, keys[0]), conn, keys[1..]);
    }
  }

  lemma StepCountsEarly(s: State, e: Event)
    requires Inv(s) && Defined(s, e)
    ensures Step(s, e).early == s.early + if FailsEarly(s, e) then 1 else 0
  {
    hide Decide, Strings, PushKeys, PushScans, Inv;
    if e.Answer? {
      match s.flight[e.id].stage
      case DelCheck => PushScansExtends(Without(s, e.id), s.conns);
      case Scan =>
        if ScanReply(e.result) {
          PushKeysKeeps(s.(down := s.down + 1), s.flight[e.id].conn, Strings(e.result.elems[1].elems));
        } else {
          WithoutShrinks(s, e.id);
        }
      case _ =>
    }
  }

  lemma {:induction false} EarlyIsCounted(conns: seq<nat>, states: seq<State>, events: seq<Event>, n: nat)
    requires IsRun(conns, states, events) && n < |states|
    ensures states[n].early == EarlyFailures(states, events, n)
  {
    hide Step, Inv, FailsEarly, Defined;
    if n > 0 {
      EarlyIsCounted(conns, states, events, n - 1);
      assert Defined(states[n - 1], events[n - 1]);
      RunKeepsInv(conns, states, events, n - 1);
      StepCountsEarly(states[n - 1], events[n - 1]);
    }
  }

  /**
    In every run: while sub-requests are in flight the request has completed once for every SCAN
    that failed early, and once none is in flight it has completed once more. So it completes
    exactly once if and only if no SCAN fails while another sub-request is in flight.
   */
  lemma CompletionsCounted(conns: seq<nat>, states: seq<State>, events: seq<Event>, n: nat)
    requires IsRun(conns, states, events) && n < |states|
    ensures |states[n].completions| == EarlyFailures(states, events, n) + if states[n].flight == map[] then 1 else 0
  {
    RunKeepsInv(conns, states, events, n);
    EarlyIsCounted(conns, states, events, n);
  }

  /** Histories only grow: connections, deleted keys and answers are never forgotten. */
  ghost predicate Extends(s: State, t: State) {
    && t.conns == s.conns
    && (forall d | d in s.deletes :: d in t.deletes && t.deletes[d] == s.deletes[d])
    && s.answered <= t.answered && s.finished <= t.finished && s.failed <= t.failed
    && s.namespaceDeletes <= t.namespaceDeletes
  }

  lemma {:induction false} PushKeysExtends(s: State, conn: nat, keys: seq<string>)
    requires forall d | d in s.deletes :: d < s.next
    ensures Extends(s, PushKeys(s, conn, keys)) && PushKeys(s, conn, keys).deleting == s.deleting
    ensures forall key | key in keys :: key in PushKeys(s, conn, keys).deletes.Values
    decreases |keys|
  {
    if keys != [] {
      var first := PushKey(s, conn, keys[0]);
      PushKeysExtends(first, conn, keys[1..]);
      var all := PushKeys(s, conn, keys);
      assert s.next in first.deletes && all.deletes[s.next] == keys[0];
      assert keys == [keys[0]] + keys[1..];
    }
  }

  lemma {:induction false} PushScansExtends(s: State, conns: seq<nat>)
    ensures Extends(s, PushScans(s, conns)) && History(PushScans(s, conns)) == History(s)
    decreases |conns|
  {
    if conns != [] {
      PushScansExtends(Push(s, Request(Scan, conns[0], "0")), conns[1..]);
    }
  }

  /** A step forgets nothing, and a SCAN reply leaves every key it returned among the queued DELs. */
  lemma StepRecords(s: State, e: Event)
    requires Inv(s) && Defined(s, e)
    ensures Extends(s, Step(s, e))
    ensures e.Answer? && s.flight[e.id].stage.Scan? && ScanReply(e.result) ==>
              forall key | key in Strings(e.result.elems[1].elems) :: key in Step(s, e).deletes.Values
    ensures !s.deleting && Step(s, e).deleting ==>
              e.Answer? && s.flight[e.id].stage.DelCheck? && Decide(e.result).Delete?
  {
    hide Inv, Decide, Strings, AnswerDelCheck, AnswerScan, Extends;
    DeletesBelow(s);
    if e.Answer? {
      match s.flight[e.id].stage
      case DelCheck => DelCheckRecords(s, e.id, e.result);
      case Scan => ScanRecords(s, e.id, e.result);
      case _ => LastRecords(s, e.id, e.result);
    } else {
      SameRecords(s, Step(s, e));
    }
  }

  lemma DeletesBelow(s: State)
    requires Inv(s)
    ensures forall d | d in s.deletes :: d < s.next
  {
    hide Starting, Deleting;
  }

  lemma SameRecords(s: State, t: State)
    requires t == s.(sent := t.sent)
    ensures Extends(s, t)
  {
  }

  lemma DelCheckRecords(s: State, id: nat, result: Content)
    ensures Extends(s, AnswerDelCheck(s, id, result))
    ensures !s.deleting && AnswerDelCheck(s, id, result).deleting ==> Decide(result).Delete?
  {
    hide Decide, PushScans;
    PushScansExtends(Without(s, id), s.conns);
  }

  lemma ScanRecords(s: State, id: nat, result: Content)
    requires id in s.flight && (result.CArray? && |result.elems| == 2 ==> ScanReply(result))
    requires forall d | d in s.deletes :: d < s.next
    ensures var t := AnswerScan(s, id, result);
      && Extends(s, t) && t.deleting == s.deleting
      && (ScanReply(result) ==> forall key | key in Strings(result.elems[1].elems) :: key in t.deletes.Values)
  {
    hide Strings, PushKeys;
    if ScanReply(result) {
      PushKeysExtends(s.(down := s.down + 1), s.flight[id].conn, Strings(result.elems[1].elems));
    }
  }

  lemma LastRecords(s: State, id: nat, result: Content)
    requires id in s.flight
    ensures Extends(s, AnswerDelKeys(s, id, result)) && AnswerDelKeys(s, id, result).deleting == s.deleting
    ensures forall rc :: Extends(s, Complete(s, id, rc)) && Complete(s, id, rc).deleting == s.deleting
  {
  }

  lemma {:induction false} RunExtends(conns: seq<nat>, states: seq<State>, events: seq<Event>, i: nat, n: nat)
    requires IsRun(conns, states, events) && i <= n < |states|
    ensures Extends(states[i], states[n])
    decreases n - i
  {
    if i < n {
      RunExtends(conns, states, events, i, n - 1);
      RunKeepsInv(conns, states, events, n - 1);
      assert events[n - 1] == events[n - 1];
      StepRecords(states[n - 1], events[n - 1]);
    }
  }

  /** Event `e` answers a SCAN on connection `c` with cursor 0, so the scan of `c` is complete. */
  predicate Ends(s: State, e: Event, c: nat) {
    && e.Answer? && e.id in s.flight && s.flight[e.id].stage.Scan? && s.flight[e.id].conn == c
    && ScanReply(e.result) && RespParser.At(e.result.elems[0].text, 0) == '0'
  }

  /** Event `e` answers a SCAN on connection `c` with something else than a scan reply. */
  predicate Fails(s: State, e: Event, c: nat) {
    && e.Answer? && e.id in s.flight && s.flight[e.id].stage.Scan? && s.flight[e.id].conn == c
    && !ScanReply(e.result)
  }

  /** Event `e` answers a SCAN, and `key` is in the answer. */
  predicate Returns(s: State, e: Event, key: string) {
    && e.Answer? && e.id in s.flight && s.flight[e.id].stage.Scan?
    && ScanReply(e.result) && key in Strings(e.result.elems[1].elems)
  }

  /** Event `e` answers the DEL of `key`. */
  predicate Deletes(s: State, e: Event, key: string) {
    e.Answer? && e.id in s.flight && s.flight[e.id].stage.DelKeys? && s.flight[e.id].scankey == key
  }

  lemma DelKeysTracked(s: State, id: nat)
    requires Inv(s) && id in s.flight && s.flight[id].stage.DelKeys?
    ensures id in s.deletes && s.deletes[id] == s.flight[id].scankey
  {
    assert Collecting(s);
  }

  /** What a step adds to the history is what its event says. */
  lemma StepIsTruthful(s: State, e: Event)
    requires Inv(s) && Defined(s, e)
    ensures forall c | c in Step(s, e).finished && c !in s.finished :: Ends(s, e, c)
    ensures forall c | c in Step(s, e).failed && c !in s.failed :: Fails(s, e, c)
    ensures forall d | d in Step(s, e).answered && d !in s.answered :: d in s.deletes && Deletes(s, e, s.deletes[d])
  {
    hide Decide, Strings, PushKeys, PushScans, Starting, Collecting, Deleting, Done;
    if e.Answer? {
      match s.flight[e.id].stage
      case DelCheck => PushScansExtends(Without(s, e.id), s.conns);
      case Scan =>
        if ScanReply(e.result) {
          var counted, conn, keys := s.(down := s.down + 1), s.flight[e.id].conn, Strings(e.result.elems[1].elems);
          PushKeysKeeps(counted, conn, keys);
          PushKeysKeepsRequest(counted, e.id, conn, keys);
        }
      case DelKeys => DelKeysTracked(s, e.id);
      case DelNs =>
    }
  }

  ghost predicate Truthful(states: seq<State>, events: seq<Event>, n: nat)
    requires |states| == |events| + 1 && n <= |events|
  {
    && (forall c | c in states[n].finished :: exists i | 0 <= i < n :: Ends(states[i], events[i], c))
    && (forall c | c in states[n].failed :: exists i | 0 <= i < n :: Fails(states[i], events[i], c))
    && (forall d | d in states[n].answered :: d in states[n].deletes
          && exists i | 0 <= i < n :: Deletes(states[i], events[i], states[n].deletes[d]))
  }

  lemma {:induction false} RunIsTruthful(conns: seq<nat>, states: seq<State>, events: seq<Event>, n: nat)
    requires IsRun(conns, states, events) && n < |states|
    ensures Truthful(states, events, n)
  {
    if n > 0 {
      var s, e, t := states[n - 1], events[n - 1], states[n];
      RunIsTruthful(conns, states, events, n - 1);
      RunKeepsInv(conns, states, events, n - 1);
      StepIsTruthful(s, e);
      StepRecords(s, e);
      hide Step, Inv, Ends, Fails, Deletes, Defined;
      forall c | c in t.finished ensures exists i | 0 <= i < n :: Ends(states[i], events[i], c) {
        assert c !in s.finished ==> Ends(states[n - 1], events[n - 1], c);
      }
      forall c | c in t.failed ensures exists i | 0 <= i < n :: Fails(states[i], events[i], c) {
        assert c !in s.failed ==> Fails(states[n - 1], events[n - 1], c);
      }
      forall d | d in t.answered
        ensures d in t.deletes && exists i | 0 <= i < n :: Deletes(states[i], events[i], t.deletes[d])
      {
        assert d !in s.answered ==> Deletes(states[n - 1], events[n - 1], t.deletes[d]);
      }
    }
  }

  lemma DeletedMeansCollected(s: State)
    requires Inv(s) && s.namespaceDeletes > 0
    ensures s.deleting && s.namespaceDeletes == 1 && AllCollected(s)
  {
  }

  /**
    When the DEL of the namespace has been queued, every connection's SCAN has returned cursor 0
    (or failed), and every key that any SCAN returned has had its DEL answered.
   */
  lemma NamespaceDeletedLast(conns: seq<nat>, states: seq<State>, events: seq<Event>, n: nat)
    requires IsRun(conns, states, events) && n < |states| && states[n].namespaceDeletes > 0
    ensures states[n].deleting && states[n].namespaceDeletes == 1
    ensures forall c | c in conns ::
              exists i | 0 <= i < n :: Ends(states[i], events[i], c) || Fails(states[i], events[i], c)
    ensures forall i, key | 0 <= i < n && Returns(states[i], events[i], key) ::
              exists j | 0 <= j < n :: Deletes(states[j], events[j], key)
  {
    hide Step, Inv, Ends, Fails, Deletes;
    RunKeepsInv(conns, states, events, n);
    RunIsTruthful(conns, states, events, n);
    DeletedMeansCollected(states[n]);
    forall i, key | 0 <= i < n && Returns(states[i], events[i], key)
      ensures exists j | 0 <= j < n :: Deletes(states[j], events[j], key)
    {
      RunKeepsInv(conns, states, events, i);
      StepRecords(states[i], events[i]);
      RunExtends(conns, states, events, i + 1, n);
      var d :| d in states[i + 1].deletes && states[i + 1].deletes[d] == key;
      assert d in states[n].answered && states[n].deletes[d] == key;
    }
  }

  /** Without a verdict to delete, no DEL of any kind is ever queued. */
  lemma {:induction false} KeepNeverDeletes(conns: seq<nat>, states: seq<State>, events: seq<Event>, n: nat)
    requires IsRun(conns, states, events) && n < |states|
    requires forall i | 0 <= i < n && events[i].Answer? :: !Decide(events[i].result).Delete?
    ensures !states[n].deleting && states[n].deletes == map[] && states[n].namespaceDeletes == 0
    ensures states[n].flight == map[] ==> |states[n].completions| == 1
  {
    RunKeepsInv(conns, states, events, n);
    if n > 0 {
      KeepNeverDeletes(conns, states, events, n - 1);
      RunKeepsInv(conns, states, events, n - 1);
      StepRecords(states[n - 1], events[n - 1]);
    }
  }

  // ---------- a request that completes twice ----------

  lemma DeleteVerdict(result: Content)
    requires result == CArray([CInt(0), CArray([CString("0"), CString("1")])])
    ensures Decide(result) == Delete
  {
    NumberReads('0', 0);
    NumberReads('1', 1);
  }

  lemma NumberReads(c: char, n: nat)
    requires '0' <= c <= '9' && n == c as int - '0' as int
    ensures ToInt([c]) == n
  {
    assert RespParser.SkipDigits([c], 1, n) == (n, 1);
  }

  lemma SingleState(conns: seq<nat>)
    ensures IsRun(conns, [Init(conns)], [])
  {
  }

  lemma RunGoesOn(conns: seq<nat>, states: seq<State>, events: seq<Event>, e: Event)
    requires IsRun(conns, states, events) && Defined(states[|events|], e)
    ensures IsRun(conns, states + [Step(states[|events|], e)], events + [e])
  {
    hide Step, Defined, Init;
  }

  /** The check of a detach over two connections is answered with the verdict to delete. */
  lemma TwoScansQueued(verdict: Content)
    requires verdict == CArray([CInt(0), CArray([CString("0"), CString("1")])])
    ensures Defined(Init([7, 8]), Send(0)) && Defined(Step(Init([7, 8]), Send(0)), Answer(0, verdict))
    ensures Step(Step(Init([7, 8]), Send(0)), Answer(0, verdict))
         == State([7, 8], map[1 := Request(Scan, 7, "0"), 2 := Request(Scan, 8, "0")], {}, 3,
                  2, 0, true, map[], {}, {}, {}, 0, [], 0)
  {
    DeleteVerdict(verdict);
    hide Decide;
    var s := Step(Init([7, 8]), Send(0));
    var a, b := Request(Scan, 7, "0"), Request(Scan, 8, "0");
    assert PushScans(Without(s, 0), [7, 8]) == Push(Push(Without(s, 0), a), b) by {
      assert [7, 8][1..] == [8] && [8][1..] == [];
    }
    assert Step(s, Answer(0, verdict)).flight == map[1 := a, 2 := b];
  }

  /** Two connections are being scanned. */
  lemma TwoScansPosted() returns (states: seq<State>, events: seq<Event>)
    ensures IsRun([7, 8], states, events)
    ensures states[|events|] == State([7, 8], map[1 := Request(Scan, 7, "0"), 2 := Request(Scan, 8, "0")], {1, 2}, 3,
                                      2, 0, true, map[], {}, {}, {}, 0, [], 0)
  {
    var verdict := CArray([CInt(0), CArray([CString("0"), CString("1")])]);
    TwoScansQueued(verdict);
    hide Decide, IsRun, AnswerDelCheck, Init;
    SingleState([7, 8]);
    var s0 := Init([7, 8]);
    var s1 := Step(s0, Send(0));
    var s2 := Step(s1, Answer(0, verdict));
    var s3 := Step(s2, Send(1));
    states, events := [s0], [];
    RunGoesOn([7, 8], states, events, Send(0));
    states, events := states + [s1], events + [Send(0)];
    RunGoesOn([7, 8], states, events, Answer(0, verdict));
    states, events := states + [s2], events + [Answer(0, verdict)];
    RunGoesOn([7, 8], states, events, Send(1));
    states, events := states + [s3], events + [Send(1)];
    RunGoesOn([7, 8], states, events, Send(2));
    states, events := states + [Step(s3, Send(2))], events + [Send(2)];
  }

  /** A SCAN error while the other connection is still being scanned completes the request a first time. */
  lemma EarlyFailureCompletesTwice() returns (states: seq<State>, events: seq<Event>)
    ensures IsRun([7, 8], states, events)
    ensures states[|events|].flight == map[] && states[|events|].completions == [-EINVAL, 0]
  {
    states, events := TwoScansPosted();
    var done := CArray([CString("0"), CArray([])]);
    var b := Request(Scan, 8, "0");
    var s4 := states[|events|];
    var s5 := Step(s4, Answer(1, CError("ERR")));
    assert s5.flight == map[2 := b];
    var s6 := Step(s5, Answer(2, done));
    assert Strings(done.elems[1].elems) == [];
    assert s6.flight == map[2 := Request(DelNs, 8, "")];
    var s7 := Step(s6, Send(2));
    var s8 := Step(s7, Answer(2, CInt(1)));
    assert s8.flight == map[];
    RunGoesOn([7, 8], states, events, Answer(1, CError("ERR")));
    states, events := states + [s5], events + [Answer(1, CError("ERR"))];
    RunGoesOn([7, 8], states, events, Answer(2, done));
    states, events := states + [s6], events + [Answer(2, done)];
    RunGoesOn([7, 8], states, events, Send(2));
    states, events := states + [s7], events + [Send(2)];
    RunGoesOn([7, 8], states, events, Answer(2, CInt(1)));
    states, events := states + [s8], events + [Answer(2, CInt(1))];
  }
}
