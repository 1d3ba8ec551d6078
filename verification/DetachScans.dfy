/** The scans of a detach: which cursor each carries, what has been scanned when the namespace goes, and what is reported. */
module DetachScans {
  import opened Definitions
  import opened RespSession
  import opened Detach
  import RespParser

  predicate Answers(e: Event, id: nat) {
    e.Answer? && e.id == id
  }

  /** The cursor that ends a scan. */
  predicate AtEnd(cursor: string) {
    RespParser.At(cursor, 0) == '0'
  }

  /** The cursor that the last answer to a sub-request gave; before any answer, the one that starts a scan. */
  function LastCursor(events: seq<Event>, n: nat, id: nat): string
    requires n <= |events|
  {
    if n == 0 then "0"
    else if Answers(events[n - 1], id) && ScanReply(events[n - 1].result) then events[n - 1].result.elems[0].text
    else LastCursor(events, n - 1, id)
  }

  // ---------- what a step does to a SCAN ----------

  lemma {:induction false} PushScansKeeps(s: State, conns: seq<nat>, id: nat)
    requires id in s.flight && id < s.next
    ensures var t := PushScans(s, conns); id in t.flight && t.flight[id] == s.flight[id]
    decreases |conns|
  {
    if conns != [] {
      PushScansKeeps(Push(s, Request(Scan, conns[0], "0")), conns[1..], id);
    }
  }

  lemma {:induction false} PushScansAdds(s: State, conns: seq<nat>, id: nat)
    ensures var t := PushScans(s, conns);
      t.next >= s.next && (id in t.flight && id < s.next ==> id in s.flight && t.flight[id] == s.flight[id])
    ensures var t := PushScans(s, conns); id in t.flight && id >= s.next && id !in s.flight ==> t.flight[id].scankey == "0"
    decreases |conns|
  {
    if conns != [] {
      PushScansAdds(Push(s, Request(Scan, conns[0], "0")), conns[1..], id);
      if id == s.next {
        PushScansKeeps(Push(s, Request(Scan, conns[0], "0")), conns[1..], id);
      }
    }
  }

  lemma {:induction false} PushScansFinds(s: State, conns: seq<nat>, c: nat) returns (id: nat)
    requires c in conns
    ensures var t := PushScans(s, conns); id >= s.next && id in t.flight && t.flight[id] == Request(Scan, c, "0")
    decreases |conns|
  {
    var after := Push(s, Request(Scan, conns[0], "0"));
    if c == conns[0] {
      id := s.next;
      PushScansKeeps(after, conns[1..], id);
    } else {
      id := PushScansFinds(after, conns[1..], c);
    }
  }

  lemma {:induction false} PushKeysAdds(s: State, conn: nat, keys: seq<string>, id: nat)
    ensures var t := PushKeys(s, conn, keys);
      t.next >= s.next && (id in t.flight && t.flight[id].stage.Scan? && id !in s.flight ==> id < s.next)
    ensures var t := PushKeys(s, conn, keys);
      id in t.flight && id < s.next ==> id in s.flight && t.flight[id] == s.flight[id]
    decreases |keys|
  {
    if keys != [] {
      PushKeysAdds(PushKey(s, conn, keys[0]), conn, keys[1..], id);
      if id == s.next {
        PushKeysKeepsRequest(PushKey(s, conn, keys[0]), id, conn, keys[1..]);
      }
    }
  }

  /** An event that is no answer to a sub-request leaves it as it is. */
  lemma OthersKeepScan(s: State, e: Event, id: nat)
    requires Inv(s) && Defined(s, e) && id in s.flight && !Answers(e, id)
    ensures id in Step(s, e).flight && Step(s, e).flight[id] == s.flight[id]
  {
    hide Decide, Strings, PushKeys, PushScans, Inv, ScanReply;
    IdBelowNext(s, id);
    if e.Answer? {
      match s.flight[e.id].stage
      case DelCheck => PushScansKeeps(Without(s, e.id), s.conns, id);
      case Scan =>
        IdBelowNext(s, e.id);
        OthersKeepAnswered(s, e.id, e.result, id);
      case _ =>
    }
  }

  lemma OthersKeepAnswered(s: State, scan: nat, result: Content, id: nat)
    requires id in s.flight && id < s.next && id != scan && scan in s.flight && scan < s.next
    requires result.CArray? && |result.elems| == 2 ==> ScanReply(result)
    ensures var t := AnswerScan(s, scan, result); id in t.flight && t.flight[id] == s.flight[id]
  {
    hide Strings, PushKeys;
    if result.CArray? && |result.elems| == 2 {
      PushKeysKeepsRequest(s.(down := s.down + 1), id, s.flight[scan].conn, Strings(result.elems[1].elems));
    }
  }

  /** An answer to a SCAN that does not end it repeats it with the cursor that came; any other ends it. */
  lemma AnswerMovesScan(s: State, id: nat, result: Content)
    requires id in s.flight && id < s.next && s.flight[id].stage.Scan?
    requires result.CArray? && |result.elems| == 2 ==> ScanReply(result)
    ensures var t := AnswerScan(s, id, result); var c := s.flight[id].conn;
      if !ScanReply(result) then id !in t.flight && c in t.failed
      else if AtEnd(result.elems[0].text) then !(id in t.flight && t.flight[id].stage.Scan?)
      else id in t.flight && t.flight[id] == Request(Scan, c, result.elems[0].text)
  {
    hide Strings, PushKeys;
    if ScanReply(result) {
      PushKeysKeepsRequest(s.(down := s.down + 1), id, s.flight[id].conn, Strings(result.elems[1].elems));
    }
  }

  /** A SCAN that was not in flight starts from cursor 0, as a sub-request of its own. */
  lemma NewScan(s: State, e: Event, id: nat)
    requires Inv(s) && Defined(s, e)
    requires id in Step(s, e).flight && Step(s, e).flight[id].stage.Scan? && !(id in s.flight && s.flight[id].stage.Scan?)
    ensures id >= s.next && Step(s, e).flight[id].scankey == "0"
  {
    hide Decide, Strings, PushKeys, PushScans, Inv, ScanReply;
    BelowNext(s);
    if e.Answer? {
      match s.flight[e.id].stage
      case DelCheck => PushScansAdds(Without(s, e.id), s.conns, id);
      case Scan => NoNewScan(s, e.id, e.result, id);
      case _ =>
    }
  }

  lemma BelowNext(s: State)
    requires Inv(s)
    ensures forall id | id in s.flight :: id < s.next
  {
  }

  lemma NoNewScan(s: State, scan: nat, result: Content, id: nat)
    requires scan in s.flight && s.flight[scan].stage.Scan? && forall i | i in s.flight :: i < s.next
    requires result.CArray? && |result.elems| == 2 ==> ScanReply(result)
    ensures var t := AnswerScan(s, scan, result);
      id in t.flight && t.flight[id].stage.Scan? ==> id in s.flight && s.flight[id].stage.Scan?
  {
    hide Strings, PushKeys;
    if ScanReply(result) {
      PushKeysAdds(s.(down := s.down + 1), s.flight[scan].conn, Strings(result.elems[1].elems), id);
    }
  }

  lemma NextGrows(s: State, e: Event)
    requires Inv(s) && Defined(s, e)
    ensures Step(s, e).next >= s.next
  {
    hide Decide, Strings, PushKeys, PushScans, Inv, ScanReply;
    if e.Answer? {
      match s.flight[e.id].stage
      case DelCheck => PushScansAdds(Without(s, e.id), s.conns, 0);
      case Scan => AnswerGrows(s, e.id, e.result);
      case _ =>
    }
  }

  lemma AnswerGrows(s: State, id: nat, result: Content)
    requires id in s.flight && (result.CArray? && |result.elems| == 2 ==> ScanReply(result))
    ensures AnswerScan(s, id, result).next >= s.next
  {
    hide Strings, PushKeys;
    if result.CArray? && |result.elems| == 2 {
      PushKeysAdds(s.(down := s.down + 1), s.flight[id].conn, Strings(result.elems[1].elems), 0);
    }
  }

  // ---------- cursors over whole runs ----------

  /** A sub-request that has not been queued yet has not been answered. */
  lemma {:induction false} Unasked(conns: seq<nat>, states: seq<State>, events: seq<Event>, n: nat, id: nat)
    requires IsRun(conns, states, events) && n < |states| && id >= states[n].next
    ensures LastCursor(events, n, id) == "0"
    ensures forall i | 0 <= i < n :: !Answers(events[i], id)
  {
    hide Step, Inv, Defined, ScanReply;
    if n > 0 {
      RunKeepsInv(conns, states, events, n - 1);
      assert Defined(states[n - 1], events[n - 1]);
      NextGrows(states[n - 1], events[n - 1]);
      AnsweredBelow(states[n - 1], events[n - 1]);
      Unasked(conns, states, events, n - 1, id);
    }
  }

  lemma AnsweredBelow(s: State, e: Event)
    requires Inv(s) && Defined(s, e)
    ensures e.Answer? ==> e.id < s.next
  {
  }

  lemma StepMovesCursor(s: State, e: Event, id: nat, last: string)
    requires Inv(s) && Defined(s, e) && id in s.flight && s.flight[id].stage.Scan? && s.flight[id].scankey == last
    ensures var t := Step(s, e); id in t.flight && t.flight[id].stage.Scan? ==>
      t.flight[id].scankey == if Answers(e, id) && ScanReply(e.result) then e.result.elems[0].text else last
  {
    hide AnswerScan, Inv;
    if Answers(e, id) {
      IdBelowNext(s, id);
      AnswerMovesScan(s, id, e.result);
    } else {
      OthersKeepScan(s, e, id);
    }
  }

  /**
    In every run, each SCAN in flight carries the cursor of the last answer to it, and "0" before any answer.
   */
  lemma {:induction false} CursorsFollowOn(conns: seq<nat>, states: seq<State>, events: seq<Event>, n: nat, id: nat)
    requires IsRun(conns, states, events) && n < |states|
    requires id in states[n].flight && states[n].flight[id].stage.Scan?
    ensures states[n].flight[id].scankey == LastCursor(events, n, id)
  {
    hide Step, Inv, Defined, ScanReply;
    if n > 0 {
      var s, e := states[n - 1], events[n - 1];
      RunKeepsInv(conns, states, events, n - 1);
      assert Defined(s, e);
      if id in s.flight && s.flight[id].stage.Scan? {
        CursorsFollowOn(conns, states, events, n - 1, id);
        StepMovesCursor(s, e, id, LastCursor(events, n - 1, id));
      } else {
        NewScan(s, e, id);
        Unasked(conns, states, events, n - 1, id);
        AnsweredBelow(s, e);
      }
    } else {
      NoScanAtFirst(conns, id);
    }
  }

  lemma NoScanAtFirst(conns: seq<nat>, id: nat)
    ensures !(id in Init(conns).flight && Init(conns).flight[id].stage.Scan?)
  {
  }

  // ---------- whole iterations ----------

  /** After n events, the SCAN of c is in flight as this sub-request, with the cursor of its last answer. */
  ghost predicate Asked(states: seq<State>, events: seq<Event>, n: nat, id: nat, c: nat)
    requires n < |states| && n <= |events|
  {
    id in states[n].flight && states[n].flight[id] == Request(Scan, c, LastCursor(events, n, id))
  }

  ghost predicate GoesOn(states: seq<State>, events: seq<Event>, i: nat, id: nat, c: nat)
    requires i < |states| && i < |events|
  {
    Answers(events[i], id) ==>
      Asked(states, events, i, id, c) && ScanReply(events[i].result) && !AtEnd(events[i].result.elems[0].text)
  }

  /** So far every answer to this sub-request gave a cursor, with which it was asked next. */
  ghost predicate Iterating(states: seq<State>, events: seq<Event>, n: nat, id: nat, c: nat)
    requires n < |states| && n <= |events|
  {
    Asked(states, events, n, id, c) && forall i :: 0 <= i < n ==> GoesOn(states, events, i, id, c)
  }

  /** Event k ends an unbroken iteration over connection c, from cursor 0 to cursor 0. */
  ghost predicate Iteration(states: seq<State>, events: seq<Event>, k: nat, id: nat, c: nat)
    requires k < |states| && k < |events|
  {
    Iterating(states, events, k, id, c) && Answers(events[k], id)
    && ScanReply(events[k].result) && AtEnd(events[k].result.elems[0].text)
  }

  lemma StepIterates(conns: seq<nat>, states: seq<State>, events: seq<Event>, n: nat, id: nat, c: nat)
    requires IsRun(conns, states, events) && n < |events| && Iterating(states, events, n, id, c)
    ensures Iterating(states, events, n + 1, id, c) || Iteration(states, events, n, id, c) || c in states[n + 1].failed
  {
    hide Inv, Defined, ScanReply, AtEnd, AnswerScan, AnswerDelCheck, AnswerDelKeys;
    var s, e := states[n], events[n];
    RunKeepsInv(conns, states, events, n);
    assert Defined(s, e) && states[n + 1] == Step(s, e);
    if !Answers(e, id) {
      OthersKeepScan(s, e, id);
    } else {
      IdBelowNext(s, id);
      WellAnswered(s, id, e.result);
      AnswerMovesScan(s, id, e.result);
    }
  }

  lemma WellAnswered(s: State, id: nat, result: Content)
    requires Defined(s, Answer(id, result)) && s.flight[id].stage.Scan?
    ensures result.CArray? && |result.elems| == 2 ==> ScanReply(result)
  {
  }

  ghost predicate Iterated(states: seq<State>, events: seq<Event>, n: nat, id: nat, c: nat)
    requires n < |states| && n <= |events|
  {
    exists k :: 0 <= k < n && Iteration(states, events, k, id, c)
  }

  /** From the verdict to delete on, each connection has failed, or is or was iterated over by a sub-request of its own. */
  lemma {:induction false} ConnectionIterated(conns: seq<nat>, states: seq<State>, events: seq<Event>, n: nat, c: nat) returns (id: nat)
    requires IsRun(conns, states, events) && n < |states| && states[n].deleting && c in conns
    ensures c in states[n].failed || Iterating(states, events, n, id, c) || Iterated(states, events, n, id, c)
  {
    hide Step, Inv, Iterating, Iteration, Defined;
    var s, e := states[n - 1], events[n - 1];
    RunKeepsInv(conns, states, events, n - 1);
    assert Defined(s, e);
    StepRecords(s, e);
    if s.deleting {
      id := ConnectionIterated(conns, states, events, n - 1, c);
      if Iterated(states, events, n - 1, id, c) {
        var k :| 0 <= k < n - 1 && Iteration(states, events, k, id, c);
      } else if c !in s.failed {
        StepIterates(conns, states, events, n - 1, id, c);
      }
    } else {
      RunKeepsConns(conns, states, events, n - 1);
      id := FanOutFinds(s, e, c);
      Unasked(conns, states, events, n - 1, id);
      StartsIterating(states, events, n, id, c);
    }
  }

  lemma {:induction false} RunKeepsConns(conns: seq<nat>, states: seq<State>, events: seq<Event>, n: nat)
    requires IsRun(conns, states, events) && n < |states|
    ensures states[n].conns == conns
  {
    RunExtends(conns, states, events, 0, n);
  }

  lemma FanOutFinds(s: State, e: Event, c: nat) returns (id: nat)
    requires Inv(s) && Defined(s, e) && !s.deleting && Step(s, e).deleting && c in s.conns
    ensures id >= s.next && id in Step(s, e).flight && Step(s, e).flight[id] == Request(Scan, c, "0")
    ensures !Answers(e, id)
  {
    hide Decide, PushScans, Inv, ScanReply, Strings;
    StepRecords(s, e);
    id := PushScansFinds(Without(s, e.id), s.conns, c);
    AnsweredBelow(s, e);
  }

  lemma StartsIterating(states: seq<State>, events: seq<Event>, n: nat, id: nat, c: nat)
    requires 0 < n < |states| && n <= |events| && id in states[n].flight && states[n].flight[id] == Request(Scan, c, "0")
    requires LastCursor(events, n - 1, id) == "0" && !Answers(events[n - 1], id)
    requires forall i | 0 <= i < n - 1 :: !Answers(events[i], id)
    ensures Iterating(states, events, n, id, c)
  {
    hide ScanReply;
  }

  lemma NoScanLeft(s: State)
    requires Inv(s) && s.namespaceDeletes > 0
    ensures forall id | id in s.flight :: !s.flight[id].stage.Scan?
  {
  }

  /**
    When the DEL of the namespace has been queued, every connection has been scanned in one unbroken
    iteration, from cursor 0 to cursor 0, unless its scan failed.
   */
  lemma NamespaceScanned(conns: seq<nat>, states: seq<State>, events: seq<Event>, n: nat, c: nat)
    requires IsRun(conns, states, events) && n < |states| && states[n].namespaceDeletes > 0 && c in conns
    ensures (exists i :: 0 <= i < n && Fails(states[i], events[i], c)) || exists id :: Iterated(states, events, n, id, c)
  {
    hide Step, Inv, Iterated, Iteration, Defined, Fails;
    RunKeepsInv(conns, states, events, n);
    DeletedMeansCollected(states[n]);
    NoScanLeft(states[n]);
    var id := ConnectionIterated(conns, states, events, n, c);
    if c in states[n].failed {
      RunIsTruthful(conns, states, events, n);
    }
  }

  // ---------- which keys are deleted ----------

  /** The keys of a reply are its strings. */
  lemma {:induction false} StringsIff(elems: seq<Content>, key: string)
    ensures key in Strings(elems) <==> CString(key) in elems
    decreases |elems|
  {
    if elems != [] {
      StringsIff(elems[1..], key);
      assert elems == [elems[0]] + elems[1..];
    }
  }

  lemma {:induction false} PushKeysOnly(s: State, conn: nat, keys: seq<string>, d: nat)
    ensures var t := PushKeys(s, conn, keys); d in t.deletes ==> (d in s.deletes && t.deletes[d] == s.deletes[d]) || t.deletes[d] in keys
    decreases |keys|
  {
    if keys != [] {
      PushKeysOnly(PushKey(s, conn, keys[0]), conn, keys[1..], d);
      assert keys == [keys[0]] + keys[1..];
    }
  }

  lemma {:induction false} PushScansNone(s: State, conns: seq<nat>)
    ensures PushScans(s, conns).deletes == s.deletes
    decreases |conns|
  {
    if conns != [] {
      PushScansNone(Push(s, Request(Scan, conns[0], "0")), conns[1..]);
    }
  }

  lemma StepDeletes(s: State, e: Event, d: nat)
    requires Defined(s, e) && d in Step(s, e).deletes
    ensures (d in s.deletes && Step(s, e).deletes[d] == s.deletes[d]) || Returns(s, e, Step(s, e).deletes[d])
  {
    hide Decide, Strings, PushKeys, PushScans;
    if e.Answer? {
      match s.flight[e.id].stage
      case DelCheck => PushScansNone(Without(s, e.id), s.conns);
      case Scan =>
        if ScanReply(e.result) {
          PushKeysOnly(s.(down := s.down + 1), s.flight[e.id].conn, Strings(e.result.elems[1].elems), d);
        }
      case _ =>
    }
  }

  /** No key is ever deleted that no SCAN of the run returned. */
  lemma {:induction false} OnlyReturnedAreDeleted(conns: seq<nat>, states: seq<State>, events: seq<Event>, n: nat, d: nat)
    requires IsRun(conns, states, events) && n < |states| && d in states[n].deletes
    ensures exists i :: 0 <= i < n && Returns(states[i], events[i], states[n].deletes[d])
  {
    hide Step, Defined, Returns;
    var s, e := states[n - 1], events[n - 1];
    assert Defined(s, e);
    StepDeletes(s, e, d);
    if d in s.deletes && states[n].deletes[d] == s.deletes[d] {
      OnlyReturnedAreDeleted(conns, states, events, n - 1, d);
      var i :| 0 <= i < n - 1 && Returns(states[i], events[i], s.deletes[d]);
    }
  }

  // ---------- the verdict ----------

  /** The shape that the reply to the transaction must have. */
  predicate Shaped(result: Content) {
    && result.CArray? && |result.elems| == 2
    && result.elems[0].CInt? && result.elems[1].CArray? && result.elems[0].n >= 0
  }

  /** The first field, or the decremented count, says that others use the namespace. */
  predicate InUse(result: Content)
    requires Shaped(result)
  {
    var fields := result.elems[1].elems;
    fields != [] && fields[0].CString? && (ToInt(fields[0].text) > 0 || RespParser.ToInt32(result.elems[0].n) > 0)
  }

  /** The second field says that the namespace was not marked. */
  predicate NotMarked(result: Content)
    requires Shaped(result)
  {
    var fields := result.elems[1].elems;
    |fields| > 1 && fields[0].CString? && fields[1].CString? && ToInt(fields[1].text) % 2 == 0
  }

  /** No array at all, or a field that is needed for the verdict is no string. */
  ghost predicate Unreadable(result: Content) {
    || !result.CArray?
    || (&& Shaped(result) && !InUse(result) && !NotMarked(result)
        && exists e :: e in result.elems[1].elems && !e.CString?)
  }

  /** When a namespace is kept, and which error each malformed reply gives. */
  lemma VerdictIff(result: Content)
    ensures Decide(result).Keep? <==> Shaped(result) && (InUse(result) || NotMarked(result))
    ensures Decide(result) == Refuse(0 - EINVAL) <==> result.CArray? && |result.elems| != 2
    ensures Decide(result) == Refuse(0 - EPROTO) <==>
      result.CArray? && |result.elems| == 2 && !(result.elems[0].CInt? && result.elems[1].CArray?)
    ensures Decide(result) == Refuse(0 - EOVERFLOW) <==>
      result.CArray? && |result.elems| == 2 && result.elems[0].CInt? && result.elems[1].CArray? && result.elems[0].n < 0
    ensures Decide(result) == Refuse(0 - EBADMSG) <==> Unreadable(result)
  {
    hide ToInt, RespParser.ToInt32;
    if Shaped(result) {
      var fields := result.elems[1].elems;
      assert (exists e :: e in fields && !e.CString?) <==> exists i :: 0 <= i < |fields| && !fields[i].CString?;
    }
  }

  // ---------- what is reported ----------

  /** The code with which an event completes the request, if it does. */
  predicate Reports(s: State, e: Event, code: int) {
    && e.Answer? && e.id in s.flight
    && match s.flight[e.id].stage
       case DelCheck =>
         var verdict := Decide(e.result);
         || (verdict.Keep? && code == 0)
         || (verdict.Delete? && s.conns == [] && code == 0 - ENOTCONN)
         || (verdict.Refuse? && code == verdict.rc)
       case Scan => !ScanReply(e.result) && code == 0 - EINVAL
       case DelKeys => !e.result.CInt? && s.flight.Keys == {e.id} && code == 0 - EBADMSG
       case DelNs => code == if e.result == CInt(1) then 0 else 0 - EEXIST
  }

  lemma LastKey(s: State, id: nat)
    requires Inv(s) && id in s.flight && s.flight[id].stage.DelKeys? && s.up - (s.down + 1) == 0
    ensures s.flight.Keys == {id}
  {
    assert Collecting(s);
    OnlyOne(s.flight, id);
  }

  lemma StepReports(s: State, e: Event)
    requires Inv(s) && Defined(s, e)
    ensures var t := Step(s, e);
      t.completions == s.completions || (exists code :: Reports(s, e, code) && t.completions == s.completions + [code])
  {
    hide Inv, Decide, Strings, PushKeys, PushScans, ScanReply;
    if e.Answer? {
      match s.flight[e.id].stage
      case DelCheck => VerdictReports(s, e.id, e.result);
      case Scan => ScanReports(s, e.id, e.result);
      case DelKeys => KeyReports(s, e.id, e.result);
      case DelNs => assert Reports(s, e, if e.result == CInt(1) then 0 else 0 - EEXIST);
    }
  }

  lemma VerdictReports(s: State, id: nat, result: Content)
    requires id in s.flight && s.flight[id].stage.DelCheck?
    ensures var t := AnswerDelCheck(s, id, result);
      || t.completions == s.completions
      || (exists code :: Reports(s, Answer(id, result), code) && t.completions == s.completions + [code])
  {
    hide Decide, PushScans;
    match Decide(result)
    case Refuse(rc) => assert Reports(s, Answer(id, result), rc);
    case Keep => assert Reports(s, Answer(id, result), 0);
    case Delete =>
      if s.conns == [] {
        assert Reports(s, Answer(id, result), 0 - ENOTCONN);
      } else {
        PushScansExtends(Without(s, id), s.conns);
      }
  }

  lemma ScanReports(s: State, id: nat, result: Content)
    requires id in s.flight && s.flight[id].stage.Scan? && (result.CArray? && |result.elems| == 2 ==> ScanReply(result))
    ensures var t := AnswerScan(s, id, result);
      || t.completions == s.completions
      || (exists code :: Reports(s, Answer(id, result), code) && t.completions == s.completions + [code])
  {
    hide Strings, PushKeys;
    if ScanReply(result) {
      PushKeysKeeps(s.(down := s.down + 1), s.flight[id].conn, Strings(result.elems[1].elems));
    } else {
      assert Reports(s, Answer(id, result), 0 - EINVAL);
    }
  }

  lemma KeyReports(s: State, id: nat, result: Content)
    requires Inv(s) && id in s.flight && s.flight[id].stage.DelKeys?
    ensures var t := AnswerDelKeys(s, id, result);
      || t.completions == s.completions
      || (exists code :: Reports(s, Answer(id, result), code) && t.completions == s.completions + [code])
  {
    hide Inv;
    if s.up - (s.down + 1) == 0 && !result.CInt? {
      LastKey(s, id);
      assert Reports(s, Answer(id, result), 0 - EBADMSG);
    }
  }

  ghost predicate Reported(states: seq<State>, events: seq<Event>, n: nat, code: int)
    requires n < |states| && n <= |events|
  {
    exists i :: 0 <= i < n && Reports(states[i], events[i], code)
  }

  /** Every completion of every run has the code that some answer of the run calls for. */
  lemma {:induction false} CompletionsReported(conns: seq<nat>, states: seq<State>, events: seq<Event>, n: nat, j: nat)
    requires IsRun(conns, states, events) && n < |states| && j < |states[n].completions|
    ensures Reported(states, events, n, states[n].completions[j])
  {
    hide Step, Inv, Defined, Reports;
    var s, e := states[n - 1], events[n - 1];
    RunKeepsInv(conns, states, events, n - 1);
    assert Defined(s, e);
    StepReports(s, e);
    if j < |s.completions| {
      CompletionsReported(conns, states, events, n - 1, j);
      var i :| 0 <= i < n - 1 && Reports(states[i], events[i], s.completions[j]);
    } else {
      assert Reports(s, e, states[n].completions[j]);
    }
  }

  predicate KeptOrDeleted(s: State, e: Event) {
    && e.Answer? && e.id in s.flight
    && match s.flight[e.id].stage
       case DelCheck => Shaped(e.result) && (InUse(e.result) || NotMarked(e.result))
       case DelNs => e.result == CInt(1)
       case _ => false
  }

  /** Success is reported only for a namespace that was kept, or whose DEL was answered with 1. */
  lemma SuccessMeans(conns: seq<nat>, states: seq<State>, events: seq<Event>, n: nat)
    requires IsRun(conns, states, events) && n < |states| && 0 in states[n].completions
    ensures exists i :: 0 <= i < n && KeptOrDeleted(states[i], events[i])
  {
    hide IsRun, Decide, InUse, NotMarked, Shaped, ScanReply;
    var j :| 0 <= j < |states[n].completions| && states[n].completions[j] == 0;
    RunBounds(conns, states, events);
    CompletionsReported(conns, states, events, n, j);
    var i :| 0 <= i < n && Reports(states[i], events[i], 0);
    VerdictIff(events[i].result);
    RefusalIsNegative(events[i].result);
  }

  lemma RunBounds(conns: seq<nat>, states: seq<State>, events: seq<Event>)
    requires IsRun(conns, states, events)
    ensures |states| == |events| + 1
  {
  }

  lemma RefusalIsNegative(result: Content)
    ensures Decide(result).Refuse? ==> Decide(result).rc < 0
  {
  }
}
