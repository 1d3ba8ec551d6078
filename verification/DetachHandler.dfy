/**
  process_nsdetach and the receiver's handling of its outcome, as they update the
  queues and the shared counter.
 */
module DetachHandler {
  import opened Definitions
  import opened Detach
  import opened RespSession
  import RespParser

  class Handler {
    const conns: seq<nat>
    var flight: map<nat, Request>
    var sent: set<nat>
    var next: nat
    var up: nat
    var down: nat
    var completions: seq<int>

    // what has happened, for the specification only
    ghost var deleting: bool
    ghost var deletes: map<nat, string>
    ghost var answered: set<nat>
    ghost var finished: set<nat>
    ghost var failed: set<nat>
    ghost var namespaceDeletes: nat
    ghost var early: nat

    ghost function Now(): State
      reads this
    {
      State(conns, flight, sent, next, up, down, deleting, deletes, answered, finished, failed,
            namespaceDeletes, completions, early)
    }

    constructor (connections: seq<nat>)
      ensures conns == connections && Now() == Init(connections) && Inv(Now())
    {
      InitInv(connections);
      conns := connections;
      flight, sent, next := map[0 := Request(DelCheck, 0, "")], {}, 1;
      up, down, completions := 0, 0, [];
      deleting, deletes, answered, finished, failed := false, map[], {}, {}, {};
      namespaceDeletes, early := 0, 0;
    }

    method Post(id: nat)
      requires Inv(Now()) && id in flight && id !in sent
      modifies this`sent
      ensures Now() == Step(old(Now()), Send(id)) && Inv(Now())
    {
      StepKeepsInv(Now(), Send(id));
      sent := sent + {id};
    }

    /** queue push, and the counter goes up */
    method Push(r: Request)
      modifies this`flight, this`next, this`up
      ensures Now() == Detach.Push(old(Now()), r)
    {
      flight, next, up := flight[next := r], next + 1, up + 1;
    }

    /** Handles one reply: the stage's own processing, then the receiver's requeueing or completion. */
    method Receive(id: nat, result: Content)
      requires Inv(Now()) && Defined(Now(), Answer(id, result))
      modifies this
      ensures Now() == Step(old(Now()), Answer(id, result)) && Inv(Now())
    {
      IdBelowNext(Now(), id);
      hide Inv, Decide, AnswerDelCheck, AnswerScan, AnswerDelKeys;
      var request, rc, fate := flight[id], 0, Survives;
      match request.stage {
        case DelCheck => rc, request, fate := ProcessDelCheck(id, result);
        case Scan => rc, request, fate := ProcessScan(id, result);
        case DelKeys => rc, request, fate := ProcessDelKeys(id, result);
        case DelNs => rc := if result == CInt(1) then 0 else -EEXIST;
      }
      Conclude(id, request, rc, fate);
      StepKeepsInv(old(Now()), Answer(id, result));
    }

    /** The receiver's part: requeue in the next stage, or complete. */
    method Conclude(id: nat, request: Request, rc: int, fate: Fate)
      modifies this`flight, this`sent, this`completions, this`namespaceDeletes
      ensures Now() == Finish(old(Now()), id, request, rc, fate)
    {
      if fate.Destroyed? {
        flight, sent := flight - {id}, sent - {id};
      } else if fate.Survives? {
        if rc >= 0 && !Final(request.stage) {
          var requeued := request.(stage := NextStage(request.stage, true));
          flight, sent := flight[id := requeued], sent - {id};
          if requeued.stage.DelNs? {
            namespaceDeletes := namespaceDeletes + 1;
          }
        } else {
          flight, sent, completions := flight - {id}, sent - {id}, completions + [rc];
        }
      }
    }

    method ProcessDelCheck(id: nat, result: Content) returns (rc: int, request: Request, fate: Fate)
      requires id in flight && flight[id].stage.DelCheck?
      modifies this
      ensures Finish(Now(), id, request, rc, fate) == AnswerDelCheck(old(Now()), id, result)
    {
      rc, request, fate := 0, flight[id], Survives;
      var verdict := Judge(result);
      RefusalIsNegative(result);
      hide Decide;
      if verdict.Refuse? {
        rc := verdict.rc;
      } else if verdict.Keep? {
        request := request.(stage := NextStage(request.stage, false));
      } else if conns == [] {
        rc := -ENOTCONN;
      } else {
        hide PushScans;
        flight, sent, fate := flight - {id}, sent - {id}, Requeued;
        ghost var start := Now();
        var i := 0;
        while i < |conns|
          invariant 0 <= i <= |conns|
          invariant PushScans(start, conns) == PushScans(Now(), conns[i..])
        {
          PushScansStep(Now(), conns[i..]);
          assert conns[i..][1..] == conns[i + 1..];
          Push(Request(NextStage(DelCheck, true), conns[i], "0"));
          i := i + 1;
        }
        PushScansStep(Now(), conns[i..]);
        deleting := true;
      }
    }

    method Judge(result: Content) returns (verdict: Verdict)
      ensures verdict == Decide(result)
    {
      if !result.CArray? {
        return Refuse(-EBADMSG);
      } else if |result.elems| != 2 {
        return Refuse(-EINVAL);
      } else if !result.elems[0].CInt? || !result.elems[1].CArray? {
        return Refuse(-EPROTO);
      } else if result.elems[0].n < 0 {
        return Refuse(-EOVERFLOW);
      }
      var count, fields := result.elems[0].n, result.elems[1].elems;
      // both must stay set for the namespace to be deleted
      var unreferenced, marked, n := true, true, 0;
      while n < |fields| && unreferenced && marked
        invariant 0 <= n <= |fields|
        invariant forall i | 0 <= i < n :: fields[i].CString?
        invariant n == 0 ==> unreferenced && marked
        invariant n > 0 ==> unreferenced == !(ToInt(fields[0].text) > 0 || RespParser.ToInt32(count) > 0)
        invariant n > 1 ==> unreferenced && marked == (ToInt(fields[1].text) % 2 != 0)
        invariant n == 1 ==> marked
      {
        if !fields[n].CString? {
          return Refuse(-EBADMSG);
        }
        if n == 0 {
          if ToInt(fields[n].text) > 0 || RespParser.ToInt32(count) > 0 {
            unreferenced := false;
          }
        } else if n == 1 {
          if ToInt(fields[n].text) % 2 == 0 {
            marked := false;
          }
        }
        n := n + 1;
      }
      return if unreferenced && marked then Delete else Keep;
    }

    method ProcessScan(id: nat, result: Content) returns (rc: int, request: Request, fate: Fate)
      requires id in flight && id < next && flight[id].stage.Scan?
      requires result.CArray? && |result.elems| == 2 ==> ScanReply(result)
      modifies this
      ensures Finish(Now(), id, request, rc, fate) == AnswerScan(old(Now()), id, result)
    {
      hide PushKeys, Strings, ScanFailed, ScanFollowed, Finish;
      rc, request, fate := 0, flight[id].(scankey := ""), Survives;
      down := down + 1;
      if !result.CArray? || |result.elems| != 2 {
        rc := FailScan(id, request);
        return;
      }
      PushKeysKeepsRequest(Now(), id, request.conn, Strings(result.elems[1].elems));
      QueueKeys(request.conn, result.elems[1].elems);
      request, fate := FollowCursor(id, result.elems[0].text);
    }

    method FailScan(id: nat, request: Request) returns (rc: int)
      requires id in flight && request.stage.Scan?
      modifies this`failed, this`early
      ensures Finish(Now(), id, request, rc, Survives) == ScanFailed(old(Now()), id, request.conn)
    {
      rc := -EINVAL;
      failed := failed + {request.conn};
      if flight - {id} != map[] {
        early := early + 1;
      }
    }

    /** Repeats the SCAN from a new cursor, or is done with this connection. */
    method FollowCursor(id: nat, cursor: string) returns (request: Request, fate: Fate)
      requires id in flight && flight[id].stage.Scan?
      modifies this`flight, this`sent, this`up, this`finished
      ensures Finish(Now(), id, request, 0, fate) == ScanFollowed(old(Now()), id, cursor)
    {
      request, fate := flight[id].(scankey := ""), Survives;
      if RespParser.At(cursor, 0) != '0' {
        flight, sent, up := flight[id := request.(scankey := cursor)], sent - {id}, up + 1;
        fate := Requeued;
      } else {
        finished := finished + {request.conn};
        if up - down != 0 {
          fate := Destroyed;
        } else {
          request := request.(stage := NextStage(request.stage, true));
        }
      }
    }

    /** A DEL for every key that was returned. */
    method QueueKeys(conn: nat, elems: seq<Content>)
      modifies this`flight, this`next, this`up, this`deletes
      ensures Now() == PushKeys(old(Now()), conn, Strings(elems))
    {
      hide PushKeys, Strings;
      var n := 0;
      while n < |elems|
        invariant 0 <= n <= |elems|
        invariant PushKeys(old(Now()), conn, Strings(elems)) == PushKeys(Now(), conn, Strings(elems[n..]))
      {
        StringsStep(elems[n..]);
        assert elems[n..][1..] == elems[n + 1..];
        if elems[n].CString? {
          ghost var keys := Strings(elems[n..]);
          PushKeysStep(Now(), conn, keys);
          assert keys[1..] == Strings(elems[n + 1..]);
          Push(Request(NextStage(Scan, true), conn, elems[n].text));
          deletes := deletes[next - 1 := elems[n].text];
        } else {
          assert [] + Strings(elems[n + 1..]) == Strings(elems[n + 1..]);
        }
        n := n + 1;
      }
      StringsStep(elems[n..]);
      PushKeysStep(Now(), conn, []);
    }

    method ProcessDelKeys(id: nat, result: Content) returns (rc: int, request: Request, fate: Fate)
      requires id in flight && flight[id].stage.DelKeys?
      modifies this`down, this`answered
      ensures Finish(Now(), id, request, rc, fate) == AnswerDelKeys(old(Now()), id, result)
    {
      rc, request, fate := if result.CInt? then 0 else -EBADMSG, flight[id].(scankey := ""), Survives;
      down, answered := down + 1, answered + {id};
      if up - down != 0 {
        fate := Destroyed;
      }
    }
  }

  /** What processing leaves of the sub-request: dropped, already back in a queue, or for the receiver to go on with. */
  datatype Fate = Destroyed | Requeued | Survives

  /** The receiver after the stage's processing: requeue in the next stage, or complete. */
  function Finish(s: State, id: nat, request: Request, rc: int, fate: Fate): State {
    if fate.Destroyed? then Without(s, id)
    else if fate.Requeued? then s
    else if rc >= 0 && !Final(request.stage) then
      var r := request.(stage := NextStage(request.stage, true));
      Replace(s, id, r).(namespaceDeletes := s.namespaceDeletes + if r.stage.DelNs? then 1 else 0)
    else Complete(s, id, rc)
  }

  lemma RefusalIsNegative(result: Content)
    ensures Decide(result).Refuse? ==> Decide(result).rc < 0
  {
  }

  lemma PushScansStep(s: State, conns: seq<nat>)
    ensures PushScans(s, conns)
         == if conns == [] then s else PushScans(Detach.Push(s, Request(Scan, conns[0], "0")), conns[1..])
  {
  }

  lemma PushKeysStep(s: State, conn: nat, keys: seq<string>)
    ensures PushKeys(s, conn, keys) == if keys == [] then s else PushKeys(PushKey(s, conn, keys[0]), conn, keys[1..])
  {
  }

  lemma StringsStep(elems: seq<Content>)
    ensures Strings(elems)
         == if elems == [] then [] else (if elems[0].CString? then [elems[0].text] else []) + Strings(elems[1..])
  {
  }
}
