/** Requests performed against Redis, stage by stage, and what the tuple space is after any sequence of them. */
module TupleSpace {
  import opened Definitions
  import opened Protocol
  import opened Commands
  import opened Redis
  import opened RedisWords
  import opened RespSession
  import Detach
  import RespParser

  // ---------- what a reply decides ----------

  /** A request fails, polls again, goes on (with the result it reports), hands over to deletion, or reads a NULL. */
  datatype Verdict = Fails(rc: int) | Polls | Goes(rc: int, data: Content) | Deletes | Undefined

  predicate Supported(op: Opcode) {
    op in {Put, Get, Read, Remove, Move, NsCreate, NsAttach, NsDelete, NsDetach, NsQuery}
  }

  function Judge(r: Request, immediate: bool, result: Content): Verdict
    requires Supported(r.op)
  {
    match r.op
    case Put =>
      if !result.CInt? then Fails(0 - EBADMSG) else if result.n < 1 then Fails(0 - ENOMEM) else Goes(0, result)
    case Get => JudgeValue(immediate, result)
    case Read => JudgeValue(immediate, result)
    case Remove =>
      if !result.CInt? then Fails(0 - EBADMSG)
      else if result.n == 0 then Fails(0 - ENOENT)
      else if result.n == 1 then Goes(0, CInt(0))
      else Fails(0 - EPROTO)
    case Move => JudgeMove(r.stage, result)
    case NsDetach => JudgeDetach(result)
    case NsCreate => JudgeNamespace(r, result)
    case NsAttach => JudgeNamespace(r, result)
    case NsDelete => JudgeNamespace(r, result)
    case NsQuery => JudgeNamespace(r, result)
  }

  function JudgeValue(immediate: bool, result: Content): Verdict {
    match result
    case CNull => if immediate then Fails(0 - ENOENT) else Polls
    case CString(_) => Goes(0, result)
    case _ => Fails(0 - EBADMSG)
  }

  function JudgeMove(stage: nat, result: Content): Verdict {
    if stage == 0 then
      (match result
       case CNull => Fails(0 - ENOENT)
       case CString(_) => Goes(0, result)
       case _ => Fails(0 - EBADMSG))
    else if stage == 1 then
      (match result
       case CString(_) => Goes(0, result)
       case CError(text) => Fails(if Contains(text, "BUSYKEY") then 0 - EEXIST else 0 - EBADMSG)
       case _ => Fails(0 - EBADMSG))
    else if !result.CInt? then Fails(0 - EBADMSG)
    else if result.n == 0 then Fails(0 - ENOENT)
    else if result.n == 1 then Goes(0, result)
    else Fails(0 - ESTALE)
  }

  predicate Contains(s: string, t: string)
    decreases |s|
  {
    t <= s || (s != "" && Contains(s[1..], t))
  }

  function JudgeNamespace(r: Request, result: Content): Verdict
    requires r.op in {NsCreate, NsAttach, NsDelete, NsQuery}
  {
    if r.op == NsQuery then
      if !result.CArray? then Fails(0 - EBADMSG)
      else if |result.elems| < 8 then Fails(0 - ENOENT)
      else Goes(0, result)
    else if r.op == NsDelete && r.stage == 0 then JudgeCount(result)
    else if r.op == NsCreate && r.stage == 1 then
      if !result.CString? then Fails(0 - EBADMSG)
      else if result.text <= "OK" then Goes(0, CInt(0))
      else Fails(0 - ENOENT)
    else if !result.CInt? then Fails(0 - EBADMSG)
    else if r.op == NsDelete then (if result.n != 0 then Fails(0 - EEXIST) else Goes(0, CInt(0)))
    else if r.op == NsAttach && r.stage == 1 then (if result.n < 1 then Fails(0 - EOVERFLOW) else Goes(0, CInt(0)))
    else if result.n == 0 then Fails(if r.op == NsCreate then 0 - EEXIST else 0 - ENOENT)
    else Goes(0, result)
  }

  /** A string, or NULL. */
  predicate IsText(c: Content) {
    c.CString? || c.CNull?
  }

  /** The reference count of a namespace that is to be marked: others that use it make it busy. */
  function JudgeCount(result: Content): Verdict {
    if !result.CArray? then Fails(0 - EBADMSG)
    else if |result.elems| != 2 then Fails(0 - EPROTO)
    else if !IsText(result.elems[0]) || !IsText(result.elems[1]) then Fails(0 - ENOENT)
    else
      var count := if result.elems[0].CString? then Detach.ToInt(result.elems[0].text) else 0;
      if count > 1 then Goes(EBUSY, CInt(count - 1)) else Goes(0, CInt(0))
  }

  /** A field that is missing is read as a string. */
  predicate ReadsNull(result: Content) {
    && result.CArray? && |result.elems| == 2 && result.elems[0].CInt? && result.elems[1].CArray? && result.elems[0].n >= 0
    && var fields := result.elems[1].elems;
       && |fields| == 2
       && (|| fields[0].CNull?
           || (fields[0].CString? && fields[1].CNull? && Detach.ToInt(fields[0].text) <= 0 && RespParser.ToInt32(result.elems[0].n) <= 0))
  }

  function JudgeDetach(result: Content): Verdict {
    if ReadsNull(result) then Undefined
    else match Detach.Decide(result)
      case Refuse(rc) => Fails(rc)
      case Keep => Goes(0, CInt(0))
      case Delete => Deletes
  }

  // ---------- a request, stage by stage ----------

  /** What the user is told; polling, and a namespace that is being deleted, go on. */
  datatype Completion = Completion(rc: int, data: Content) | Polling | Deleting | Crash

  /** The final stage is the last one. */
  lemma NextStage(op: Opcode, stage: nat)
    requires HasStage(op, stage)
    ensures StageOf(op, stage).final <==> !HasStage(op, stage + 1)
    ensures !StageOf(op, stage).final ==> stage < 3
  {
  }

  /** Every request has one stage that says what the user is told. */
  lemma ResultOnce(op: Opcode) returns (stage: nat)
    ensures HasStage(op, stage) && StageOf(op, stage).result
    ensures forall s: nat :: HasStage(op, s) && StageOf(op, s).result ==> s == stage
  {
    hide SCAN_TEMPLATE, DEL_TEMPLATE, DELCHECK_TEMPLATE;
    stage := match op
      case NsDetach => 3
      case Move => 2
      case Directory => 1
      case NsCreate => 1
      case NsAttach => 1
      case _ => 0;
  }

  /** The next stage of a request; a move carries what was dumped. */
  function Advanced(r: Request, result: Content): Request {
    r.(stage := r.stage + 1, dump := if r.op == Move && r.stage == 0 && result.CString? then result.text else r.dump)
  }

  /**
    A request from its current stage on. The result stage says what the user is told, the final stage ends it. A
    detach is followed up to its verdict.
   */
  function Finish(sv: Server, db: Store, r: Request, immediate: bool, told: Completion): (Store, Completion)
    requires HasStage(r.op, r.stage) && Supported(r.op)
    decreases 4 - r.stage
  {
    var served := Effect(sv, db, r);
    var spec := StageOf(r.op, r.stage);
    if served.replies == [] then (served.db, Crash) else
    var result := Meaning(served.replies[|served.replies| - 1]);
    match Judge(r, immediate, result)
    case Fails(rc) => (served.db, Completion(rc, CNull))
    case Polls => (served.db, Polling)
    case Deletes => (served.db, Deleting)
    case Undefined => (served.db, Crash)
    case Goes(rc, data) =>
      var now := if spec.result then Completion(rc, data) else told;
      if r.op == NsDetach then (served.db, Completion(rc, data))
      else if spec.final then (served.db, now)
      else NextStage(r.op, r.stage); Finish(sv, served.db, Advanced(r, result), immediate, now)
  }

  function Perform(sv: Server, db: Store, r: Request, immediate: bool): (Store, Completion)
    requires HasStage(r.op, 0) && Supported(r.op)
  {
    Finish(sv, db, r.(stage := 0), immediate, Crash)
  }
}
