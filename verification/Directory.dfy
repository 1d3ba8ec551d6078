/**
  Listing the keys of a namespace: META checks that the namespace exists, then every
  connection is scanned until its cursor is 0 or the requested number of keys has been
  reached. The scans share an in-flight counter, a key counter and the user's buffer;
  their replies arrive in any order.
 */
module Directory {
  import opened Definitions
  import opened RespSession

  /** `size` bytes were written to the user's buffer when the request completed with `rc`. */
  datatype Completion = Completion(rc: int, size: nat)

  /**
    `scans` maps each connection whose SCAN is in flight to its cursor, `posted` are those
    that were sent. `returned` lists the key names of all replies in the order in which they
    arrived, `accepted` those that were written to `buffer`, which has room for `room`
    characters before its NUL. `ended` are the connections scanned to cursor 0, `stopped`
    those given up at the limit, `failed` those that answered with an error; `early` counts
    the errors that came while other scans were in flight.
   */
  datatype State = State(
    conns: set<nat>, limit: nat, room: nat,
    meta: bool, started: bool, scans: map<nat, string>, posted: set<nat>, up: nat, down: nat,
    keycount: nat, buffer: string,
    returned: seq<string>, accepted: seq<string>,
    ended: set<nat>, stopped: set<nat>, failed: set<nat>,
    completions: seq<Completion>, early: nat)

  datatype Event =
    | AnswerMeta(result: Content)
    | Send(conn: nat)
    | Requeue(conn: nat)
    | Answer(conn: nat, result: Content)

  function Init(conns: set<nat>, limit: nat, room: nat): State {
    State(conns, limit, room, true, false, map[], {}, 0, 0, 0, "", [], [], {}, {}, {}, [], 0)
  }

  // ---------- keys ----------

  datatype Name = Name(text: string) | NoSeparator

  /** What follows the first "::" of a key. */
  function NameOf(key: string): Name
    decreases |key|
  {
    if |key| < 2 then NoSeparator
    else if key[0] == ':' && key[1] == ':' then Name(key[2..])
    else NameOf(key[1..])
  }

  /** snprintf: appends as much of `text` as fits. */
  function Append(buffer: string, room: nat, text: string): (r: string)
    requires |buffer| <= room
    ensures |r| <= room
  {
    if |buffer| + |text| <= room then buffer + text else buffer + text[..room - |buffer|]
  }

  function AcceptKey(s: State, name: string): State
    requires |s.buffer| <= s.room
  {
    s.(buffer := Append(s.buffer, s.room, if s.buffer == "" then name else "\n" + name),
       keycount := s.keycount + 1,
       accepted := s.accepted + [name])
  }

  datatype Collected = AllTaken | Full | Illegal

  /** The loop over the keys of a reply. */
  function Collect(s: State, keys: seq<Content>): (r: (State, Collected))
    requires |s.buffer| <= s.room
    ensures |r.0.buffer| <= r.0.room == s.room
    decreases |keys|
  {
    if keys == [] then (s, AllTaken)
    else if !keys[0].CString? then Collect(s, keys[1..])
    else match NameOf(keys[0].text)
      case NoSeparator => (s, Illegal)
      case Name(name) => if s.keycount >= s.limit then (s, Full) else Collect(AcceptKey(s, name), keys[1..])
  }

  /** The names in a reply, up to the first key that is no key of a namespace. */
  function Names(keys: seq<Content>): seq<string>
    decreases |keys|
  {
    if keys == [] then []
    else if !keys[0].CString? then Names(keys[1..])
    else match NameOf(keys[0].text)
      case NoSeparator => []
      case Name(name) => [name] + Names(keys[1..])
  }

  // ---------- steps ----------

  predicate ScanReply(result: Content) {
    && result.CArray? && |result.elems| == 2
    && result.elems[0].CString? && result.elems[1].CArray?
    && forall e | e in result.elems[1].elems :: e.CNull? || (e.CString? && '\0' !in e.text)
  }

  predicate Defined(s: State, e: Event) {
    match e
    case AnswerMeta(_) => s.meta
    case Send(c) => c in s.scans && c !in s.posted
    case Requeue(c) => c in s.scans && c in s.posted
    case Answer(c, result) =>
      && c in s.scans && c in s.posted
      && (result.CArray? && |result.elems| == 2 ==> ScanReply(result))
  }

  function Complete(s: State, rc: int): State {
    s.(completions := s.completions + [Completion(rc, |s.buffer|)])
  }

  function Without(s: State, c: nat): State {
    s.(scans := s.scans - {c}, posted := s.posted - {c})
  }

  function Step(s: State, e: Event): State
    requires Defined(s, e) && |s.buffer| <= s.room
  {
    match e
    case AnswerMeta(result) => AfterMeta(s.(meta := false), result)
    case Send(c) => s.(posted := s.posted + {c})
    case Requeue(c) => s.(posted := s.posted - {c})
    case Answer(c, result) => AfterScan(s.(down := s.down + 1), c, result)
  }

  function AfterMeta(s: State, result: Content): State {
    if !result.CArray? then Complete(s, -EBADMSG)
    else if result.elems == [] then Complete(s.(buffer := ""), -ENOENT)
    else FanOut(s.(buffer := ""))
  }

  /** Without any connection there is neither a scan nor a completion. */
  function FanOut(s: State): State {
    s.(started := true, scans := map c | c in s.conns :: "0", posted := {}, up := s.up + |s.conns|)
  }

  function AfterScan(s: State, c: nat, result: Content): State
    requires c in s.scans && |s.buffer| <= s.room
    requires result.CArray? && |result.elems| == 2 ==> ScanReply(result)
  {
    if !result.CArray? || |result.elems| != 2 then Fail(s, c, -EINVAL)
    else
      var cursor, keys := result.elems[0].text, result.elems[1].elems;
      var (s1, how) := Collect(s, keys);
      Follow(s1.(returned := s1.returned + Names(keys)), c, cursor, how)
  }

  /** After the keys: give up, repeat the SCAN from its new cursor, or be done with the connection. */
  function Follow(s: State, c: nat, cursor: string, how: Collected): State {
    if how.Illegal? then Fail(s, c, -EILSEQ)
    else if how.AllTaken? && cursor != "0" then
      s.(scans := s.scans[c := cursor], posted := s.posted - {c}, up := s.up + 1)
    else Leave(s, c, cursor)
  }

  /** This connection is done with: the last one to leave completes the request. */
  function Leave(s: State, c: nat, cursor: string): State {
    var t := Without(s, c);
    var u := if cursor == "0" then t.(ended := t.ended + {c}) else t.(stopped := t.stopped + {c});
    if u.up - u.down > 0 then u else Complete(u, 0)
  }

  function Fail(s: State, c: nat, rc: int): State {
    var s1 := Complete(Without(s, c), rc).(failed := s.failed + {c});
    if s1.scans == map[] then s1 else s1.(early := s1.early + 1)
  }

  ghost predicate IsRun(conns: set<nat>, limit: nat, room: nat, states: seq<State>, events: seq<Event>) {
    && |states| == |events| + 1 && states[0] == Init(conns, limit, room)
    && forall i {:trigger events[i]} :: 0 <= i < |events| ==>
         && |states[i].buffer| <= states[i].room
         && Defined(states[i], events[i]) && states[i + 1] == Step(states[i], events[i])
  }

  // ---------- the buffer ----------

  /** Names joined by newlines, as the loop joins them: no newline as long as nothing was written. */
  function Joined(names: seq<string>): string
    decreases |names|
  {
    if names == [] then "" else
    var front, last := Joined(names[..|names| - 1]), names[|names| - 1];
    if front == "" then last else front + "\n" + last
  }

  function Prefix(s: string, n: nat): string {
    if |s| <= n then s else s[..n]
  }

  /** What every step keeps about keys and the buffer. */
  ghost predicate KeysInv(s: State) {
    && s.keycount == |s.accepted| <= s.limit
    && (|s.accepted| < s.limit ==> s.accepted == s.returned)
    && s.accepted <= s.returned
    && s.buffer == Prefix(Joined(s.accepted), s.room)
  }

  /** What every step keeps about scans and completions. */
  ghost predicate ScansInv(s: State) {
    && s.up - s.down == |s.scans| && s.posted <= s.scans.Keys <= s.conns
    && (s.meta ==> !s.started && s.completions == [] && s.early == 0)
    && (!s.started ==> s.scans == map[] && s.returned == [])
    && (s.started ==> forall c | c in s.conns :: c in s.scans || c in s.ended || c in s.stopped || c in s.failed)
    && (s.scans != map[] ==> |s.completions| == s.early)
    && (!s.meta && s.scans == map[] && s.conns != {} ==> |s.completions| == s.early + 1)
    && (s.stopped != {} ==> |s.accepted| == s.limit)
    && (s.failed == {} && s.started ==> s.early == 0)
    && OneSuccess(s)
  }

  /** A successful completion is the last one, came with no scan in flight, and tells the length of the listing. */
  ghost predicate OneSuccess(s: State) {
    forall i | 0 <= i < |s.completions| && s.completions[i].rc == 0 ::
      i == |s.completions| - 1 && s.started && s.scans == map[] && s.completions[i].size == |s.buffer|
  }

  ghost predicate Inv(s: State) {
    KeysInv(s) && ScansInv(s)
  }

  // ---------- proofs about keys ----------

  lemma PrefixAppend(front: string, room: nat, text: string)
    ensures Append(Prefix(front, room), room, text) == Prefix(front + text, room)
  {
  }

  lemma AcceptKeepsKeys(s: State, name: string)
    requires KeysInv(s) && s.keycount < s.limit
    ensures KeysInv(AcceptKey(s, name).(returned := s.returned + [name]))
  {
    var names := s.accepted + [name];
    assert names[..|names| - 1] == s.accepted;
    var front := Joined(s.accepted);
    if s.room > 0 {
      PrefixAppend(front, s.room, if front == "" then name else "\n" + name);
      assert front + ("\n" + name) == front + "\n" + name;
      assert "" + name == name;
    }
  }

  /** The fields that the loop over a reply's keys leaves alone. */
  function Rest(s: State): (set<nat>, nat, nat, bool, bool, map<nat, string>, set<nat>, nat, nat) {
    (s.conns, s.limit, s.room, s.meta, s.started, s.scans, s.posted, s.up, s.down)
  }

  function Outcome(s: State): (set<nat>, set<nat>, set<nat>, seq<Completion>, nat) {
    (s.ended, s.stopped, s.failed, s.completions, s.early)
  }

  /** A reply's keys are taken in order until the limit; the limit is what ends the loop early. */
  lemma {:induction false} CollectKeepsKeys(s: State, keys: seq<Content>)
    requires KeysInv(s)
    ensures var (t, how) := Collect(s, keys);
            && KeysInv(t.(returned := s.returned + Names(keys)))
            && Rest(t) == Rest(s) && Outcome(t) == Outcome(s) && t.returned == s.returned
            && (how.Full? ==> |t.accepted| == s.limit)
            && (|s.accepted| == s.limit ==> |t.accepted| == s.limit)
    decreases |keys|
  {
    hide KeysInv, AcceptKey, NameOf;
    KeysBound(s);
    if keys != [] && keys[0].CString? && NameOf(keys[0].text).Name? {
      var name := NameOf(keys[0].text).text;
      if s.keycount < s.limit {
        var next := AcceptKey(s, name).(returned := s.returned + [name]);
        AcceptKeepsKeys(s, name);
        CollectKeepsKeys(next, keys[1..]);
        AcceptKeepsRest(s, name);
        CollectIgnoresReturned(AcceptKey(s, name), keys[1..], next.returned);
        assert s.returned + [name] + Names(keys[1..]) == s.returned + ([name] + Names(keys[1..]));
      } else {
        FullKeepsKeys(s, Names(keys));
      }
    } else if keys != [] && !keys[0].CString? {
      CollectKeepsKeys(s, keys[1..]);
    } else {
      assert s.returned + [] == s.returned;
      assert s.(returned := s.returned) == s;
    }
  }

  lemma KeysBound(s: State)
    requires KeysInv(s)
    ensures |s.buffer| <= s.room && s.keycount == |s.accepted| <= s.limit
  {
  }

  lemma AcceptKeepsRest(s: State, name: string)
    requires |s.buffer| <= s.room
    ensures var t := AcceptKey(s, name); Rest(t) == Rest(s) && Outcome(t) == Outcome(s) && t.returned == s.returned && |t.buffer| <= t.room
  {
  }

  /** At the limit, names that arrive are not taken. */
  lemma FullKeepsKeys(s: State, more: seq<string>)
    requires KeysInv(s) && s.keycount >= s.limit
    ensures KeysInv(s.(returned := s.returned + more))
  {
    hide Joined;
  }

  lemma {:induction false} CollectIgnoresReturned(s: State, keys: seq<Content>, returned: seq<string>)
    requires |s.buffer| <= s.room
    ensures var (t, how) := Collect(s, keys);
            Collect(s.(returned := returned), keys) == (t.(returned := returned), how) && t.returned == s.returned
    decreases |keys|
  {
    if keys != [] {
      if !keys[0].CString? {
        CollectIgnoresReturned(s, keys[1..], returned);
      } else if NameOf(keys[0].text).Name? && s.keycount < s.limit {
        CollectIgnoresReturned(AcceptKey(s, NameOf(keys[0].text).text), keys[1..], returned);
      }
    }
  }

  // ---------- proofs about scans ----------

  lemma WithoutShrinks(s: State, c: nat)
    requires c in s.scans
    ensures |Without(s, c).scans| == |s.scans| - 1
  {
    assert Without(s, c).scans.Keys == s.scans.Keys - {c};
  }

  lemma InitInv(conns: set<nat>, limit: nat, room: nat)
    ensures Inv(Init(conns, limit, room))
  {
  }

  lemma NoScanBeforeMeta(s: State)
    requires Inv(s) && s.meta
    ensures s.scans == map[]
  {
  }

  lemma MetaKeepsInv(s: State, result: Content)
    requires Inv(s) && s.meta
    ensures Inv(AfterMeta(s.(meta := false), result))
  {
    var t := AfterMeta(s.(meta := false), result);
    assert s.accepted == [] && s.buffer == "";
    if t.started {
      assert t.scans.Keys == s.conns && |t.scans| == |t.scans.Keys|;
    }
  }

  /** A scan in flight was taken off the counter; everything else is as before. */
  ghost predicate Answered(s: State, c: nat) {
    s.down > 0 && c in s.scans && !s.meta && Inv(s.(down := s.down - 1))
  }

  lemma FailKeepsInv(s: State, c: nat, rc: int)
    requires Answered(s, c) && rc < 0
    ensures Inv(Fail(s, c, rc))
  {
    WithoutShrinks(s, c);
    assert Fail(s, c, rc).failed != {};
  }

  lemma RepeatKeepsInv(s: State, c: nat, cursor: string)
    requires Answered(s, c)
    ensures Inv(s.(scans := s.scans[c := cursor], posted := s.posted - {c}, up := s.up + 1))
  {
    assert s.scans[c := cursor].Keys == s.scans.Keys;
    assert |s.scans[c := cursor]| == |s.scans.Keys|;
  }

  lemma LeaveKeepsInv(s: State, c: nat, cursor: string)
    requires Answered(s, c) && (cursor != "0" ==> |s.accepted| == s.limit)
    ensures Inv(Leave(s, c, cursor))
  {
    WithoutShrinks(s, c);
    assert Leave(s, c, cursor).conns != {};
  }

  lemma ScanKeepsInv(s: State, c: nat, result: Content)
    requires Inv(s) && c in s.scans && (result.CArray? && |result.elems| == 2 ==> ScanReply(result))
    ensures Inv(AfterScan(s.(down := s.down + 1), c, result))
  {
    var s0 := s.(down := s.down + 1);
    assert Answered(s0, c);
    if !result.CArray? || |result.elems| != 2 {
      FailKeepsInv(s0, c, -EINVAL);
    } else {
      var cursor, keys := result.elems[0].text, result.elems[1].elems;
      CollectKeepsKeys(s0, keys);
      var (s1, how) := Collect(s0, keys);
      var s2 := s1.(returned := s1.returned + Names(keys));
      assert Answered(s2, c);
      hide Inv, Answered, Collect, Names, Fail;
      if how.Illegal? {
        FailKeepsInv(s2, c, -EILSEQ);
      } else if how.AllTaken? && cursor != "0" {
        RepeatKeepsInv(s2, c, cursor);
      } else {
        LeaveKeepsInv(s2, c, cursor);
      }
    }
  }

  /** Every event, in any order of replies, keeps the invariant. */
  lemma StepKeepsInv(s: State, e: Event)
    requires Inv(s) && Defined(s, e)
    ensures Inv(Step(s, e))
  {
    hide AfterMeta, AfterScan;
    match e
    case AnswerMeta(result) => MetaKeepsInv(s, result);
    case Answer(c, result) => ScanKeepsInv(s, c, result);
    case _ =>
  }

  // ---------- whole runs ----------

  lemma {:induction false} RunKeepsInv(conns: set<nat>, limit: nat, room: nat, states: seq<State>, events: seq<Event>, n: nat)
    requires IsRun(conns, limit, room, states, events) && n < |states|
    ensures Inv(states[n]) && states[n].conns == conns && states[n].limit == limit && states[n].room == room
  {
    if n == 0 {
      InitInv(conns, limit, room);
    } else {
      RunKeepsInv(conns, limit, room, states, events, n - 1);
      assert Defined(states[n - 1], events[n - 1]);
      StepKeepsInv(states[n - 1], events[n - 1]);
      StepKeepsRequest(states[n - 1], events[n - 1]);
    }
  }

  /** The key names an event brings. */
  function Brought(s: State, e: Event): seq<string> {
    if e.Answer? && e.conn in s.scans && ScanReply(e.result) then Names(e.result.elems[1].elems) else []
  }

  lemma CollectIgnoresCounter(s: State, keys: seq<Content>)
    requires |s.buffer| <= s.room
    ensures Collect(s.(down := s.down + 1), keys).1 == Collect(s, keys).1
    decreases |keys|
  {
    if keys != [] {
      if !keys[0].CString? {
        CollectIgnoresCounter(s, keys[1..]);
      } else if NameOf(keys[0].text).Name? && s.keycount < s.limit {
        CollectIgnoresCounter(AcceptKey(s, NameOf(keys[0].text).text), keys[1..]);
      }
    }
  }

  /** What an answer to a SCAN does to its connection. */
  datatype Effect = Ends | Stops | Repeats(cursor: string) | Fails

  function EffectOf(s: State, result: Content): Effect
    requires |s.buffer| <= s.room
  {
    if !ScanReply(result) then Fails else
    var cursor, how := result.elems[0].text, Collect(s, result.elems[1].elems).1;
    if how.Illegal? then Fails
    else if cursor == "0" then Ends
    else if how.Full? then Stops
    else Repeats(cursor)
  }

  /** What an effect leaves of the scans, and what it records. */
  ghost predicate Records(s: State, c: nat, effect: Effect, t: State) {
    && t.scans == (if effect.Repeats? then s.scans[c := effect.cursor] else s.scans - {c})
    && t.ended == s.ended + (if effect.Ends? then {c} else {})
    && t.stopped == s.stopped + (if effect.Stops? then {c} else {})
    && t.failed == s.failed + (if effect.Fails? then {c} else {})
    && (t.conns, t.limit, t.room, t.meta, t.started) == (s.conns, s.limit, s.room, s.meta, s.started)
  }

  lemma FailRecords(s: State, c: nat, rc: int)
    ensures Records(s, c, Fails, Fail(s, c, rc)) && Fail(s, c, rc).returned == s.returned
  {
  }

  lemma LeaveRecords(s: State, c: nat, cursor: string)
    ensures Records(s, c, if cursor == "0" then Ends else Stops, Leave(s, c, cursor)) && Leave(s, c, cursor).returned == s.returned
  {
  }

  lemma FollowRecords(s: State, c: nat, cursor: string, how: Collected)
    ensures var effect := if how.Illegal? then Fails else if cursor == "0" then Ends else if how.Full? then Stops else Repeats(cursor);
            Records(s, c, effect, Follow(s, c, cursor, how)) && Follow(s, c, cursor, how).returned == s.returned
  {
    hide Fail, Leave;
    FailRecords(s, c, -EILSEQ);
    LeaveRecords(s, c, cursor);
  }

  lemma RecordsFrom(a: State, b: State, c: nat, effect: Effect, t: State)
    requires Rest(a) == Rest(b.(down := a.down)) && Outcome(a) == Outcome(b)
    ensures Records(a, c, effect, t) ==> Records(b, c, effect, t)
  {
  }

  lemma ScanRecords(s: State, c: nat, result: Content)
    requires KeysInv(s) && c in s.scans && (result.CArray? && |result.elems| == 2 ==> ScanReply(result))
    ensures var t := AfterScan(s.(down := s.down + 1), c, result);
            && Records(s, c, EffectOf(s, result), t)
            && t.returned == s.returned + if ScanReply(result) then Names(result.elems[1].elems) else []
  {
    hide Names, Collect, Records, Follow, Joined, Fail;
    var counted := s.(down := s.down + 1);
    if ScanReply(result) {
      var cursor, keys := result.elems[0].text, result.elems[1].elems;
      CollectKeepsKeys(counted, keys);
      CollectIgnoresCounter(s, keys);
      var (t, how) := Collect(counted, keys);
      var u := t.(returned := t.returned + Names(keys));
      FollowRecords(u, c, cursor, how);
      RecordsFrom(u, s, c, EffectOf(s, result), Follow(u, c, cursor, how));
    } else {
      FailRecords(counted, c, -EINVAL);
      RecordsFrom(counted, s, c, Fails, Fail(counted, c, -EINVAL));
    }
  }

  /** An event that starts the scans. */
  predicate Starts(e: Event) {
    e.AnswerMeta? && e.result.CArray? && e.result.elems != []
  }

  /** What an event does beside answering a SCAN: nothing, or starting all of them. */
  lemma OtherRecords(s: State, e: Event)
    requires Inv(s) && Defined(s, e) && !e.Answer?
    ensures var t := Step(s, e);
            && (t.conns, t.limit, t.room, t.returned, t.ended, t.stopped, t.failed)
            == (s.conns, s.limit, s.room, s.returned, s.ended, s.stopped, s.failed)
            && t.started == (s.started || Starts(e))
            && t.scans == if Starts(e) then (map c | c in s.conns :: "0") else s.scans
  {
    hide KeysInv, OneSuccess;
  }

  lemma StepKeepsRequest(s: State, e: Event)
    requires Inv(s) && Defined(s, e)
    ensures var t := Step(s, e);
            && (t.conns, t.limit, t.room) == (s.conns, s.limit, s.room)
            && t.returned == s.returned + Brought(s, e)
  {
    hide Names, AfterScan, AfterMeta, KeysInv, ScansInv, ScanReply;
    if e.Answer? {
      ScanRecords(s, e.conn, e.result);
    } else {
      OtherRecords(s, e);
    }
  }

  /** All names that the replies of a run have brought, in order of arrival. */
  function AllBrought(states: seq<State>, events: seq<Event>, n: nat): seq<string>
    requires n <= |events| && n < |states|
  {
    if n == 0 then [] else AllBrought(states, events, n - 1) + Brought(states[n - 1], events[n - 1])
  }

  lemma {:induction false} ReturnedIsBrought(conns: set<nat>, limit: nat, room: nat, states: seq<State>, events: seq<Event>, n: nat)
    requires IsRun(conns, limit, room, states, events) && n < |states|
    ensures states[n].returned == AllBrought(states, events, n)
  {
    hide Step, Inv, Defined, Brought;
    if n > 0 {
      ReturnedIsBrought(conns, limit, room, states, events, n - 1);
      RunKeepsInv(conns, limit, room, states, events, n - 1);
      assert Defined(states[n - 1], events[n - 1]);
      StepKeepsRequest(states[n - 1], events[n - 1]);
    }
  }

  function Take<T>(s: seq<T>, n: nat): seq<T> {
    if |s| <= n then s else s[..n]
  }

  /**
    At every moment of every run the buffer holds the first `limit` of the names that have
    arrived, joined, and cut off where the buffer ends; never more than `limit` are counted.
   */
  lemma BufferHoldsListing(conns: set<nat>, limit: nat, room: nat, states: seq<State>, events: seq<Event>, n: nat)
    requires IsRun(conns, limit, room, states, events) && n < |states|
    ensures states[n].buffer == Prefix(Joined(Take(AllBrought(states, events, n), limit)), room)
    ensures states[n].keycount == |Take(AllBrought(states, events, n), limit)| <= limit
  {
    RunKeepsInv(conns, limit, room, states, events, n);
    ReturnedIsBrought(conns, limit, room, states, events, n);
    var s := states[n];
    assert s.accepted == Take(s.returned, limit);
  }

  /** A SCAN is answered by an error, or by a key outside any namespace, while another scan is in flight. */
  predicate FailsEarly(s: State, e: Event)
    requires |s.buffer| <= s.room
  {
    e.Answer? && Defined(s, e) && |s.scans| > 1 && EffectOf(s, e.result).Fails?
  }

  lemma FailCounts(s: State, c: nat, rc: int)
    requires c in s.scans
    ensures Fail(s, c, rc).early == s.early + if |s.scans| > 1 then 1 else 0
  {
    WithoutShrinks(s, c);
  }

  lemma StepCountsEarly(s: State, e: Event)
    requires Inv(s) && Defined(s, e)
    ensures Step(s, e).early == s.early + if FailsEarly(s, e) then 1 else 0
  {
    hide Names, Collect, ScansInv, Joined, Fail;
    if e.Answer? {
      var counted := s.(down := s.down + 1);
      if ScanReply(e.result) {
        var keys := e.result.elems[1].elems;
        CollectKeepsKeys(counted, keys);
        CollectIgnoresCounter(s, keys);
        var t := Collect(counted, keys).0;
        FailCounts(t.(returned := t.returned + Names(keys)), e.conn, -EILSEQ);
      } else {
        FailCounts(counted, e.conn, -EINVAL);
      }
    }
  }

  function EarlyFailures(states: seq<State>, events: seq<Event>, n: nat): nat
    requires n <= |events| && n < |states|
    requires forall i | 0 <= i < n :: |states[i].buffer| <= states[i].room
  {
    if n == 0 then 0
    else EarlyFailures(states, events, n - 1) + if FailsEarly(states[n - 1], events[n - 1]) then 1 else 0
  }

  lemma {:induction false} EarlyIsCounted(conns: set<nat>, limit: nat, room: nat, states: seq<State>, events: seq<Event>, n: nat)
    requires IsRun(conns, limit, room, states, events) && n < |states|
    ensures forall i | 0 <= i < n :: |states[i].buffer| <= states[i].room
    ensures states[n].early == EarlyFailures(states, events, n)
  {
    hide Step, Inv, FailsEarly, Defined;
    if n > 0 {
      EarlyIsCounted(conns, limit, room, states, events, n - 1);
      RunKeepsInv(conns, limit, room, states, events, n - 1);
      assert Defined(states[n - 1], events[n - 1]);
      StepCountsEarly(states[n - 1], events[n - 1]);
    }
  }

  /**
    Over one or more connections: while a scan (or META) is in flight the request has completed
    once for every early failure, afterwards once more. A success is reported at most once,
    when no scan is in flight.
   */
  lemma CompletionsCounted(conns: set<nat>, limit: nat, room: nat, states: seq<State>, events: seq<Event>, n: nat)
    requires conns != {} && IsRun(conns, limit, room, states, events) && n < |states|
    ensures forall i | 0 <= i < n :: |states[i].buffer| <= states[i].room
    ensures |states[n].completions|
         == EarlyFailures(states, events, n) + if states[n].meta || states[n].scans != map[] then 0 else 1
    ensures OneSuccess(states[n])
  {
    RunKeepsInv(conns, limit, room, states, events, n);
    EarlyIsCounted(conns, limit, room, states, events, n);
  }

  // ---------- what the records say about the events ----------

  /** Some event before the n-th answered the SCAN of this connection to this effect. */
  ghost predicate Happened(states: seq<State>, events: seq<Event>, n: nat, c: nat, effect: Effect)
    requires n <= |events| && n < |states|
    requires forall i | 0 <= i < n :: |states[i].buffer| <= states[i].room
  {
    exists i :: 0 <= i < n && Answers(events[i], c) && EffectOf(states[i], events[i].result) == effect
  }

  predicate Answers(e: Event, c: nat) {
    e.Answer? && e.conn == c
  }

  lemma HappenedNext(states: seq<State>, events: seq<Event>, n: nat, c: nat, effect: Effect)
    requires 0 < n <= |events| && n < |states|
    requires forall i | 0 <= i < n :: |states[i].buffer| <= states[i].room
    ensures Happened(states, events, n, c, effect)
      <==> (|| Happened(states, events, n - 1, c, effect)
            || (Answers(events[n - 1], c) && EffectOf(states[n - 1], events[n - 1].result) == effect))
  {
    hide EffectOf;
    if Happened(states, events, n, c, effect) {
      var i :| 0 <= i < n && Answers(events[i], c) && EffectOf(states[i], events[i].result) == effect;
      assert i == n - 1 || Happened(states, events, n - 1, c, effect);
    }
  }

  lemma StepRecords(s: State, e: Event, c: nat)
    requires Inv(s) && Defined(s, e)
    ensures var t := Step(s, e);
            && (c in t.ended <==> c in s.ended || (Answers(e, c) && EffectOf(s, e.result).Ends?))
            && (c in t.stopped <==> c in s.stopped || (Answers(e, c) && EffectOf(s, e.result).Stops?))
            && (c in t.failed <==> c in s.failed || (Answers(e, c) && EffectOf(s, e.result).Fails?))
            && t.started == (s.started || Starts(e))
  {
    hide AfterScan, AfterMeta, KeysInv, ScansInv, ScanReply, EffectOf;
    if e.Answer? {
      ScanRecords(s, e.conn, e.result);
    } else {
      OtherRecords(s, e);
    }
  }

  /** A connection is recorded as scanned to its end, given up, or failed exactly if an answer in the run says so. */
  lemma {:induction false} RunIsTruthful(conns: set<nat>, limit: nat, room: nat, states: seq<State>, events: seq<Event>, n: nat, c: nat)
    requires IsRun(conns, limit, room, states, events) && n < |states|
    ensures forall i | 0 <= i < n :: |states[i].buffer| <= states[i].room
    ensures c in states[n].ended <==> Happened(states, events, n, c, Ends)
    ensures c in states[n].stopped <==> Happened(states, events, n, c, Stops)
    ensures c in states[n].failed <==> Happened(states, events, n, c, Fails)
    ensures states[n].started <==> exists i :: 0 <= i < n && Starts(events[i])
  {
    hide Step, Inv, Defined, EffectOf, Happened, Starts;
    if n == 0 {
      Nothing(states, events, c);
    } else {
      RunIsTruthful(conns, limit, room, states, events, n - 1, c);
      RunKeepsInv(conns, limit, room, states, events, n - 1);
      assert Defined(states[n - 1], events[n - 1]);
      StepRecords(states[n - 1], events[n - 1], c);
      HappenedNext(states, events, n, c, Ends);
      HappenedNext(states, events, n, c, Stops);
      HappenedNext(states, events, n, c, Fails);
    }
  }

  lemma Nothing(states: seq<State>, events: seq<Event>, c: nat)
    requires |states| > 0
    ensures forall effect :: !Happened(states, events, 0, c, effect)
  {
  }

  /** The cursor that the last answer of a connection gave; before any answer, the one that starts a scan. */
  function LastCursor(events: seq<Event>, n: nat, c: nat): string
    requires n <= |events|
  {
    if n == 0 then "0"
    else if Answers(events[n - 1], c) && ScanReply(events[n - 1].result) then events[n - 1].result.elems[0].text
    else LastCursor(events, n - 1, c)
  }

  lemma StepMovesCursor(s: State, e: Event, c: nat, last: string)
    requires Inv(s) && Defined(s, e) && (c in s.scans ==> s.scans[c] == last) && (s.meta ==> last == "0")
    ensures var t := Step(s, e);
            && (c in t.scans ==> t.scans[c] == if Answers(e, c) && ScanReply(e.result) then e.result.elems[0].text else last)
            && (t.meta ==> s.meta && !e.Answer?)
  {
    hide AfterScan, AfterMeta, KeysInv, OneSuccess, Collect;
    if e.Answer? {
      ScanRecords(s, e.conn, e.result);
    } else {
      OtherRecords(s, e);
      MetaOnce(s, e);
    }
  }

  lemma MetaOnce(s: State, e: Event)
    requires Inv(s) && Defined(s, e) && !e.Answer?
    ensures Step(s, e).meta ==> s.meta && !e.AnswerMeta?
  {
    hide KeysInv, OneSuccess;
  }

  /**
    A SCAN in flight carries the cursor that the connection's last answer gave: each connection is
    scanned from its start in one unbroken iteration.
   */
  lemma {:induction false} CursorsFollowOn(conns: set<nat>, limit: nat, room: nat, states: seq<State>, events: seq<Event>, n: nat, c: nat)
    requires IsRun(conns, limit, room, states, events) && n < |states|
    ensures c in states[n].scans ==> states[n].scans[c] == LastCursor(events, n, c)
    ensures states[n].meta ==> LastCursor(events, n, c) == "0"
  {
    hide Step, Inv, Defined, ScanReply;
    if n > 0 {
      CursorsFollowOn(conns, limit, room, states, events, n - 1, c);
      RunKeepsInv(conns, limit, room, states, events, n - 1);
      assert Defined(states[n - 1], events[n - 1]);
      StepMovesCursor(states[n - 1], events[n - 1], c, LastCursor(events, n - 1, c));
    }
  }

  lemma StepEnds(s: State, e: Event, c: nat, last: string)
    requires Inv(s) && Defined(s, e) && (c in s.ended ==> c !in s.scans && !s.meta && last == "0")
    ensures var t := Step(s, e);
            c in t.ended ==>
              && c !in t.scans && !t.meta
              && (if Answers(e, c) && ScanReply(e.result) then e.result.elems[0].text else last) == "0"
  {
    hide AfterScan, AfterMeta, KeysInv, OneSuccess, Collect;
    if e.Answer? {
      ScanRecords(s, e.conn, e.result);
    } else {
      OtherRecords(s, e);
      MetaOnce(s, e);
    }
  }

  lemma {:induction false} EndedAtZero(conns: set<nat>, limit: nat, room: nat, states: seq<State>, events: seq<Event>, n: nat, c: nat)
    requires IsRun(conns, limit, room, states, events) && n < |states|
    ensures c in states[n].ended ==> c !in states[n].scans && !states[n].meta && LastCursor(events, n, c) == "0"
  {
    hide Step, Inv, Defined, ScanReply;
    if n > 0 {
      EndedAtZero(conns, limit, room, states, events, n - 1, c);
      RunKeepsInv(conns, limit, room, states, events, n - 1);
      assert Defined(states[n - 1], events[n - 1]);
      StepEnds(states[n - 1], events[n - 1], c, LastCursor(events, n - 1, c));
    }
  }

  /**
    When a listing has been started, nothing is in flight, no answer failed and the limit was not
    reached: every connection was scanned until an answer gave cursor 0, and the listing has every
    name that any answer brought.
   */
  lemma ListingIsComplete(conns: set<nat>, limit: nat, room: nat, states: seq<State>, events: seq<Event>, n: nat)
    requires IsRun(conns, limit, room, states, events) && n < |states|
    requires forall i | 0 <= i < n :: |states[i].buffer| <= states[i].room
    requires (exists i :: 0 <= i < n && Starts(events[i])) && states[n].scans == map[] && states[n].keycount < limit
    requires forall i | 0 <= i < n :: events[i].Answer? ==> !EffectOf(states[i], events[i].result).Fails?
    ensures forall c | c in conns :: Happened(states, events, n, c, Ends) && LastCursor(events, n, c) == "0"
    ensures Take(AllBrought(states, events, n), limit) == AllBrought(states, events, n)
  {
    hide Step, Inv, Defined, EffectOf, Happened, Starts, LastCursor, AllBrought;
    RunKeepsInv(conns, limit, room, states, events, n);
    ReturnedIsBrought(conns, limit, room, states, events, n);
    RunIsTruthful(conns, limit, room, states, events, n, 0);
    NotStopped(states[n]);
    var s := states[n];
    forall c | c in conns ensures Happened(states, events, n, c, Ends) && LastCursor(events, n, c) == "0" {
      assert c in s.failed || c in s.ended;
      ConnectionIsComplete(conns, limit, room, states, events, n, c);
    }
  }

  lemma ConnectionIsComplete(conns: set<nat>, limit: nat, room: nat, states: seq<State>, events: seq<Event>, n: nat, c: nat)
    requires IsRun(conns, limit, room, states, events) && n < |states|
    requires forall i | 0 <= i < n :: |states[i].buffer| <= states[i].room
    requires c in states[n].failed || c in states[n].ended
    requires forall i | 0 <= i < n :: events[i].Answer? ==> !EffectOf(states[i], events[i].result).Fails?
    ensures Happened(states, events, n, c, Ends) && LastCursor(events, n, c) == "0"
  {
    hide Step, Inv, Defined, EffectOf, Happened, Starts, LastCursor;
    RunIsTruthful(conns, limit, room, states, events, n, c);
    NotFailed(states, events, n, c);
    EndedAtZero(conns, limit, room, states, events, n, c);
  }

  lemma NotStopped(s: State)
    requires Inv(s) && s.keycount < s.limit && s.scans == map[] && s.started
    ensures s.stopped == {} && s.accepted == s.returned && |s.accepted| < s.limit
    ensures forall c | c in s.conns && c !in s.failed :: c in s.ended
  {
  }

  lemma NotFailed(states: seq<State>, events: seq<Event>, n: nat, c: nat)
    requires n <= |events| && n < |states|
    requires forall i | 0 <= i < n :: |states[i].buffer| <= states[i].room
    requires forall i | 0 <= i < n :: events[i].Answer? ==> !EffectOf(states[i], events[i].result).Fails?
    ensures !Happened(states, events, n, c, Fails)
  {
    hide EffectOf;
  }
  /** A request over no connection at all is lost: nothing is in flight and it never completes. */
  lemma NoConnectionNeverCompletes(limit: nat, room: nat, meta: Content)
    requires meta.CArray? && meta.elems != []
    ensures var s := Step(Init({}, limit, room), AnswerMeta(meta));
            !s.meta && s.scans == map[] && s.completions == [] && forall e :: !Defined(s, e)
  {
  }

  lemma RunGoesOn(conns: set<nat>, limit: nat, room: nat, states: seq<State>, events: seq<Event>, e: Event)
    requires IsRun(conns, limit, room, states, events)
    requires var s := states[|events|]; |s.buffer| <= s.room && Defined(s, e)
    ensures IsRun(conns, limit, room, states + [Step(states[|events|], e)], events + [e])
  {
    hide Step, Defined;
    var more, all := states + [Step(states[|events|], e)], events + [e];
    forall i | 0 <= i < |all|
      ensures |more[i].buffer| <= more[i].room && Defined(more[i], all[i]) && more[i + 1] == Step(more[i], all[i])
    {
      if i < |events| {
        assert all[i] == events[i];
      }
    }
  }

  lemma RunBegins(conns: set<nat>, limit: nat, room: nat)
    ensures IsRun(conns, limit, room, [Init(conns, limit, room)], [])
  {
  }

  lemma TwoScansPosted(limit: nat, room: nat) returns (states: seq<State>, events: seq<Event>)
    ensures |states| == |events| + 1 && IsRun({7, 8}, limit, room, states, events)
    ensures states[|events|] == State({7, 8}, limit, room, false, true, map[7 := "0", 8 := "0"], {7, 8}, 2, 0, 0, "", [], [], {}, {}, {}, [], 0)
  {
    hide IsRun;
    var meta := AnswerMeta(CArray([CString("id")]));
    var s0 := Init({7, 8}, limit, room);
    states, events := [s0], [];
    RunBegins({7, 8}, limit, room);
    var s1 := Step(s0, meta);
    assert s1.scans == map[7 := "0", 8 := "0"] && s1.up == 2;
    RunGoesOn({7, 8}, limit, room, states, events, meta);
    states, events := states + [s1], events + [meta];
    var s2 := Step(s1, Send(7));
    RunGoesOn({7, 8}, limit, room, states, events, Send(7));
    states, events := states + [s2], events + [Send(7)];
    var s3 := Step(s2, Send(8));
    RunGoesOn({7, 8}, limit, room, states, events, Send(8));
    states, events := states + [s3], events + [Send(8)];
    assert s3.posted == {7, 8};
  }

  /** A SCAN error while the other connection is still being scanned completes the request a first time. */
  lemma EarlyFailureCompletesTwice(limit: nat, room: nat) returns (states: seq<State>, events: seq<Event>)
    ensures IsRun({7, 8}, limit, room, states, events)
    ensures var s := states[|events|]; s.scans == map[] && s.completions == [Completion(-EINVAL, 0), Completion(0, 0)]
  {
    hide IsRun;
    states, events := TwoScansPosted(limit, room);
    var bad, done := Answer(7, CError("ERR")), Answer(8, CArray([CString("0"), CArray([])]));
    var s4 := Step(states[|events|], bad);
    assert s4.scans == map[8 := "0"] && s4.posted == {8};
    RunGoesOn({7, 8}, limit, room, states, events, bad);
    states, events := states + [s4], events + [bad];
    var s5 := Step(s4, done);
    assert s5.scans == map[];
    RunGoesOn({7, 8}, limit, room, states, events, done);
    states, events := states + [s5], events + [done];
  }

  // ---------- newlines ----------

  /** The names separated by newlines. */
  function Join(names: seq<string>): string
    decreases |names|
  {
    if names == [] then "" else
    if |names| == 1 then names[0]
    else Join(names[..|names| - 1]) + "\n" + names[|names| - 1]
  }

  lemma {:induction false} JoinedNonempty(names: seq<string>)
    requires names != [] && names[0] != ""
    ensures Joined(names) == Join(names) != ""
    decreases |names|
  {
    if |names| == 1 {
      assert names[..0] == [];
    } else {
      JoinedNonempty(names[..|names| - 1]);
    }
  }

  lemma {:induction false} JoinedShorter(names: seq<string>)
    requires |names| > 1 && names[0] == ""
    ensures |Joined(names)| < |Join(names)|
    decreases |names|
  {
    var front := names[..|names| - 1];
    if |names| == 2 {
      assert front[..0] == [] && Joined(front) == "";
    } else {
      JoinedShorter(front);
    }
  }

  /** The names are separated by newlines exactly if the first one is not empty or is the only one. */
  lemma JoinedIsJoin(names: seq<string>)
    ensures Joined(names) == Join(names) <==> |names| <= 1 || names[0] != ""
  {
    if |names| == 1 {
      assert names[..0] == [];
    } else if |names| > 1 {
      if names[0] == "" {
        JoinedShorter(names);
      } else {
        JoinedNonempty(names);
      }
    }
  }
}
