/** Which names a listing takes from its answers, and which answer each completion comes from. */
module DirectoryNames {
  import opened Definitions
  import opened RespSession
  import opened Directory

  // ---------- the name in a key ----------

  predicate SeparatorAt(key: string, i: nat) {
    i + 1 < |key| && key[i] == ':' && key[i + 1] == ':'
  }

  /** The name is what follows the first separator. */
  lemma {:induction false} NameFollowsFirst(key: string, i: nat)
    requires SeparatorAt(key, i) && forall j: nat :: j < i ==> !SeparatorAt(key, j)
    ensures NameOf(key) == Name(key[i + 2..])
    decreases i
  {
    if i > 0 {
      assert !SeparatorAt(key, 0);
      forall j: nat | j < i - 1 ensures !SeparatorAt(key[1..], j) {
        assert !SeparatorAt(key, j + 1);
      }
      NameFollowsFirst(key[1..], i - 1);
      assert key[1..][i + 1..] == key[i + 2..];
    }
  }

  /** A key without a separator is no key of a namespace, and the only kind that is none. */
  lemma {:induction false} NoNameIff(key: string)
    ensures NameOf(key).NoSeparator? <==> forall j: nat :: !SeparatorAt(key, j)
    decreases |key|
  {
    if |key| >= 2 && !SeparatorAt(key, 0) {
      NoNameIff(key[1..]);
      if j: nat :| SeparatorAt(key[1..], j) {
        assert SeparatorAt(key, j + 1);
      }
      if j: nat :| SeparatorAt(key, j) {
        assert SeparatorAt(key[1..], j - 1);
      }
    }
  }

  // ---------- the names in a reply ----------

  predicate Stray(k: Content) {
    k.CString? && NameOf(k.text).NoSeparator?
  }

  ghost predicate AnyStray(keys: seq<Content>) {
    exists i :: 0 <= i < |keys| && Stray(keys[i])
  }

  /** One more key at the end: its name counts unless a stray key stands before it. */
  lemma {:induction false} NamesSnoc(keys: seq<Content>, k: Content)
    ensures Names(keys + [k])
         == Names(keys) + if !AnyStray(keys) && k.CString? && NameOf(k.text).Name? then [NameOf(k.text).text] else []
    decreases |keys|
  {
    hide NameOf;
    if keys == [] {
      assert [] + [k] == [k];
      assert [k][1..] == [];
    } else {
      assert (keys + [k])[1..] == keys[1..] + [k];
      if !Stray(keys[0]) {
        AnyStrayRest(keys);
        NamesSnoc(keys[1..], k);
      }
    }
  }

  lemma AnyStrayRest(keys: seq<Content>)
    requires keys != [] && !Stray(keys[0])
    ensures AnyStray(keys[1..]) <==> AnyStray(keys)
  {
    hide Stray;
    if i :| 0 <= i < |keys| && Stray(keys[i]) {
      assert keys[1..][i - 1] == keys[i];
    }
    if i :| 0 <= i < |keys[1..]| && Stray(keys[1..][i]) {
      assert keys[i + 1] == keys[1..][i];
    }
  }

  /** The loop stops at the limit exactly if there are more names than it leaves room for; otherwise at a stray key. */
  lemma {:induction false} CollectedIff(s: State, keys: seq<Content>)
    requires |s.buffer| <= s.room && s.keycount <= s.limit
    ensures Collect(s, keys).1 == if s.keycount + |Names(keys)| > s.limit then Full else if AnyStray(keys) then Illegal else AllTaken
    decreases |keys|
  {
    hide NameOf, AnyStray;
    if keys == [] {
      assert !AnyStray(keys) by {
        NoStray();
      }
    } else if Stray(keys[0]) {
      assert AnyStray(keys) by {
        FirstIsStray(keys);
      }
    } else {
      AnyStrayRest(keys);
      if !keys[0].CString? {
        CollectedIff(s, keys[1..]);
      } else if s.keycount < s.limit {
        CollectedIff(AcceptKey(s, NameOf(keys[0].text).text), keys[1..]);
      }
    }
  }

  lemma NoStray()
    ensures !AnyStray([])
  {
  }

  lemma FirstIsStray(keys: seq<Content>)
    requires keys != [] && Stray(keys[0])
    ensures AnyStray(keys)
  {
  }

  // ---------- the answer behind a completion ----------

  /** The answer of a SCAN has more names than the limit leaves room for. */
  predicate Overfull(s: State, result: Content)
    requires ScanReply(result)
  {
    s.keycount + |Names(result.elems[1].elems)| > s.limit
  }

  /** The request completes with this code at this event. */
  ghost predicate Reports(s: State, e: Event, code: int) {
    match e
    case AnswerMeta(result) => !Starts(e) && code == if result.CArray? then -ENOENT else -EBADMSG
    case Send(_) => false
    case Requeue(_) => false
    case Answer(c, result) =>
      if !ScanReply(result) then code == -EINVAL
      else if !Overfull(s, result) && AnyStray(result.elems[1].elems) then code == -EILSEQ
      else code == 0 && s.scans.Keys == {c} && (Overfull(s, result) || result.elems[0].text == "0")
  }

  lemma StepReports(s: State, e: Event)
    requires Inv(s) && Defined(s, e)
    ensures var t := Step(s, e);
      if exists code :: Reports(s, e, code) then
        exists code :: Reports(s, e, code) && t.completions == s.completions + [Completion(code, |t.buffer|)]
      else t.completions == s.completions
  {
    hide Inv, AfterScan, AfterMeta, ScanReply;
    match e
    case AnswerMeta(result) => MetaReports(s, result);
    case Send(_) =>
    case Requeue(_) =>
    case Answer(c, result) => ScanReports(s, c, result);
  }

  lemma MetaReports(s: State, result: Content)
    requires Inv(s) && Defined(s, AnswerMeta(result))
    ensures var t, e := Step(s, AnswerMeta(result)), AnswerMeta(result);
      if exists code :: Reports(s, e, code) then
        exists code :: Reports(s, e, code) && t.completions == s.completions + [Completion(code, |t.buffer|)]
      else t.completions == s.completions
  {
    hide Inv;
    if !Starts(AnswerMeta(result)) {
      assert Reports(s, AnswerMeta(result), if result.CArray? then -ENOENT else -EBADMSG);
    }
  }

  lemma InFlight(s: State)
    requires Inv(s)
    ensures s.up - s.down == |s.scans| && KeysInv(s) && |s.buffer| <= s.room && s.keycount <= s.limit
  {
    hide Joined, OneSuccess;
  }

  lemma LastOne(s: State, c: nat)
    requires c in s.scans
    ensures |s.scans| <= 1 <==> s.scans.Keys == {c}
  {
    assert |s.scans.Keys - {c}| == |s.scans| - 1;
    if |s.scans| <= 1 {
      assert s.scans.Keys - {c} == {};
    }
  }

  lemma ScanReports(s: State, c: nat, result: Content)
    requires Inv(s) && Defined(s, Answer(c, result))
    ensures var t, e := Step(s, Answer(c, result)), Answer(c, result);
      if exists code :: Reports(s, e, code) then
        exists code :: Reports(s, e, code) && t.completions == s.completions + [Completion(code, |t.buffer|)]
      else t.completions == s.completions
  {
    hide Inv, KeysInv, Collect, Names, AnyStray;
    InFlight(s);
    LastOne(s, c);
    var counted := s.(down := s.down + 1);
    if ScanReply(result) {
      var keys := result.elems[1].elems;
      CountedKeys(s);
      CollectKeepsKeys(counted, keys);
      CollectedIff(counted, keys);
      if !Overfull(s, result) && AnyStray(keys) {
        assert Reports(s, Answer(c, result), -EILSEQ);
      } else if s.scans.Keys == {c} && (Overfull(s, result) || result.elems[0].text == "0") {
        assert Reports(s, Answer(c, result), 0);
      }
    } else {
      assert Reports(s, Answer(c, result), -EINVAL);
    }
  }

  lemma CountedKeys(s: State)
    requires KeysInv(s)
    ensures KeysInv(s.(down := s.down + 1))
  {
    hide Joined;
  }

  ghost predicate Reported(states: seq<State>, events: seq<Event>, n: nat, done: Completion)
    requires n < |states| && n <= |events|
  {
    exists i :: 0 <= i < n && Reports(states[i], events[i], done.rc) && done.size == |states[i + 1].buffer|
  }

  /**
    Every completion of every run was called for by an answer of the run, and tells the length of
    the listing after that answer.
   */
  lemma {:induction false} CompletionsReported(conns: set<nat>, limit: nat, room: nat, states: seq<State>, events: seq<Event>, n: nat, j: nat)
    requires IsRun(conns, limit, room, states, events) && n < |states| && j < |states[n].completions|
    ensures Reported(states, events, n, states[n].completions[j])
  {
    hide Step, Inv, Defined, Reports;
    var s, e := states[n - 1], events[n - 1];
    RunKeepsInv(conns, limit, room, states, events, n - 1);
    assert Defined(s, e);
    StepReports(s, e);
    if j < |s.completions| {
      CompletionsReported(conns, limit, room, states, events, n - 1, j);
      var done := s.completions[j];
      var i :| 0 <= i < n - 1 && Reports(states[i], events[i], done.rc) && done.size == |states[i + 1].buffer|;
      assert states[n].completions[j] == done;
    } else {
      var done := states[n].completions[j];
      assert Reports(s, e, done.rc) && done.size == |states[n - 1 + 1].buffer|;
    }
  }
}
