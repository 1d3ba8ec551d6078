/**
  process_directory and the receiver's handling of its outcome, as they update the
  counters, the queues and the user's buffer in place.
 */
module DirectoryHandler {
  import opened Definitions
  import opened Directory
  import opened RespSession
  import RespParser

  /** The C string at the start of a memory region. */
  function Text(m: string): (s: string)
    ensures |s| <= |m|
  {
    var n := RespParser.CLength(m, 0);
    if n <= |m| then m[..n] else m
  }

  lemma {:induction false} CLengthFound(m: string, p: nat, n: nat)
    requires p <= n <= |m| && (n < |m| ==> m[n] == '\0') && forall i | p <= i < n :: m[i] != '\0'
    ensures RespParser.CLength(m, p) == n - p
    decreases n - p
  {
    if p < n {
      CLengthFound(m, p + 1, n);
    }
  }

  /** The fields that a connection's leaving does not touch. */
  ghost predicate Untouched(s: State, t: State) {
    && (t.conns, t.limit, t.room, t.meta, t.started, t.up, t.down) == (s.conns, s.limit, s.room, s.meta, s.started, s.up, s.down)
    && (t.keycount, t.buffer, t.returned, t.accepted) == (s.keycount, s.buffer, s.returned, s.accepted)
  }

  lemma FailedState(s: State, c: nat, rc: int, t: State)
    requires Untouched(s, t) && t.scans == s.scans - {c} && t.posted == s.posted - {c}
    requires t.completions == s.completions + [Completion(rc, |s.buffer|)] && t.failed == s.failed + {c}
    requires t.ended == s.ended && t.stopped == s.stopped && t.early == s.early + if t.scans == map[] then 0 else 1
    ensures t == Fail(s, c, rc)
  {
  }

  lemma LeftState(s: State, c: nat, cursor: string, t: State)
    requires Untouched(s, t) && t.scans == s.scans - {c} && t.posted == s.posted - {c}
    requires t.completions == s.completions + if s.up - s.down > 0 then [] else [Completion(0, |s.buffer|)]
    requires t.ended == s.ended + (if cursor == "0" then {c} else {}) && t.stopped == s.stopped + (if cursor == "0" then {} else {c})
    requires t.failed == s.failed && t.early == s.early
    ensures t == Leave(s, c, cursor)
  {
  }

  lemma InvFits(s: State)
    requires Inv(s)
    ensures |s.buffer| <= s.room
  {
  }

  lemma ScanIsStep(s: State, c: nat, result: Content)
    requires |s.buffer| <= s.room && Defined(s, Answer(c, result))
    ensures Step(s, Answer(c, result)) == AfterScan(s.(down := s.down + 1), c, result)
  {
    hide AfterScan;
  }

  class Handler {
    const conns: set<nat>
    const limit: nat
    const user: array<char>        // the request's first SGE
    var meta: bool
    var scans: map<nat, string>
    var posted: set<nat>
    var up: nat
    var down: nat
    var keycount: nat
    var completions: seq<Completion>

    // what has happened, for the specification only
    ghost var started: bool
    ghost var returned: seq<string>
    ghost var accepted: seq<string>
    ghost var ended: set<nat>
    ghost var stopped: set<nat>
    ghost var failed: set<nat>
    ghost var early: nat

    ghost function Now(): State
      reads this, user
    {
      State(conns, limit, if user.Length > 0 then user.Length - 1 else 0, meta, started, scans, posted, up, down, keycount,
            Text(user[..]), returned, accepted, ended, stopped, failed, completions, early)
    }

    /** The listing is a C string inside the user's buffer. */
    ghost predicate Valid()
      reads this, user
    {
      user.Length > 0 && |Text(user[..])| < user.Length
    }

    /** strnlen */
    method Length() returns (n: nat)
      requires Valid()
      ensures n == |Text(user[..])| && Text(user[..]) == user[..n] && user[n] == '\0'
      ensures forall i | 0 <= i < n :: user[i] != '\0'
    {
      n := 0;
      while n < user.Length && user[n] != '\0'
        invariant 0 <= n <= user.Length
        invariant forall i | 0 <= i < n :: user[i] != '\0'
      {
        n := n + 1;
      }
      CLengthFound(user[..], 0, n);
    }

    /** snprintf at the end of the listing, within the space that is left */
    method Write(text: string)
      requires Valid() && '\0' !in text
      modifies user
      ensures Valid() && Text(user[..]) == Append(old(Text(user[..])), user.Length - 1, text)
    {
      var length := Length();
      ghost var before := user[..length];
      assert forall i | 0 <= i < length :: before[i] != '\0';
      var remaining := user.Length - length;
      var n := 0;
      while n < |text| && n < remaining - 1
        invariant 0 <= n <= |text| && n <= remaining - 1
        invariant user[..length + n] == before + text[..n]
      {
        user[length + n] := text[n];
        n := n + 1;
      }
      user[length + n] := '\0';
      assert user[..length + n] == before + text[..n];
      forall i | 0 <= i < length + n ensures user[i] != '\0' {
        assert user[i] == user[..length + n][i];
        if i >= length {
          assert text[i - length] in text;
        }
      }
      CLengthFound(user[..], 0, length + n);
      assert Text(user[..]) == user[..length + n];
      assert text[..|text|] == text;
    }

    /** A reply to META: list nothing, or start a scan on every connection. */
    method ReceiveMeta(result: Content)
      requires Valid() && Inv(Now()) && meta
      modifies this, user
      ensures Valid() && Now() == Step(old(Now()), AnswerMeta(result)) && Inv(Now())
    {
      ghost var before := Now();
      NoScanBeforeMeta(before);
      hide Text, Inv;
      meta := false;
      if result.CArray? {
        Clear();
      }
      var length := Length();
      if !result.CArray? {
        completions := completions + [Completion(-EBADMSG, length)];
      } else if result.elems == [] {
        completions := completions + [Completion(-ENOENT, length)];
      } else {
        StartScans();
      }
      StepKeepsInv(before, AnswerMeta(result));
    }

    method Clear()
      requires Valid()
      modifies user
      ensures Valid() && Text(user[..]) == ""
    {
      user[0] := '\0';
      CLengthFound(user[..], 0, 0);
    }

    /** The fan-out: a scan from cursor 0 on every connection, each of them counted. */
    method StartScans()
      modifies this`scans, this`posted, this`up, this`started
      ensures Now() == FanOut(old(Now()))
    {
      hide Text;
      var cursors, count := FirstCursors();
      started, posted, scans, up := true, {}, cursors, up + count;
    }

    method FirstCursors() returns (cursors: map<nat, string>, count: nat)
      ensures cursors == (map c | c in conns :: "0") && count == |conns|
    {
      cursors, count := map[], 0;
      var todo := conns;
      while todo != {}
        invariant todo <= conns && cursors.Keys == conns - todo && count + |todo| == |conns|
        invariant forall c | c in cursors :: cursors[c] == "0"
        decreases |todo|
      {
        var c :| c in todo;
        cursors, count := cursors[c := "0"], count + 1;
        todo := todo - {c};
      }
    }

    /** The loop over a reply's keys, writing them to the user's buffer. */
    method CollectKeys(keys: seq<Content>) returns (how: Collected)
      requires Valid() && forall e | e in keys :: e.CNull? || (e.CString? && '\0' !in e.text)
      modifies this`keycount, this`accepted, user
      ensures Valid() && (Now(), how) == Collect(old(Now()), keys)
    {
      hide Collect, Text, NameOf, Append;
      var n := 0;
      while n < |keys|
        invariant 0 <= n <= |keys| && Valid()
        invariant Collect(old(Now()), keys) == Collect(Now(), keys[n..])
      {
        CollectStep(Now(), keys[n..]);
        assert keys[n..][1..] == keys[n + 1..] && keys[n] in keys;
        if keys[n].CString? {
          var name := NameOf(keys[n].text);
          if name.NoSeparator? {
            return Illegal;
          }
          var length := Length();
          if keycount >= limit {
            return Full;
          }
          NameHasNoNul(keys[n].text);
          Write(if length > 0 then "\n" + name.text else name.text);
          keycount, accepted := keycount + 1, accepted + [name.text];
        }
        n := n + 1;
      }
      CollectStep(Now(), keys[n..]);
      return AllTaken;
    }

    /** A reply to a SCAN. */
    method Receive(c: nat, result: Content)
      requires Valid() && Inv(Now()) && Defined(Now(), Answer(c, result))
      modifies this, user
      ensures Valid() && Now() == Step(old(Now()), Answer(c, result)) && Inv(Now())
    {
      hide Inv, Text, Fail, Follow, Collect, Names, Step;
      ghost var before := Now();
      InvFits(before);
      down := down + 1;
      if !result.CArray? || |result.elems| != 2 {
        FailScan(c, -EINVAL);
      } else {
        var cursor := result.elems[0].text;
        var how := CollectKeys(result.elems[1].elems);
        ghost var collected := Now();
        returned := returned + Names(result.elems[1].elems);
        assert Now() == collected.(returned := collected.returned + Names(result.elems[1].elems));
        FollowScan(c, cursor, how);
      }
      ScanIsStep(before, c, result);
      StepKeepsInv(before, Answer(c, result));
    }

    method FollowScan(c: nat, cursor: string, how: Collected)
      requires Valid()
      modifies this`scans, this`posted, this`up, this`completions, this`ended, this`stopped, this`failed, this`early
      ensures Valid() && Now() == Follow(old(Now()), c, cursor, how)
    {
      hide Text, Fail, Leave;
      if how.Illegal? {
        FailScan(c, -EILSEQ);
      } else if how.AllTaken? && cursor != "0" {
        scans, posted, up := scans[c := cursor], posted - {c}, up + 1;
      } else {
        LeaveScan(c, cursor);
      }
    }

    /** The completion tells the length of the listing. */
    method CompleteWith(rc: int)
      requires Valid()
      modifies this`completions
      ensures Valid() && completions == old(completions) + [Completion(rc, |Text(user[..])|)]
    {
      hide Text;
      var length := Length();
      completions := completions + [Completion(rc, length)];
    }

    lemma SameText(before: State)
      requires before.buffer == Text(user[..])
      ensures Now().buffer == before.buffer
    {
    }

    method FailScan(c: nat, rc: int)
      requires Valid()
      modifies this`scans, this`posted, this`completions, this`failed, this`early
      ensures Valid() && Now() == Fail(old(Now()), c, rc)
    {
      hide Text, Fail;
      ghost var before := Now();
      var left := scans - {c};
      CompleteWith(rc);
      scans, posted := left, posted - {c};
      failed, early := failed + {c}, early + if left == map[] then 0 else 1;
      SameText(before);
      FailedState(before, c, rc, Now());
    }

    method LeaveScan(c: nat, cursor: string)
      requires Valid()
      modifies this`scans, this`posted, this`completions, this`ended, this`stopped
      ensures Valid() && Now() == Leave(old(Now()), c, cursor)
    {
      hide Text, Leave;
      ghost var before := Now();
      scans, posted := scans - {c}, posted - {c};
      if cursor == "0" {
        ended := ended + {c};
      } else {
        stopped := stopped + {c};
      }
      if up - down <= 0 {
        CompleteWith(0);
      }
      SameText(before);
      LeftState(before, c, cursor, Now());
    }
  }

  lemma CollectStep(s: State, keys: seq<Content>)
    requires |s.buffer| <= s.room
    ensures Collect(s, keys) ==
      if keys == [] then (s, AllTaken)
      else if !keys[0].CString? then Collect(s, keys[1..])
      else match NameOf(keys[0].text)
        case NoSeparator => (s, Illegal)
        case Name(name) => if s.keycount >= s.limit then (s, Full) else Collect(AcceptKey(s, name), keys[1..])
  {
  }

  lemma {:induction false} NameHasNoNul(key: string)
    requires '\0' !in key
    ensures NameOf(key).Name? ==> '\0' !in NameOf(key).text
    decreases |key|
  {
    if |key| >= 2 && !(key[0] == ':' && key[1] == ':') {
      NameHasNoNul(key[1..]);
    }
  }
}
