/** What scans find and deletions leave in Redis, and requests whose stages other requests come between. */
module TupleScans {
  import opened Definitions
  import opened Protocol
  import opened Commands
  import opened CommandFits
  import opened Redis
  import opened RedisWords
  import opened RespSession
  import opened TupleSpace
  import opened TupleLaws
  import opened NamespaceLaws

  // ---------- scans ----------

  /** The stages that scan ask for the next page, matched against the tuples of their namespace. */
  lemma ScanEffect(sv: Server, db: Store, r: Request)
    requires HasStage(r.op, r.stage) && IsScan(r) && Named(r)
    ensures var cursor := if r.cursor.Some? then r.cursor.value else "0";
      var pattern := if r.op == NsDetach || r.pattern == "" then "*" else r.pattern;
      Effect(sv, db, r) == Served(Direct, db, [ScanPage(sv, db, cursor, Qualified(r.ns, pattern))])
  {
    hide Effect, Named, Qualified, ScanPage, Words;
    var cursor := if r.cursor.Some? then r.cursor.value else "0";
    var pattern := if r.op == NsDetach || r.pattern == "" then "*" else r.pattern;
    var ws := ["SCAN", cursor, "MATCH", Qualified(r.ns, pattern), "COUNT", "10"];
    assert Command(r) == [Words(ws)];
    EffectOne(sv, db, r, ws);
  }

  /** No character of a pattern. */
  predicate Literal(s: string) {
    forall i :: 0 <= i < |s| ==> s[i] != '*' && s[i] != '?' && s[i] != '[' && s[i] != '\\'
  }

  lemma {:induction false} GlobRest(s: string)
    ensures Glob("*", s)
    decreases |s|
  {
    if s != "" {
      GlobRest(s[1..]);
    }
    assert "*"[1..] == "";
  }

  lemma {:induction false} GlobLiteral(front: string, s: string)
    requires Literal(front)
    ensures Glob(front + "*", s) <==> front <= s
    decreases |front|
  {
    var p := front + "*";
    if front == "" {
      assert p == "*";
      GlobRest(s);
    } else {
      assert p[0] == front[0] && p[1..] == front[1..] + "*";
      if s != "" {
        GlobLiteral(front[1..], s[1..]);
        assert front <= s <==> front[0] == s[0] && front[1..] <= s[1..];
      }
    }
  }

  /** A tuple of the namespace. */
  predicate IsTuple(ns: string, x: string) {
    ns + SEPARATOR <= x
  }

  /** The pattern of a namespace matches its tuples, if the name holds no character of a pattern. */
  lemma PatternFinds(ns: string, x: string)
    requires Literal(ns)
    ensures Glob(Qualified(ns, "*"), x) <==> IsTuple(ns, x)
  {
    assert Qualified(ns, "*") == (ns + SEPARATOR) + "*";
    GlobLiteral(ns + SEPARATOR, x);
  }

  /** A name that holds one finds tuples of other namespaces too. */
  lemma PatternCharacters()
    ensures Glob(Qualified("a?", "*"), "ab::x") && !IsTuple("a?", "ab::x")
  {
    var p, s := Qualified("a?", "*"), "ab::x";
    assert p == "a?::*";
    assert p[1..] == "?::*" && s[1..] == "b::x";
    assert p[1..][1..] == "::*" && s[1..][1..] == "::x";
    GlobLiteral("::", "::x");
    assert "::" <= "::x";
    assert ("a?" + SEPARATOR)[1] != s[1];
  }

  lemma {:induction false} MatchingIs(db: Store, pattern: string, keys: seq<string>, x: string)
    ensures x in Matching(db, pattern, keys) <==> x in keys && x in db && Glob(pattern, x)
    decreases |keys|
  {
    hide Glob;
    if keys != [] {
      MatchingIs(db, pattern, keys[1..], x);
      assert keys == [keys[0]] + keys[1..];
    }
  }

  /** Cursors that follow each other from 0 to 0. */
  ghost predicate Iterates(sv: Server, db: Store, cursors: seq<string>) {
    && cursors != [] && cursors[0] == "0" && sv.page(db, cursors[|cursors| - 1]).0 == "0"
    && forall i :: 0 <= i < |cursors| - 1 ==> sv.page(db, cursors[i]).0 == cursors[i + 1]
  }

  /** What Redis promises of an iteration: each key that is there all the time is on some page. */
  ghost predicate Complete(sv: Server) {
    forall db: Store, cursors, x :: Iterates(sv, db, cursors) && x in db ==> OnSomePage(sv, db, cursors, x)
  }

  ghost predicate OnSomePage(sv: Server, db: Store, cursors: seq<string>, x: string) {
    exists i :: 0 <= i < |cursors| && x in sv.page(db, cursors[i]).1
  }

  /** The keys that the answers of an iteration hold. */
  ghost function Listed(sv: Server, db: Store, cursors: seq<string>, pattern: string): set<string> {
    set i, x | 0 <= i < |cursors| && x in Matching(db, pattern, sv.page(db, cursors[i]).1) :: x
  }

  /** An iteration over a namespace lists its tuples, all of them and nothing else. */
  lemma IterationLists(sv: Server, db: Store, cursors: seq<string>, ns: string, x: string)
    requires Complete(sv) && Iterates(sv, db, cursors) && Literal(ns)
    ensures x in Listed(sv, db, cursors, Qualified(ns, "*")) <==> x in db && IsTuple(ns, x)
  {
    hide Glob, Matching, Iterates, Literal, Qualified, IsTuple;
    PatternFinds(ns, x);
    var pattern := Qualified(ns, "*");
    forall i | 0 <= i < |cursors|
      ensures x in Matching(db, pattern, sv.page(db, cursors[i]).1) <==> x in sv.page(db, cursors[i]).1 && x in db && Glob(pattern, x)
    {
      MatchingIs(db, pattern, sv.page(db, cursors[i]).1, x);
    }
    if x in db {
      assert OnSomePage(sv, db, cursors, x);
    }
  }

  // ---------- deleting a namespace ----------

  lemma DeleteStages(sv: Server, db: Store, r: Request)
    requires r.op == NsDetach && r.stage in {2, 3} && Named(r)
    ensures Effect(sv, db, r).db == db - {if r.stage == 2 then r.scanned else r.ns}
  {
    hide Effect, Named, Words;
    var ws := ["DEL", if r.stage == 2 then r.scanned else r.ns];
    assert Command(r) == [Words(ws)];
    EffectOne(sv, db, r, ws);
    assert |"DEL"| != |"LPOP"|;
  }

  /** The store after a DEL for each of these keys. */
  function DeleteEach(sv: Server, db: Store, r: Request, keys: seq<string>): Store
    requires r.op == NsDetach
    decreases |keys|
  {
    if keys == [] then db
    else Effect(sv, DeleteEach(sv, db, r, keys[..|keys| - 1]), r.(stage := 2, scanned := keys[|keys| - 1])).db
  }

  lemma {:induction false} DeletesEach(sv: Server, db: Store, r: Request, keys: seq<string>)
    requires r.op == NsDetach && forall i :: 0 <= i < |keys| ==> Named(r.(stage := 2, scanned := keys[i]))
    ensures var after := DeleteEach(sv, db, r, keys);
      forall x :: (x in after <==> x in db && x !in keys) && (x in after ==> after[x] == db[x])
    decreases |keys|
  {
    hide Effect, Named;
    if keys != [] {
      var n := |keys| - 1;
      DeletesEach(sv, db, r, keys[..n]);
      DeleteStages(sv, DeleteEach(sv, db, r, keys[..n]), r.(stage := 2, scanned := keys[n]));
      assert keys == keys[..n] + [keys[n]];
    }
  }

  /**
    When every key of an unbroken iteration has been deleted, and then the namespace: nothing of the namespace is
    left, and everything else is as it was.
   */
  lemma NamespaceIsGone(sv: Server, db: Store, r: Request, cursors: seq<string>, keys: seq<string>)
    requires r.op == NsDetach && Named(r.(stage := 3)) && Complete(sv) && Iterates(sv, db, cursors) && Literal(r.ns)
    requires forall x :: x in keys <==> x in Listed(sv, db, cursors, Qualified(r.ns, "*"))
    requires forall i :: 0 <= i < |keys| ==> Named(r.(stage := 2, scanned := keys[i]))
    ensures var after := Effect(sv, DeleteEach(sv, db, r, keys), r.(stage := 3)).db;
      forall x :: (x in after <==> x in db && !IsTuple(r.ns, x) && x != r.ns) && (x in after ==> after[x] == db[x])
  {
    hide Effect, Named, Iterates, Complete, Listed, Literal, IsTuple, DeleteEach, Qualified;
    DeletesEach(sv, db, r, keys);
    DeleteStages(sv, DeleteEach(sv, db, r, keys), r.(stage := 3));
    forall x ensures x in Listed(sv, db, cursors, Qualified(r.ns, "*")) <==> x in db && IsTuple(r.ns, x) {
      IterationLists(sv, db, cursors, r.ns, x);
    }
  }

  // ---------- the namespace of a listing ----------

  lemma MetaEffect(sv: Server, db: Store, r: Request)
    requires r.op == Directory && r.stage == 0 && Named(r)
    ensures Effect(sv, db, r) == Served(Direct, db, [HGetAll(sv, db, r.ns)])
  {
    hide Effect, Named, HGetAll, Words;
    var ws := ["HGETALL", r.ns];
    assert Command(r) == [Words(ws)];
    EffectOne(sv, db, r, ws);
    assert |"HGETALL"| == 7;
  }

  /** The check that precedes a listing finds fields exactly if there is something under the name. */
  lemma MetaFinds(sv: Server, db: Store, r: Request)
    requires r.op == Directory && r.stage == 0 && Named(r) && Orders(sv) && Meta(db, r.ns) && (r.ns in db ==> db[r.ns].fields != map[])
    ensures var replies := Effect(sv, db, r).replies;
      |replies| == 1 && replies[0].Array? && (replies[0].elems != [] <==> NsAt(db, r.ns).There?)
  {
    hide Effect, Named, Orderly, Pairs, NsOf, Orders;
    MetaEffect(sv, db, r);
    var fields := FieldsOf(db, r.ns);
    FieldsAt(db, r.ns);
    NamesTell(fields);
    OrderIs(sv, fields);
    DistinctCounted(sv.order(fields), fields.Keys);
    PairsCounted(fields, sv.order(fields));
    assert |fields| == |fields.Keys|;
    if fields != map[] {
      var f :| f in fields.Keys;
    }
  }

  // ---------- a tuple and a namespace under one key ----------

  /** A put on the name of a namespace is refused, and a create on the name of a tuple: the laws need keys apart. */
  lemma SharedKeyFails(sv: Server, db: Store, r: Request, immediate: bool)
    requires r.op == Put && Named(r.(stage := 0)) && TupleKey(r) in db && db[TupleKey(r)].Hash?
    ensures Perform(sv, db, r, immediate) == (db, Completion(0 - EBADMSG, CNull))
  {
    hide Named, Qualified, Finish;
    FinishMeant(sv, db, r.(stage := 0), immediate, Crash);
  }

  lemma SharedNameFails(sv: Server, db: Store, r: Request, immediate: bool)
    requires r.op == NsCreate && Named(r.(stage := 0)) && r.key in db && db[r.key].List?
    ensures Perform(sv, db, r, immediate) == (db, Completion(0 - EBADMSG, CNull))
  {
    hide Named, Finish;
    FinishMeant(sv, db, r.(stage := 0), immediate, Crash);
  }

  // ---------- stages with others in between ----------

  /**
    A move whose source has been changed since it was dumped: the target gets the list as it was, the source is
    deleted as it is. Nothing is lost exactly if the list is still the same.
   */
  lemma MoveInterleaved(sv: Server, dumped: Store, db: Store, r: Request, immediate: bool)
    requires r.op == Move && r.stage == 1 && Named(r) && Restores(sv) && TupleKey(r) in dumped && r.dump == sv.dump(dumped[TupleKey(r)])
    requires TupleKey(r) in db && TargetKey(r) !in db
    ensures var (after, c) := Finish(sv, db, r, immediate, Crash); var k, t := TupleKey(r), TargetKey(r);
      && c == Completion(0, CInt(1)) && t in after && after[t] == dumped[k] && k !in after
      && (after[t] == db[k] <==> db[k] == dumped[k])
  {
    hide Named, Finish, Restores, Qualified;
    var k, t := TupleKey(r), TargetKey(r);
    MoveRestores(sv, db, r, immediate, dumped[k]);
    NamedLater(r);
    MoveDeletes(sv, db[t := dumped[k]], r.(stage := 2), immediate);
  }

  lemma NamedLater(r: Request)
    requires r.op == Move && HasStage(r.op, r.stage) && Named(r)
    ensures Named(r.(stage := 2))
  {
  }

  /** The second stage of a create sets the count to one, however often the namespace was attached since the first. */
  lemma CreateForgetsAttaches(sv: Server, db: Store, r: Request, immediate: bool)
    requires r.op == NsCreate && Named(r.(stage := 0)) && r.key in db && db[r.key].Hash? && "id" in db[r.key].fields
    requires db[r.key].fields.Keys <= ALL_FIELDS
    ensures var after := Finish(sv, db, r.(stage := 1), immediate, Crash).0; NsAt(after, r.key).There? && Count(NsAt(after, r.key)) == 1
  {
    hide Named, Finish, WithPairs, Orderly;
    var fields := db[r.key].fields;
    CreateEnds(sv, db, r, immediate, r.key);
    CountIsOne(fields, if r.groups.Some? then r.groups.value else "");
  }

  lemma CountIsOne(fields: map<string, string>, groups: string)
    ensures var after := WithPairs(fields, ["refcnt", "1", "groups", groups, "flags", "0"]);
      "refcnt" in after && after["refcnt"] == "1" && IntOf("1") == Some(1)
  {
    DistinctNames();
    ZeroReads();
    var p1 := ["refcnt", "1", "groups", groups, "flags", "0"];
    assert p1[2..] == ["groups", groups, "flags", "0"] && p1[2..][2..] == ["flags", "0"] && p1[2..][2..][2..] == [];
    var f2, f3 := fields["refcnt" := "1"], fields["refcnt" := "1"]["groups" := groups];
    assert WithPairs(fields, p1) == WithPairs(f2, p1[2..]);
    assert WithPairs(f2, p1[2..]) == WithPairs(f3, p1[2..][2..]);
    assert WithPairs(f3, p1[2..][2..]) == WithPairs(f3["flags" := "0"], []);
  }

  /** Marking a namespace that does not exist leaves something under its name that can be attached. */
  lemma StrayIsAttached(r: Request)
    requires r.op == NsDelete
    ensures var stray := NextNs(Absent, r);
      && AnswerNs(Absent, NsDelete) == Code(0 - EEXIST, None) && stray == There(None, None, Some(true), None)
      && AnswerNs(stray, NsAttach) == Code(0, Some(0)) && AnswerNs(stray, NsQuery) == Code(0 - ENOENT, None)
  {
  }
}
