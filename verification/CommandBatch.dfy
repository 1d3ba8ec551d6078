/** The commands of several requests, created in one send buffer before any of them is sent. */
module CommandBatch {
  import opened Definitions
  import opened Resp
  import opened Protocol
  import opened Commands
  import opened CommandsWire
  import opened SrBuffer
  import opened CommandBuilder
  import opened CommandFits
  import opened CommandCreate
  import CommandsRead
  import RespParser
  import RespParserWhole

  /** Requests the sender can be given. */
  ghost predicate Sendable(rs: seq<Request>) {
    forall i :: 0 <= i < |rs| ==> HasStage(rs[i].op, rs[i].stage) && Named(rs[i])
  }

  /** How many requests are accepted before one is refused. */
  ghost function Taken(rs: seq<Request>, size: nat, used: nat): nat
    requires Sendable(rs) && used <= size
    decreases |rs|
  {
    if rs == [] then 0
    else match FateOf(rs[0], size, used)
      case Refused(_) => 0
      case Accepted(after) => 1 + Taken(rs[1..], size, after)
  }

  /** Each request that is accepted fits the room that the ones before it left. */
  ghost predicate TakenFit(rs: seq<Request>, size: nat, used: nat)
    requires Sendable(rs) && used <= size
    decreases |rs|
  {
    if rs == [] then true
    else match FateOf(rs[0], size, used)
      case Refused(_) => true
      case Accepted(after) => Fits(rs[0], size - used) && TakenFit(rs[1..], size, after)
  }

  ghost function Bytes(r: Request): string
    requires HasStage(r.op, r.stage)
  {
    EncodeAll(Command(r))
  }

  /** A list lies in what the buffer holds and sends its command. */
  ghost predicate Right(r: Request, cmd: seq<Chunk>, mem: string, used: nat)
    requires HasStage(r.op, r.stage)
  {
    Within(cmd, 0, used) && Sends(cmd, mem, Bytes(r))
  }

  /** A list does not send its command, and never will while the buffer only grows; or announces a wrong length. */
  ghost predicate Wrong(r: Request, cmd: seq<Chunk>, mem: string, used: nat)
    requires HasStage(r.op, r.stage)
  {
    Lengths(cmd) != |Bytes(r)| || (Within(cmd, 0, used) && !Sends(cmd, mem, Bytes(r)))
  }

  lemma Kept(r: Request, cmd: seq<Chunk>, was: string, used: nat, mem: string, after: nat)
    requires HasStage(r.op, r.stage) && used <= after <= |was| == |mem| && mem[..used] == was[..used]
    ensures Right(r, cmd, was, used) ==> Right(r, cmd, mem, after)
    ensures Wrong(r, cmd, was, used) ==> Wrong(r, cmd, mem, after)
  {
    hide Flatten, Lengths, Bytes;
    if Within(cmd, 0, used) {
      FlattenKept(cmd, was, mem, 0, used);
    }
  }

  lemma WrongIsWrong(r: Request, cmd: seq<Chunk>, mem: string, used: nat)
    requires HasStage(r.op, r.stage)
    ensures Wrong(r, cmd, mem, used) ==> !Sends(cmd, mem, EncodeAll(Command(r)))
  {
    hide Flatten, Lengths, EncodeAll, Command;
  }

  lemma RightSends(r: Request, cmd: seq<Chunk>, mem: string, used: nat)
    requires HasStage(r.op, r.stage)
    ensures Right(r, cmd, mem, used) ==> Sends(cmd, mem, EncodeAll(Command(r)))
  {
  }

  lemma CreatedCode(r: Request, was: string, used: nat, rc: int, cmd: seq<Chunk>, mem: string, available: nat)
    requires HasStage(r.op, r.stage) && used <= |was| && Created(r, was, used, rc, cmd, mem, available)
    ensures |mem| == |was| && (rc < 0 <==> FateOf(r, |was|, used).Refused?)
    ensures if rc >= 0 then FateOf(r, |was|, used) == Accepted(available) else mem[..used] == was[..used]
  {
    hide FateOf, Sends, Lengths, Within, EncodeAll, Command, Fits, Overflows;
  }

  /** One more command: it is right or wrong, and wrong whenever it disturbs the others. */
  lemma OneMore(r: Request, was: string, used: nat, rc: int, cmd: seq<Chunk>, mem: string, after: nat)
    requires HasStage(r.op, r.stage) && used <= |was| && FateOf(r, |was|, used) == Accepted(after)
    requires Created(r, was, used, rc, cmd, mem, after)
    ensures |mem| == |was| && rc >= 0
    ensures if Fits(r, |was| - used) then Right(r, cmd, mem, after) else Wrong(r, cmd, mem, after)
    ensures (used <= after && mem[..used] == was[..used]) || (!Fits(r, |was| - used) && Lengths(cmd) != |Bytes(r)|)
  {
    hide Flatten, Lengths, EncodeAll, Command, KeySize, Fields, Total, Printouts, BulkHead, Measured;
    Weaken(cmd, used, after);
  }

  lemma Weaken(cmd: seq<Chunk>, from: nat, to: nat)
    ensures Within(cmd, from, to) ==> Within(cmd, 0, to)
  {
  }

  // ---------- what holds of the lists so far ----------

  /** All lists are right; or one, at this position, is wrong. */
  ghost predicate Holds(rs: seq<Request>, cmds: seq<seq<Chunk>>, mem: string, used: nat, good: bool, wrong: nat)
    requires Sendable(rs) && |cmds| <= |rs|
  {
    if good then forall i :: 0 <= i < |cmds| ==> Right(rs[i], cmds[i], mem, used)
    else wrong < |cmds| && Wrong(rs[wrong], cmds[wrong], mem, used)
  }

  lemma HoldsKept(rs: seq<Request>, cmds: seq<seq<Chunk>>, was: string, used: nat, mem: string, after: nat, good: bool, wrong: nat)
    requires Sendable(rs) && |cmds| <= |rs| && Holds(rs, cmds, was, used, good, wrong)
    requires used <= after <= |was| == |mem| && mem[..used] == was[..used]
    ensures Holds(rs, cmds, mem, after, good, wrong)
  {
    hide Right, Wrong, Named;
    forall i | 0 <= i < |cmds|
      ensures Right(rs[i], cmds[i], was, used) ==> Right(rs[i], cmds[i], mem, after)
      ensures Wrong(rs[i], cmds[i], was, used) ==> Wrong(rs[i], cmds[i], mem, after)
    {
      Kept(rs[i], cmds[i], was, used, mem, after);
    }
  }

  lemma HoldsMore(rs: seq<Request>, cmds: seq<seq<Chunk>>, was: string, used: nat, rc: int, cmd: seq<Chunk>, mem: string, after: nat,
                  good: bool, wrong: nat) returns (position: nat)
    requires Sendable(rs) && |cmds| < |rs| && used <= |was| && Holds(rs, cmds, was, used, good, wrong)
    requires var r := rs[|cmds|]; FateOf(r, |was|, used) == Accepted(after) && Created(r, was, used, rc, cmd, mem, after)
    ensures Holds(rs, cmds + [cmd], mem, after, good && Fits(rs[|cmds|], |was| - used), position)
  {
    hide Right, Wrong, Named, Created, FateOf, Fits;
    var r, n := rs[|cmds|], |cmds|;
    OneMore(r, was, used, rc, cmd, mem, after);
    position := n;
    if used <= after && mem[..used] == was[..used] {
      HoldsKept(rs, cmds, was, used, mem, after, good, wrong);
      position := if good then n else wrong;
    } else {
      assert Wrong(rs[n], (cmds + [cmd])[n], mem, after);
    }
  }

  lemma HoldsMeans(rs: seq<Request>, cmds: seq<seq<Chunk>>, mem: string, used: nat, good: bool, wrong: nat)
    requires Sendable(rs) && |cmds| <= |rs| && Holds(rs, cmds, mem, used, good, wrong)
    ensures good <==> forall i :: 0 <= i < |cmds| ==> Sends(cmds[i], mem, EncodeAll(Command(rs[i])))
  {
    hide Right, Wrong, Named, Sends, EncodeAll, Command;
    forall i | 0 <= i < |cmds|
      ensures Right(rs[i], cmds[i], mem, used) ==> Sends(cmds[i], mem, EncodeAll(Command(rs[i])))
      ensures Wrong(rs[i], cmds[i], mem, used) ==> !Sends(cmds[i], mem, EncodeAll(Command(rs[i])))
    {
      RightSends(rs[i], cmds[i], mem, used);
      WrongIsWrong(rs[i], cmds[i], mem, used);
    }
  }

  /**
    The lists of several requests that share the send buffer: every one of them sends its command when
    all have been created, exactly if each fits the room that was left for it.
   */
  method CreateAll(buf: Buffer, rs: seq<Request>, parts: seq<seq<string>>) returns (cmds: seq<seq<Chunk>>)
    requires buf.Valid() && Sendable(rs) && |parts| == |rs|
    requires forall i :: 0 <= i < |rs| ==> Concat(parts[i]) == rs[i].value
    modifies buf, buf.data
    ensures buf.Valid() && |cmds| == Taken(rs, buf.data.Length, old(buf.available)) <= |rs|
    ensures (forall i :: 0 <= i < |cmds| ==> Sends(cmds[i], buf.data[..], EncodeAll(Command(rs[i]))))
      <==> TakenFit(rs, buf.data.Length, old(buf.available))
  {
    hide Created, Sends, Holds, Concat, Named, FateOf, Fits, EncodeAll, Command;
    ghost var size, start := buf.data.Length, buf.available;
    ghost var good, wrong, used := true, 0, start;
    cmds := [];
    assert rs[0..] == rs;
    NothingYet(rs, buf.data[..], start);
    while |cmds| < |rs|
      invariant |cmds| <= |rs| && buf.Valid() && buf.data.Length == size && buf.available == used
      invariant Taken(rs, size, start) == |cmds| + Taken(rs[|cmds|..], size, used)
      invariant TakenFit(rs, size, start) == (good && TakenFit(rs[|cmds|..], size, used))
      invariant Holds(rs, cmds, buf.data[..], used, good, wrong)
    {
      ghost var was := buf.data[..];
      var r := rs[|cmds|];
      var rc, cmd := Create(buf, r, parts[|cmds|]);
      assert rs[|cmds|..][0] == r && rs[|cmds|..][1..] == rs[|cmds| + 1..];
      CreatedCode(r, was, used, rc, cmd, buf.data[..], buf.available);
      if rc < 0 {
        HoldsKept(rs, cmds, was, used, buf.data[..], used, good, wrong);
        break;
      }
      wrong := HoldsMore(rs, cmds, was, used, rc, cmd, buf.data[..], buf.available, good, wrong);
      good, used := good && Fits(r, size - used), buf.available;
      cmds := cmds + [cmd];
    }
    HoldsMeans(rs, cmds, buf.data[..], used, good, wrong);
  }

  lemma NothingYet(rs: seq<Request>, mem: string, used: nat)
    requires Sendable(rs)
    ensures Holds(rs, [], mem, used, true, 0)
  {
  }

  // ---------- what one connection sends ----------

  /** The requests of one connection, by position, in the order in which they were created. */
  predicate Picks(picks: seq<nat>, n: nat) {
    forall i :: 0 <= i < |picks| ==> picks[i] < n
  }

  /** A connection collects the lists of its requests into one list. */
  function Joined(cmds: seq<seq<Chunk>>, picks: seq<nat>): seq<Chunk>
    requires Picks(picks, |cmds|)
  {
    if picks == [] then [] else cmds[picks[0]] + Joined(cmds, picks[1..])
  }

  ghost function AllCommands(rs: seq<Request>, picks: seq<nat>): seq<Reply>
    requires Sendable(rs) && Picks(picks, |rs|)
  {
    if picks == [] then [] else Command(rs[picks[0]]) + AllCommands(rs, picks[1..])
  }

  ghost function AllReplies(rs: seq<Request>, picks: seq<nat>): nat
    requires Sendable(rs) && Picks(picks, |rs|)
  {
    if picks == [] then 0 else StageOf(rs[picks[0]].op, rs[picks[0]].stage).respCnt + AllReplies(rs, picks[1..])
  }

  lemma {:induction false} EncodeAllAppend(a: seq<Reply>, b: seq<Reply>)
    ensures EncodeAll(a + b) == EncodeAll(a) + EncodeAll(b)
    decreases |a|
  {
    hide Encode;
    if a == [] {
      assert a + b == b;
    } else {
      assert (a + b)[1..] == a[1..] + b;
      EncodeAllAppend(a[1..], b);
    }
  }

  lemma {:induction false} WellFormedAppend(a: seq<Reply>, b: seq<Reply>)
    requires AllWellFormed(a) && AllWellFormed(b)
    ensures AllWellFormed(a + b)
    decreases |a|
  {
    hide WellFormed;
    if a == [] {
      assert a + b == b;
    } else {
      assert (a + b)[1..] == a[1..] + b;
      WellFormedAppend(a[1..], b);
    }
  }

  lemma SendsAppend(a: seq<Chunk>, b: seq<Chunk>, mem: string, x: string, y: string)
    requires Sends(a, mem, x) && Sends(b, mem, y)
    ensures Sends(a + b, mem, x + y)
  {
    hide Flatten, Lengths;
    FlattenAppend(a, b, mem);
    LengthsAppend(a, b);
  }

  lemma WordsWellFormed(ws: seq<string>)
    requires |ws| <= 10 && forall i :: 0 <= i < |ws| ==> |ws[i]| <= INT64_MAX
    ensures WellFormed(Words(ws))
  {
    CommandsRead.BulksWellFormed(ws);
  }

  /** A connection's list sends the commands of its requests one after another, as many as replies are waited for. */
  lemma {:induction false} ConnectionSends(rs: seq<Request>, cmds: seq<seq<Chunk>>, picks: seq<nat>, mem: string)
    requires Sendable(rs) && |cmds| <= |rs| && Picks(picks, |cmds|)
    requires forall i :: 0 <= i < |cmds| ==> Sends(cmds[i], mem, EncodeAll(Command(rs[i])))
    ensures Sends(Joined(cmds, picks), mem, EncodeAll(AllCommands(rs, picks)))
    ensures |AllCommands(rs, picks)| == AllReplies(rs, picks)
    decreases |picks|
  {
    hide Sends, EncodeAll, Command, Named, StageOf;
    if picks == [] {
      NothingSent(mem);
    } else {
      var r := rs[picks[0]];
      ConnectionSends(rs, cmds, picks[1..], mem);
      EncodeAllAppend(Command(r), AllCommands(rs, picks[1..]));
      SendsAppend(cmds[picks[0]], Joined(cmds, picks[1..]), mem, EncodeAll(Command(r)), EncodeAll(AllCommands(rs, picks[1..])));
      CommandsOnTheWire(r);
    }
  }

  lemma NothingSent(mem: string)
    ensures Sends([], mem, EncodeAll([]))
  {
  }

  // ---------- what Redis reads ----------

  lemma KeyedWellFormed(r: Request)
    requires HasStage(r.op, r.stage) && Named(r) && r.op in {Put, Get, Read, Remove, Move}
    ensures AllWellFormed(Command(r))
  {
    hide WellFormed, Decimal, Words;
    LongNumbers(r.index);
    match r.op
    case Put => WordsWellFormed(["RPUSH", Qualified(r.ns, r.key), r.value]);
    case Get => WordsWellFormed(["LPOP", Qualified(r.ns, r.key)]);
    case Read => WordsWellFormed(["LINDEX", Qualified(r.ns, r.key), Decimal(r.index)]);
    case Remove => WordsWellFormed(["DEL", Qualified(r.ns, r.key)]);
    case Move =>
      WordsWellFormed(["DUMP", Qualified(r.ns, r.key)]);
      WordsWellFormed(["RESTORE", Qualified(r.target, r.key), "0", r.dump]);
      WordsWellFormed(["DEL", Qualified(r.ns, r.key)]);
  }

  lemma NamespaceWellFormed(r: Request)
    requires HasStage(r.op, r.stage) && Named(r) && r.op in {NsQuery, NsCreate, NsAttach, NsDelete}
    ensures AllWellFormed(Command(r))
  {
    hide WellFormed, Words;
    match r.op
    case NsQuery => WordsWellFormed(["HGETALL", r.ns]);
    case NsCreate =>
      WordsWellFormed(["HSETNX", r.key, "id", r.key]);
      WordsWellFormed(["HMSET", r.key, "refcnt", "1", "groups", if r.groups.Some? then r.groups.value else "", "flags", "0"]);
    case NsAttach =>
      WordsWellFormed(["EXISTS", r.key]);
      WordsWellFormed(["HINCRBY", r.key, "refcnt", "1"]);
    case NsDelete =>
      WordsWellFormed(["HMGET", r.ns, "refcnt", "flags"]);
      WordsWellFormed(["HSET", r.ns, "flags", "1"]);
  }

  lemma ScanWellFormed(r: Request, pattern: string)
    requires HasStage(r.op, r.stage) && Named(r) && |pattern| <= MAX_TEXT
    ensures WellFormed(Scan(r, pattern))
  {
    hide WellFormed, Words;
    WordsWellFormed(["SCAN", if r.cursor.Some? then r.cursor.value else "0",
                     "MATCH", Qualified(r.ns, if pattern == "" then "*" else pattern), "COUNT", "10"]);
  }

  lemma ListWellFormed(r: Request)
    requires HasStage(r.op, r.stage) && Named(r) && r.op in {Directory, Iterator, NsDetach}
    ensures AllWellFormed(Command(r))
  {
    hide WellFormed, Words, Scan;
    ScanWellFormed(r, if r.op == NsDetach then "*" else r.pattern);
    WordsWellFormed(["HGETALL", r.ns]);
    if r.op == NsDetach && r.stage == 0 {
      var a, b, c, d := Words(["MULTI"]), Words(["HINCRBY", r.ns, "refcnt", "-1"]), Words(["HMGET", r.ns, "refcnt", "flags"]), Words(["EXEC"]);
      WordsWellFormed(["MULTI"]);
      WordsWellFormed(["HINCRBY", r.ns, "refcnt", "-1"]);
      WordsWellFormed(["HMGET", r.ns, "refcnt", "flags"]);
      WordsWellFormed(["EXEC"]);
      assert AllWellFormed([d]);
      assert [c, d][1..] == [d] && [b, c, d][1..] == [c, d] && [a, b, c, d][1..] == [b, c, d];
      assert AllWellFormed([c, d]);
      assert AllWellFormed([b, c, d]);
    } else {
      WordsWellFormed(["DEL", r.scanned]);
      WordsWellFormed(["DEL", r.ns]);
    }
  }

  lemma CommandWellFormed(r: Request)
    requires HasStage(r.op, r.stage) && Named(r)
    ensures AllWellFormed(Command(r))
  {
    hide Command, Named, AllWellFormed;
    if r.op in {Put, Get, Read, Remove, Move} {
      KeyedWellFormed(r);
    } else if r.op in {Directory, Iterator, NsDetach} {
      ListWellFormed(r);
    } else {
      NamespaceWellFormed(r);
    }
  }

  lemma {:induction false} AllCommandsWellFormed(rs: seq<Request>, picks: seq<nat>)
    requires Sendable(rs) && Picks(picks, |rs|)
    ensures AllWellFormed(AllCommands(rs, picks))
    decreases |picks|
  {
    hide Command, Named, WellFormed;
    if picks != [] {
      AllCommandsWellFormed(rs, picks[1..]);
      CommandWellFormed(rs[picks[0]]);
      WellFormedAppend(Command(rs[picks[0]]), AllCommands(rs, picks[1..]));
    }
  }

  /**
    What a connection sends, read as Redis reads it: as many arrays as replies are waited for, each
    holding the words of its command, and nothing after them.
   */
  lemma {:induction false} ConnectionIsRead(rs: seq<Request>, cmds: seq<seq<Chunk>>, picks: seq<nat>, mem: string)
    requires Sendable(rs) && |cmds| <= |rs| && Picks(picks, |cmds|)
    requires forall i :: 0 <= i < |cmds| ==> Sends(cmds[i], mem, EncodeAll(Command(rs[i])))
    ensures var sent, said := Flatten(Joined(cmds, picks), mem), AllCommands(rs, picks);
      && |sent| == Lengths(Joined(cmds, picks))
      && RespParser.ParseElements(sent, |sent|, 0, AllReplies(rs, picks)) == (0, RespParserWhole.ValuesOf(said, 0), |sent|)
  {
    hide Flatten, Lengths, Command, Named, StageOf, EncodeAll, RespParser.ParseElements, RespParserWhole.ValuesOf;
    hide AllCommands, AllReplies, Joined, AllWellFormed, Picks;
    PicksFit(picks, |cmds|, |rs|);
    ConnectionSends(rs, cmds, picks, mem);
    AllCommandsWellFormed(rs, picks);
    WholeIsRead(AllCommands(rs, picks));
  }

  lemma PicksFit(picks: seq<nat>, n: nat, m: nat)
    requires Picks(picks, n) && n <= m
    ensures Picks(picks, m)
  {
  }

  lemma WholeIsRead(said: seq<Reply>)
    requires AllWellFormed(said)
    ensures var sent := EncodeAll(said);
      RespParser.ParseElements(sent, |sent|, 0, |said|) == (0, RespParserWhole.ValuesOf(said, 0), |sent|)
  {
    hide EncodeAll, AllWellFormed, RespParser.ParseElements, RespParserWhole.ValuesOf;
    RespParserWhole.ElementsWhole(said, EncodeAll(said), |EncodeAll(said)|, 0);
  }
}
