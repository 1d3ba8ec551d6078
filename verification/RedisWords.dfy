/** From a request to what Redis does: the bytes of its template, the words a reader finds in them, their effect. */
module RedisWords {
  import opened Resp
  import opened Protocol
  import opened Commands
  import opened CommandsWire
  import opened CommandFits
  import opened Redis
  import Batch = CommandBatch
  import Parser = RespParser
  import Whole = RespParserWhole

  // ---------- reading words ----------

  function WordAt(m: string, v: Parser.Value): string {
    if v.VString? && v.off + v.len <= |m| then m[v.off..v.off + v.len] else ""
  }

  function WordsIn(m: string, vs: seq<Parser.Value>): (ws: seq<string>)
    ensures |ws| == |vs|
  {
    seq(|vs|, i requires 0 <= i < |vs| => WordAt(m, vs[i]))
  }

  /** The words of one command. */
  function WordsAt(m: string, v: Parser.Value): seq<string> {
    if v.VArray? then WordsIn(m, v.elems) else []
  }

  function AllWords(m: string, vs: seq<Parser.Value>): (wss: seq<seq<string>>)
    ensures |wss| == |vs|
  {
    seq(|vs|, i requires 0 <= i < |vs| => WordsAt(m, vs[i]))
  }

  /** The commands that are found in some bytes, if these are just that many arrays. */
  function Heard(bytes: string, n: nat): seq<seq<string>> {
    var (rc, vs, end) := Parser.ParseElements(bytes, |bytes|, 0, n);
    if rc == 0 && end == |bytes| then AllWords(bytes, vs) else []
  }

  // ---------- what was said is heard ----------

  predicate IsCommand(r: Reply) {
    r.Array? && forall i :: 0 <= i < |r.elems| ==> r.elems[i].Bulk?
  }

  function WordsOf(r: Reply): seq<string>
    requires IsCommand(r)
  {
    seq(|r.elems|, i requires 0 <= i < |r.elems| => r.elems[i].bytes)
  }

  predicate AreCommands(rs: seq<Reply>) {
    forall i :: 0 <= i < |rs| ==> IsCommand(rs[i])
  }

  function Said(rs: seq<Reply>): seq<seq<string>>
    requires AreCommands(rs)
  {
    seq(|rs|, i requires 0 <= i < |rs| => WordsOf(rs[i]))
  }

  lemma WordIsRead(m: string, p: nat, bytes: string)
    requires Whole.Holds(m, p, Encode(Bulk(bytes)))
    ensures WordAt(m, Whole.ValueOf(Bulk(bytes), p)) == bytes
  {
    hide BulkHead, Whole.Holds;
    Whole.HoldsParts(m, p, BulkHead(|bytes|) + bytes, CRLF);
    Whole.HoldsParts(m, p, BulkHead(|bytes|), bytes);
    SliceHeld(m, p + |BulkHead(|bytes|)|, bytes);
  }

  lemma SliceHeld(m: string, p: nat, s: string)
    requires Whole.Holds(m, p, s)
    ensures p + |s| <= |m| && m[p..p + |s|] == s
  {
  }

  lemma {:induction false} WordsAreRead(m: string, p: nat, elems: seq<Reply>)
    requires (forall i :: 0 <= i < |elems| ==> elems[i].Bulk?) && Whole.Holds(m, p, EncodeAll(elems))
    ensures WordsIn(m, Whole.ValuesOf(elems, p)) == WordsOf(Array(elems))
    decreases |elems|
  {
    hide Encode, Whole.Holds, WordAt, Whole.ValueOf;
    if elems != [] {
      var q := p + |Encode(elems[0])|;
      Whole.HoldsParts(m, p, Encode(elems[0]), EncodeAll(elems[1..]));
      WordIsRead(m, p, elems[0].bytes);
      WordsAreRead(m, q, elems[1..]);
      var vs := Whole.ValuesOf(elems, p);
      assert vs[1..] == Whole.ValuesOf(elems[1..], q);
      assert WordsIn(m, vs) == [WordAt(m, vs[0])] + WordsIn(m, vs[1..]);
      assert WordsOf(Array(elems)) == [elems[0].bytes] + WordsOf(Array(elems[1..]));
    }
  }

  lemma CommandIsRead(m: string, p: nat, r: Reply)
    requires IsCommand(r) && Whole.Holds(m, p, Encode(r))
    ensures WordsAt(m, Whole.ValueOf(r, p)) == WordsOf(r)
  {
    hide ArrayHead, Whole.Holds, EncodeAll, Whole.ValuesOf, WordsIn, WordsOf;
    var head := ArrayHead(|r.elems|);
    Whole.HoldsParts(m, p, head, EncodeAll(r.elems));
    WordsAreRead(m, p + |head|, r.elems);
  }

  lemma {:induction false} CommandsAreRead(m: string, p: nat, rs: seq<Reply>)
    requires AreCommands(rs) && Whole.Holds(m, p, EncodeAll(rs))
    ensures AllWords(m, Whole.ValuesOf(rs, p)) == Said(rs)
    decreases |rs|
  {
    hide Encode, Whole.Holds, WordsAt, Whole.ValueOf, WordsOf, IsCommand;
    if rs != [] {
      var q := p + |Encode(rs[0])|;
      Whole.HoldsParts(m, p, Encode(rs[0]), EncodeAll(rs[1..]));
      CommandIsRead(m, p, rs[0]);
      CommandsAreRead(m, q, rs[1..]);
      var vs := Whole.ValuesOf(rs, p);
      assert vs[1..] == Whole.ValuesOf(rs[1..], q);
      assert AllWords(m, vs) == [WordsAt(m, vs[0])] + AllWords(m, vs[1..]);
      assert Said(rs) == [WordsOf(rs[0])] + Said(rs[1..]);
    }
  }

  /** A reader of the bytes of commands hears just these commands. */
  lemma HeardIsSaid(rs: seq<Reply>)
    requires AreCommands(rs) && AllWellFormed(rs)
    ensures Heard(EncodeAll(rs), |rs|) == Said(rs)
  {
    hide EncodeAll, AllWellFormed, Parser.ParseElements, Whole.ValuesOf, AllWords, Said, IsCommand;
    var m := EncodeAll(rs);
    Whole.ElementsWhole(rs, m, |m|, 0);
    CommandsAreRead(m, 0, rs);
  }

  // ---------- requests ----------

  /** The bytes that the template of a stage gives, with the value of a put behind them. */
  function SentBytes(r: Request): string
    requires HasStage(r.op, r.stage)
  {
    var spec := StageOf(r.op, r.stage);
    TemplatesAreSound(r.op, r.stage);
    PlacesFit(spec);
    match Expand(Template(spec.template), spec.arrayLen, Present(Args(r)))
    case Expanded(bytes) => bytes + Tail(r)
    case BadMessage => ""
  }

  lemma PlacesFit(spec: StageSpec)
    requires Sound(spec)
    ensures PlacesBelow(spec.template, 10)
  {
  }

  lemma SentIsCommand(r: Request)
    requires HasStage(r.op, r.stage)
    ensures SentBytes(r) == EncodeAll(Command(r)) && |Command(r)| == StageOf(r.op, r.stage).respCnt
  {
    hide Command, Args, Expand, Template, EncodeAll, Tail, StageOf, Sound;
    CommandsOnTheWire(r);
  }

  lemma WordsBack(ws: seq<string>)
    ensures IsCommand(Words(ws)) && WordsOf(Words(ws)) == ws
  {
  }

  lemma AllAreCommands(r: Request)
    requires HasStage(r.op, r.stage)
    ensures AreCommands(Command(r))
  {
    hide Qualified, Decimal;
  }

  /** What Redis hears of a stage, answered on a fresh connection. */
  function Effect(sv: Server, db: Store, r: Request): Served
    requires HasStage(r.op, r.stage)
  {
    ServeAll(sv, Direct, db, Heard(SentBytes(r), StageOf(r.op, r.stage).respCnt))
  }

  lemma EffectIsSaid(sv: Server, db: Store, r: Request)
    requires HasStage(r.op, r.stage) && Named(r)
    ensures AreCommands(Command(r)) && Effect(sv, db, r) == ServeAll(sv, Direct, db, Said(Command(r)))
  {
    hide Command, SentBytes, EncodeAll, Heard, Said, ServeAll, Named, StageOf, AllWellFormed, AreCommands;
    SentIsCommand(r);
    AllAreCommands(r);
    Batch.CommandWellFormed(r);
    HeardIsSaid(Command(r));
  }

  /** A stage of a single command, of these words. */
  lemma EffectOne(sv: Server, db: Store, r: Request, ws: seq<string>)
    requires HasStage(r.op, r.stage) && Named(r) && Command(r) == [Words(ws)]
    requires ws != ["MULTI"] && ws != ["EXEC"]
    ensures var (after, reply) := Execute(sv, db, ws); Effect(sv, db, r) == Served(Direct, after, [reply])
  {
    hide Execute, Command, Effect, Named, Words, WordsOf, IsCommand;
    EffectIsSaid(sv, db, r);
    WordsBack(ws);
    assert Said(Command(r)) == [ws];
    assert [ws][1..] == [];
  }
}
