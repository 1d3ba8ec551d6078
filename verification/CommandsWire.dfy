/** Every stage of every request puts exactly its Redis commands on the wire. */
module CommandsWire {
  import opened Resp
  import opened Protocol
  import opened Commands

  // ---------- the texts of the table ----------

  lemma Heads()
    ensures ArrayHead(1) == "*1\r\n" && ArrayHead(2) == "*2\r\n" && ArrayHead(3) == "*3\r\n"
    ensures ArrayHead(4) == "*4\r\n" && ArrayHead(6) == "*6\r\n" && ArrayHead(8) == "*8\r\n"
  {
  }

  lemma Word(w: string, s: string, args: seq<string>)
    requires 0 < |w| < 10 && s == "$" + [Digit(|w|)] + "\r\n" + w + "\r\n"
    ensures Says(Text(s), args, w)
  {
  }

  lemma Single(w: Reply)
    ensures EncodeAll([w]) == Encode(w)
  {
    assert [w][1..] == [];
    assert EncodeAll([]) == "";
  }

  lemma SaysPlace(i: nat, args: seq<string>, w: string)
    requires i < |args| && args[i] == BulkText(w)
    ensures Says(Place(i), args, w)
  {
  }

  // ---------- one lemma for each template ----------

  lemma FillsVerb(w: string, s: string, key: string, args: seq<string>)
    requires 0 < |w| < 10 && s == "$" + [Digit(|w|)] + "\r\n" + w + "\r\n"
    requires args == [BulkText(key)]
    ensures Fill([Text("*2\r\n"), Text(s), Place(0)], args) == Encode(Words([w, key]))
  {
    hide Says, Fill, BulkText, Words;
    Heads();
    Word(w, s, args);
    SaysPlace(0, args, key);
    OneCommand([Text("*2\r\n"), Text(s), Place(0)], args, [w, key]);
  }

  lemma FillsRead(key: string, index: string, args: seq<string>)
    requires args == [BulkText(key), BulkText(index)]
    ensures Fill(StageOf(Read, 0).template, args) == Encode(Words(["LINDEX", key, index]))
  {
    hide Says, Fill, BulkText, Words;
    Heads();
    Word("LINDEX", "$6\r\nLINDEX\r\n", args);
    SaysPlace(0, args, key);
    SaysPlace(1, args, index);
    OneCommand(StageOf(Read, 0).template, args, ["LINDEX", key, index]);
  }

  /** HSETNX and HSET. */
  lemma FillsSet(w: string, s: string, key: string, field: string, value: string, args: seq<string>)
    requires 0 < |w| < 10 && s == "$" + [Digit(|w|)] + "\r\n" + w + "\r\n"
    requires args == [BulkText(key), BulkText(field), BulkText(value)]
    ensures Fill([Text("*4\r\n"), Text(s), Place(0), Place(1), Place(2)], args) == Encode(Words([w, key, field, value]))
  {
    hide Says, Fill, BulkText, Words;
    Heads();
    Word(w, s, args);
    SaysPlace(0, args, key);
    SaysPlace(1, args, field);
    SaysPlace(2, args, value);
    OneCommand([Text("*4\r\n"), Text(s), Place(0), Place(1), Place(2)], args, [w, key, field, value]);
  }

  lemma FillsCreate(key: string, groups: string, args: seq<string>)
    requires args == [BulkText(key), BulkText("refcnt"), BulkText("1"), BulkText("groups"), BulkText(groups),
                      BulkText("flags"), BulkText("0")]
    ensures Fill(StageOf(NsCreate, 1).template, args)
         == Encode(Words(["HMSET", key, "refcnt", "1", "groups", groups, "flags", "0"]))
  {
    hide Says, Fill, BulkText, Words;
    Heads();
    Word("HMSET", "$5\r\nHMSET\r\n", args);
    SaysPlace(0, args, key);
    SaysPlace(1, args, "refcnt");
    SaysPlace(2, args, "1");
    SaysPlace(3, args, "groups");
    SaysPlace(4, args, groups);
    SaysPlace(5, args, "flags");
    SaysPlace(6, args, "0");
    OneCommand(StageOf(NsCreate, 1).template, args, ["HMSET", key, "refcnt", "1", "groups", groups, "flags", "0"]);
  }

  lemma FillsIncrement(key: string, step: string, args: seq<string>)
    requires args == [BulkText(key), BulkText(step)]
    ensures Fill([Text("*4\r\n"), Text("$7\r\nHINCRBY\r\n"), Place(0), Text("$6\r\nrefcnt\r\n"), Place(1)], args)
         == Encode(Words(["HINCRBY", key, "refcnt", step]))
  {
    hide Says, Fill, BulkText, Words;
    Heads();
    Word("HINCRBY", "$7\r\nHINCRBY\r\n", args);
    SaysPlace(0, args, key);
    Word("refcnt", "$6\r\nrefcnt\r\n", args);
    SaysPlace(1, args, step);
    OneCommand([Text("*4\r\n"), Text("$7\r\nHINCRBY\r\n"), Place(0), Text("$6\r\nrefcnt\r\n"), Place(1)], args,
               ["HINCRBY", key, "refcnt", step]);
  }

  lemma FillsQuery(key: string, args: seq<string>)
    requires args == [BulkText(key)] || args == [BulkText(key), BulkText("-1")]
    ensures Fill([Text("*4\r\n"), Text("$5\r\nHMGET\r\n"), Place(0), Text("$6\r\nrefcnt\r\n"), Text("$5\r\nflags\r\n")], args)
         == Encode(Words(["HMGET", key, "refcnt", "flags"]))
  {
    hide Says, Fill, BulkText, Words;
    Heads();
    Word("HMGET", "$5\r\nHMGET\r\n", args);
    SaysPlace(0, args, key);
    Word("refcnt", "$6\r\nrefcnt\r\n", args);
    Word("flags", "$5\r\nflags\r\n", args);
    OneCommand([Text("*4\r\n"), Text("$5\r\nHMGET\r\n"), Place(0), Text("$6\r\nrefcnt\r\n"), Text("$5\r\nflags\r\n")], args,
               ["HMGET", key, "refcnt", "flags"]);
  }

  lemma FillsScan(cursor: string, pattern: string, args: seq<string>)
    requires args == [BulkText(cursor), BulkText(pattern)]
    ensures Fill(SCAN_TEMPLATE, args) == Encode(Words(["SCAN", cursor, "MATCH", pattern, "COUNT", "10"]))
  {
    hide Says, Fill, BulkText, Words;
    Heads();
    Word("SCAN", "$4\r\nSCAN\r\n", args);
    SaysPlace(0, args, cursor);
    Word("MATCH", "$5\r\nMATCH\r\n", args);
    SaysPlace(1, args, pattern);
    Word("COUNT", "$5\r\nCOUNT\r\n", args);
    Word("10", "$2\r\n10\r\n", args);
    OneCommand(SCAN_TEMPLATE, args, ["SCAN", cursor, "MATCH", pattern, "COUNT", "10"]);
  }

  lemma FillsBare(w: string, s: string, args: seq<string>)
    requires 0 < |w| < 10 && s == "$" + [Digit(|w|)] + "\r\n" + w + "\r\n"
    ensures Fill([Text("*1\r\n"), Text(s)], args) == Encode(Words([w]))
  {
    hide Says, Fill, BulkText, Words;
    Heads();
    Word(w, s, args);
    OneCommand([Text("*1\r\n"), Text(s)], args, [w]);
  }

  /** The check of a detach is a transaction of four commands. */
  lemma FillsDelCheck(key: string, args: seq<string>)
    requires args == [BulkText(key), BulkText("-1")]
    ensures Fill(DELCHECK_TEMPLATE, args)
         == Encode(Words(["MULTI"])) + (Encode(Words(["HINCRBY", key, "refcnt", "-1"]))
            + (Encode(Words(["HMGET", key, "refcnt", "flags"])) + Encode(Words(["EXEC"]))))
  {
    hide Fill, BulkText, Words, Encode;
    var a: seq<Piece> := [Text("*1\r\n"), Text("$5\r\nMULTI\r\n")];
    var b: seq<Piece> := [Text("*4\r\n"), Text("$7\r\nHINCRBY\r\n"), Place(0), Text("$6\r\nrefcnt\r\n"), Place(1)];
    var c: seq<Piece> := [Text("*4\r\n"), Text("$5\r\nHMGET\r\n"), Place(0), Text("$6\r\nrefcnt\r\n"), Text("$5\r\nflags\r\n")];
    var d: seq<Piece> := [Text("*1\r\n"), Text("$4\r\nEXEC\r\n")];
    assert DELCHECK_TEMPLATE == a + (b + (c + d));
    FillsBare("MULTI", "$5\r\nMULTI\r\n", args);
    FillsIncrement(key, "-1", args);
    FillsQuery(key, args);
    FillsBare("EXEC", "$4\r\nEXEC\r\n", args);
    FillAppend(c, d, args);
    FillAppend(b, c + d, args);
    FillAppend(a, b + (c + d), args);
  }

  /** Leading pieces that say words, under the array head of a longer command. */
  lemma FillsFront(n: nat, ps: seq<Piece>, args: seq<string>, ws: seq<string>)
    requires |ps| == |ws| + 1 && PlacesBelow(ps, |args|) && ps[0] == Text(ArrayHead(n))
    requires forall k :: 0 <= k < |ws| ==> Says(ps[k + 1], args, ws[k])
    ensures Fill(ps, args) == ArrayHead(n) + BulkTexts(ws)
  {
    hide Says, BulkTexts, ArrayHead;
    var rest := ps[1..];
    forall k | 0 <= k < |ws|
      ensures Says(rest[k], args, ws[k])
    {
      assert rest[k] == ps[k + 1];
    }
    FillBulks(rest, args, ws);
  }

  lemma FrontAndLast(ws: seq<string>, w: string)
    ensures ArrayHead(|ws| + 1) + BulkTexts(ws) + BulkText(w) == Encode(Words(ws + [w]))
  {
    hide BulkTexts, BulkText, ArrayHead;
    BulkTextsSnoc(ws, w);
    EncodeBulks(ws + [w]);
  }

  /** A put leaves its last place empty; length prefix, value and line end follow the template. */
  lemma FillsPut(key: string, value: string, args: seq<string>)
    requires args == [BulkText(key), ""]
    ensures Fill(StageOf(Put, 0).template, args) + BulkText(value) == Encode(Words(["RPUSH", key, value]))
  {
    hide Says, BulkText, Words, Encode, BulkTexts, Fill;
    Heads();
    var front: seq<Piece> := [Text("*3\r\n"), Text("$5\r\nRPUSH\r\n"), Place(0)];
    Word("RPUSH", "$5\r\nRPUSH\r\n", args);
    SaysPlace(0, args, key);
    FillsFront(3, front, args, ["RPUSH", key]);
    FillAppend(front, [Place(1)], args);
    assert StageOf(Put, 0).template == front + [Place(1)];
    FillsLast(args);
    FrontAndLast(["RPUSH", key], value);
    assert ["RPUSH", key] + [value] == ["RPUSH", key, value];
  }

  /** The dumped value of a move is split over two places and a line end. */
  lemma FillsRestore(key: string, dump: string, args: seq<string>)
    requires args == [BulkText(key), BulkHead(|dump|), dump]
    ensures Fill(StageOf(Move, 1).template, args) == Encode(Words(["RESTORE", key, "0", dump]))
  {
    hide Says, BulkHead, Words, Encode, BulkTexts, Fill;
    Heads();
    var front: seq<Piece> := [Text("*4\r\n"), Text("$7\r\nRESTORE\r\n"), Place(0), Text("$1\r\n0\r\n")];
    var back: seq<Piece> := [Place(1), Place(2), Text("\r\n")];
    Word("RESTORE", "$7\r\nRESTORE\r\n", args);
    SaysPlace(0, args, key);
    Word("0", "$1\r\n0\r\n", args);
    FillsFront(4, front, args, ["RESTORE", key, "0"]);
    FillAppend(front, back, args);
    assert StageOf(Move, 1).template == front + back;
    FillsSplit(args);
    FrontAndLast(["RESTORE", key, "0"], dump);
    assert ["RESTORE", key, "0"] + [dump] == ["RESTORE", key, "0", dump];
  }

  lemma FillsLast(args: seq<string>)
    requires |args| == 2
    ensures Fill([Place(1)], args) == args[1]
  {
    assert [Place(1)][1..] == [];
  }

  lemma FillsSplit(args: seq<string>)
    requires |args| == 3
    ensures Fill([Place(1), Place(2), Text("\r\n")], args) == args[1] + args[2] + "\r\n"
  {
    var a: seq<Piece> := [Place(1), Place(2), Text("\r\n")];
    assert a[1..] == [Place(2), Text("\r\n")];
    assert a[1..][1..] == [Text("\r\n")];
    assert a[1..][1..][1..] == [];
    assert Fill(a[1..][1..], args) == "\r\n";
    assert Fill(a[1..], args) == args[2] + "\r\n";
  }

  // ---------- every stage ----------

  ghost predicate Sound(spec: StageSpec) {
    PlainPieces(spec.template) && PlacesBelow(spec.template, spec.arrayLen) && spec.arrayLen <= 10
  }

  lemma ScanIsPlain()
    ensures PlainPieces(SCAN_TEMPLATE)
  {
    forall k | 0 <= k < |SCAN_TEMPLATE| && SCAN_TEMPLATE[k].Text?
      ensures Plain(SCAN_TEMPLATE[k].s)
    {
    }
  }

  lemma PlainAppend(a: seq<Piece>, b: seq<Piece>)
    requires PlainPieces(a) && PlainPieces(b)
    ensures PlainPieces(a + b)
  {
    hide Plain;
  }

  lemma DelCheckIsPlain()
    ensures PlainPieces(DELCHECK_TEMPLATE)
  {
    hide PlainPieces;
    var a, b := DELCHECK_TEMPLATE[..7], DELCHECK_TEMPLATE[7..];
    PlainFront();
    PlainBack();
    PlainAppend(a, b);
    assert DELCHECK_TEMPLATE == a + b;
  }

  lemma PlainFront()
    ensures PlainPieces(DELCHECK_TEMPLATE[..7])
  {
    var a := DELCHECK_TEMPLATE[..7];
    assert a == [Text("*1\r\n"), Text("$5\r\nMULTI\r\n"),
                 Text("*4\r\n"), Text("$7\r\nHINCRBY\r\n"), Place(0), Text("$6\r\nrefcnt\r\n"), Place(1)];
  }

  lemma PlainBack()
    ensures PlainPieces(DELCHECK_TEMPLATE[7..])
  {
    var b := DELCHECK_TEMPLATE[7..];
    assert b == [Text("*4\r\n"), Text("$5\r\nHMGET\r\n"), Place(0), Text("$6\r\nrefcnt\r\n"), Text("$5\r\nflags\r\n"),
                 Text("*1\r\n"), Text("$4\r\nEXEC\r\n")];
  }

  lemma TuplesArePlain(op: Opcode, stage: nat)
    requires HasStage(op, stage) && op in {Put, Get, Read, Remove}
    ensures Sound(StageOf(op, stage))
  {
  }

  lemma MovesArePlain(stage: nat)
    requires stage < 3
    ensures Sound(StageOf(Move, stage))
  {
  }

  lemma CreateIsPlain(stage: nat)
    requires stage < 2
    ensures Sound(StageOf(NsCreate, stage))
  {
  }

  lemma NamespacesArePlain(op: Opcode, stage: nat)
    requires HasStage(op, stage) && op in {NsQuery, NsAttach}
    ensures Sound(StageOf(op, stage))
  {
  }

  lemma DeletesArePlain(stage: nat)
    requires stage < 2
    ensures Sound(StageOf(NsDelete, stage))
  {
  }

  lemma ScansArePlain(op: Opcode, stage: nat)
    requires HasStage(op, stage) && op in {Directory, NsDetach, Iterator}
    ensures Sound(StageOf(op, stage))
  {
    ScanIsPlain();
    DelCheckIsPlain();
  }

  /** Only the places of a template hold '%', and they name arguments that the stage has. */
  lemma TemplatesAreSound(op: Opcode, stage: nat)
    requires HasStage(op, stage)
    ensures Sound(StageOf(op, stage))
  {
    hide Sound, StageOf;
    if op in {Directory, NsDetach, Iterator} {
      ScansArePlain(op, stage);
    } else if op == NsCreate {
      CreateIsPlain(stage);
    } else if op in {NsQuery, NsAttach} {
      NamespacesArePlain(op, stage);
    } else if op == NsDelete {
      DeletesArePlain(stage);
    } else if op == Move {
      MovesArePlain(stage);
    } else {
      TuplesArePlain(op, stage);
    }
  }

  ghost predicate Filled(r: Request)
    requires HasStage(r.op, r.stage)
  {
    var spec := StageOf(r.op, r.stage);
    && PlacesBelow(spec.template, spec.arrayLen)
    && Fill(spec.template, Args(r)) + Tail(r) == EncodeAll(Command(r))
    && |Command(r)| == spec.respCnt
  }

  lemma FilledTuple(r: Request)
    requires r.op in {Put, Get, Read, Remove} && r.stage == 0
    ensures Filled(r)
  {
    hide IndexText, Fill, BulkText, Words, Encode, EncodeAll;
    Single(Command(r)[0]);
    match r.op
    case Put => FillsPut(Key(r), r.value, Args(r));
    case Get => FillsVerb("LPOP", "$4\r\nLPOP\r\n", Key(r), Args(r));
    case Read =>
      IndexTextIsBulk(r.index);
      FillsRead(Key(r), Decimal(r.index), Args(r));
    case Remove => FillsVerb("DEL", "$3\r\nDEL\r\n", Key(r), Args(r));
  }

  lemma FilledScan(r: Request)
    requires HasStage(r.op, r.stage) && IsScan(r)
    ensures Filled(r)
  {
    hide Fill, BulkText, Words, Encode, EncodeAll, Qualified;
    Single(Command(r)[0]);
    FillsScan(if r.cursor.Some? then r.cursor.value else "0", Key(r), Args(r));
  }

  lemma FilledMove(r: Request)
    requires r.op == Move && r.stage < 3
    ensures Filled(r)
  {
    hide Fill, Words, Encode, EncodeAll, Qualified, BulkText;
    Single(Command(r)[0]);
    match r.stage
    case 0 => FillsVerb("DUMP", "$4\r\nDUMP\r\n", Key(r), Args(r));
    case 1 => FillsRestore(Key(r), r.dump, Args(r));
    case 2 => FillsVerb("DEL", "$3\r\nDEL\r\n", Key(r), Args(r));
  }

  lemma FilledNamespace(r: Request)
    requires HasStage(r.op, r.stage) && !IsScan(r)
    requires r.op in {Directory, NsQuery, NsAttach}
    ensures Filled(r)
  {
    hide Fill, Words, Encode, EncodeAll, BulkText;
    Single(Command(r)[0]);
    match r.op
    case Directory => FillsVerb("HGETALL", "$7\r\nHGETALL\r\n", Key(r), Args(r));
    case NsQuery => FillsVerb("HGETALL", "$7\r\nHGETALL\r\n", Key(r), Args(r));
    case NsAttach =>
      if r.stage == 0 {
        FillsVerb("EXISTS", "$6\r\nEXISTS\r\n", Key(r), Args(r));
      } else {
        FillsIncrement(Key(r), "1", Args(r));
      }
  }

  lemma FilledDelete(r: Request)
    requires r.op == NsDelete && r.stage < 2
    ensures Filled(r)
  {
    hide Fill, Words, Encode, EncodeAll, BulkText;
    Single(Command(r)[0]);
    if r.stage == 0 {
      FillsQuery(Key(r), Args(r));
    } else {
      FillsSet("HSET", "$4\r\nHSET\r\n", Key(r), "flags", "1", Args(r));
    }
  }

  lemma FilledCreate(r: Request)
    requires r.op == NsCreate && r.stage < 2
    ensures Filled(r)
  {
    hide Fill, Words, Encode, EncodeAll, BulkText;
    Single(Command(r)[0]);
    if r.stage == 0 {
      FillsSet("HSETNX", "$6\r\nHSETNX\r\n", Key(r), "id", r.key, Args(r));
    } else {
      FillsCreate(Key(r), if r.groups.Some? then r.groups.value else "", Args(r));
    }
  }

  lemma FilledDetach(r: Request)
    requires r.op == NsDetach && r.stage in {0, 2, 3}
    ensures Filled(r)
  {
    hide Fill, Words, Encode, EncodeAll, BulkText;
    if r.stage == 0 {
      FillsDelCheck(Key(r), Args(r));
      Four(Command(r)[0], Command(r)[1], Command(r)[2], Command(r)[3]);
    } else {
      Single(Command(r)[0]);
      FillsVerb("DEL", "$3\r\nDEL\r\n", Key(r), Args(r));
    }
  }

  lemma Four(a: Reply, b: Reply, c: Reply, d: Reply)
    ensures EncodeAll([a, b, c, d]) == Encode(a) + (Encode(b) + (Encode(c) + Encode(d)))
  {
    hide Encode;
    Single(d);
    assert [a, b, c, d][1..] == [b, c, d];
    assert [b, c, d][1..] == [c, d];
    assert [c, d][1..] == [d];
    assert EncodeAll([c, d]) == Encode(c) + Encode(d);
    assert EncodeAll([b, c, d]) == Encode(b) + (Encode(c) + Encode(d));
  }

  lemma EveryStageFilled(r: Request)
    requires HasStage(r.op, r.stage)
    ensures Filled(r)
  {
    hide Filled;
    if IsScan(r) {
      FilledScan(r);
    } else if r.op == Move {
      FilledMove(r);
    } else if r.op == NsDetach {
      FilledDetach(r);
    } else if r.op == NsCreate {
      FilledCreate(r);
    } else if r.op in {Put, Get, Read, Remove} {
      FilledTuple(r);
    } else if r.op == NsDelete {
      FilledDelete(r);
    } else {
      FilledNamespace(r);
    }
  }

  /**
    Expanding the template of a stage with its arguments gives the bytes of exactly the commands
    that the stage stands for, and as many commands as replies are waited for.
   */
  lemma CommandsOnTheWire(r: Request)
    requires HasStage(r.op, r.stage)
    ensures var spec := StageOf(r.op, r.stage);
      && PlacesBelow(spec.template, 10)
      && var e := Expand(Template(spec.template), spec.arrayLen, Present(Args(r)));
         && e.Expanded?
         && e.bytes + Tail(r) == EncodeAll(Command(r))
    ensures |Command(r)| == StageOf(r.op, r.stage).respCnt
  {
    hide Command, Args, Expand, Template, Fill, EncodeAll, Tail;
    EveryStageFilled(r);
    TemplatesAreSound(r.op, r.stage);
    ExpandFills(StageOf(r.op, r.stage).template, StageOf(r.op, r.stage).arrayLen, Args(r));
  }
}
