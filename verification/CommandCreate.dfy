/** Creating the command of a request in the send buffer, and exactly when the list that results sends that command. */
module CommandCreate {
  import opened Definitions
  import opened Resp
  import opened Protocol
  import opened Commands
  import opened CommandsWire
  import opened SrBuffer
  import opened CommandBuilder
  import opened CommandFits

  /**
    What creating a command leaves behind: the error of its fate; or a list that sends the commands of
    the request exactly if all of it fits. Unless a put overflows and is
    accepted, what the buffer held stays, and the list lies behind it.
   */
  ghost predicate Created(r: Request, was: string, used: nat, rc: int, cmd: seq<Chunk>, mem: string, available: nat)
    requires HasStage(r.op, r.stage) && used <= |was|
  {
    && |mem| == |was|
    && (!Overflows(r, |was| - used) || rc < 0 ==> mem[..used] == was[..used])
    && match FateOf(r, |was|, used)
       case Refused(code) => rc == code
       case Accepted(after) =>
         && rc == |cmd| && available == after
         && (Sends(cmd, mem, EncodeAll(Command(r))) <==> Fits(r, |was| - used))
         && (if Overflows(r, |was| - used) then Lengths(cmd) != |EncodeAll(Command(r))| else Within(cmd, used, after))
  }

  // ---------- printing the key ----------

  /** The text of a key is printed behind what the buffer holds; it is held intact exactly if it is below its limit. */
  method CreateKey(buf: Buffer, r: Request) returns (rc: int, chunk: Chunk)
    requires buf.Valid() && HasStage(r.op, r.stage) && Named(r) && !IsScan(r)
    modifies buf, buf.data
    ensures buf.Valid() && buf.data[..old(buf.available)] == old(buf.data[..buf.available])
    ensures var room := buf.data.Length - old(buf.available);
      rc == if Checked(r) && KeySize(r) >= KeyRoom(room) then 0 - EMSGSIZE else if KeySize(r) > room then 0 - E2BIG else 0
    ensures rc == 0 - EMSGSIZE ==> buf.available == old(buf.available)
    ensures rc == 0 ==>
      && chunk == InBuffer(old(buf.available), KeySize(r)) && buf.available == old(buf.available) + KeySize(r)
      && (Content(chunk, buf.data[..]) == BulkText(Key(r)) <==> KeySize(r) < KeyRoom(buf.data.Length - old(buf.available)))
  {
    hide Printed, Content, BulkText, Key, Prefix, Name, KeyText, NoNul, Named;
    ghost var was := buf.data[..];
    var pos := buf.available;
    var room := buf.data.Length - pos;
    var size := KeyRoom(room);
    var text := KeyText(Prefix(r), Name(r), size);
    KeyIsSplit(r);
    KeyTextMeasured(Prefix(r), Name(r), size);
    KeyNoNul(r);
    KeyTextPrintable(Prefix(r), Name(r), size);
    Print(buf, size, text);
    PrintedPrefix(was, buf.data[..], pos, size, text);
    assert buf.data[..pos] == buf.data[..][..pos] && was[..pos] == old(buf.data[..pos]);
    chunk := InBuffer(pos, |text|);
    if Checked(r) && |text| >= size {
      return 0 - EMSGSIZE, chunk;
    }
    var added := buf.AddData(|text|, true);
    if added != |text| {
      return 0 - E2BIG, chunk;
    }
    PrintedText(was, buf.data[..], pos, size, text);
    rc := 0;
  }

  // ---------- gathering ----------

  function Somes(cs: seq<Chunk>): seq<Option<Chunk>> {
    seq(|cs|, i requires 0 <= i < |cs| => Some(cs[i]))
  }

  /** The command is gathered from chunks that are not too long; it is right exactly if they are. */
  method Gather(buf: Buffer, r: Request, args: seq<Chunk>, ghost from: nat, ghost to: nat) returns (rc: int, cmd: seq<Chunk>)
    requires HasStage(r.op, r.stage) && r.op != Put && NoLonger(Contents(args, buf.data[..]), Args(r))
    requires Within(args, from, to) && to <= buf.data.Length
    ensures rc == |cmd| && Within(cmd, from, to)
    ensures Sends(cmd, buf.data[..], EncodeAll(Command(r))) <==> Contents(args, buf.data[..]) == Args(r)
  {
    hide Command, Args, Expand, Template, Flatten, Content, StageOf, SCAN_TEMPLATE, DELCHECK_TEMPLATE, EncodeAll;
    hide NoLonger;
    ghost var mem := buf.data[..];
    GatheredIff(r, Contents(args, mem));
    ArgsCounted(r);
    SameCount(Contents(args, mem), Args(r));
    var spec := StageOf(r.op, r.stage);
    assert Given(Somes(args), mem) == Present(Contents(args, mem));
    rc, cmd := CreateSgeN(Template(spec.template), spec.arrayLen, Somes(args), mem);
    Gathered(cmd, args, from, to);
    WithinLengths(cmd, from, to, mem);
  }

  lemma Gathered(cmd: seq<Chunk>, args: seq<Chunk>, from: nat, to: nat)
    requires Within(args, from, to) && forall c :: c in cmd ==> c.Bytes? || Some(c) in Somes(args)
    ensures Within(cmd, from, to)
  {
    forall i | 0 <= i < |cmd| && cmd[i].InBuffer?
      ensures from <= cmd[i].pos && cmd[i].pos + cmd[i].len <= to
    {
      assert cmd[i] in cmd;
      var k :| 0 <= k < |args| && Somes(args)[k] == Some(cmd[i]);
      assert args[k] == cmd[i];
    }
  }

  /** The right contents, seen from the texts: a key, printed fields, and for a restore the dumped value. */
  lemma ContentsOfArgs(r: Request, key: Chunk, fields: seq<Chunk>, mem: string)
    requires HasStage(r.op, r.stage) && r.op != Put && !IsScan(r)
    requires |Content(key, mem)| == KeySize(r) && SameLengths(Contents(fields, mem), Fields(r))
    ensures var args := [key] + fields + (if r.op == Move && r.stage == 1 then [Bytes(r.dump)] else []);
      && NoLonger(Contents(args, mem), Args(r))
      && (Contents(args, mem) == Args(r) <==> Content(key, mem) == BulkText(Key(r)) && Contents(fields, mem) == Fields(r))
  {
    hide Content, Fields, Key, BulkText;
    var last := if r.op == Move && r.stage == 1 then [Bytes(r.dump)] else [];
    var args := [key] + fields + last;
    var texts := if r.op == Move && r.stage == 1 then [r.dump] else [];
    ContentOfBytes(r.dump, mem);
    assert Contents(last, mem) == texts;
    assert Contents(args, mem) == [Content(key, mem)] + Contents(fields, mem) + texts;
    assert Args(r) == [BulkText(Key(r))] + Fields(r) + texts;
    Pieces(Content(key, mem), Contents(fields, mem), BulkText(Key(r)), Fields(r), texts);
  }

  lemma Pieces(k: string, fs: seq<string>, k': string, fs': seq<string>, texts: seq<string>)
    requires |k| == |k'| && SameLengths(fs, fs')
    ensures NoLonger([k] + fs + texts, [k'] + fs' + texts)
    ensures [k] + fs + texts == [k'] + fs' + texts <==> k == k' && fs == fs'
  {
    var a, b := [k] + fs + texts, [k'] + fs' + texts;
    assert a[0] == k && b[0] == k';
    assert a[1..|fs| + 1] == fs && b[1..|fs| + 1] == fs';
  }

  lemma PlacedLengths(chunks: seq<Chunk>, texts: seq<string>, from: nat, to: nat, mem: string)
    requires Placed(chunks, texts, from, to) && to <= |mem|
    ensures SameLengths(Contents(chunks, mem), texts)
  {
  }

  lemma KeyLength(pos: nat, len: nat, mem: string)
    requires pos + len <= |mem|
    ensures |Content(InBuffer(pos, len), mem)| == len
  {
  }

  lemma NoFields(texts: seq<string>, chunks: seq<Chunk>, mem: string)
    requires |chunks| == |texts|
    ensures texts == [] ==> Contents(chunks, mem) == texts && Total(texts) == 0
  {
  }

  lemma AllWithin(key: Chunk, fields: seq<Chunk>, texts: seq<string>, last: seq<Chunk>, from: nat, mid: nat, to: nat)
    requires key.InBuffer? && from <= key.pos && key.pos + key.len <= mid <= to
    requires Placed(fields, texts, mid, to) && forall i :: 0 <= i < |last| ==> last[i].Bytes?
    ensures Within([key] + fields + last, from, to) && Within(fields + [key], from, to)
  {
    var all := [key] + fields + last;
    assert forall i :: |fields| < i < |all| ==> all[i] == last[i - |fields| - 1];
  }

  /** Every command but a put and the scans: a key, then fields. */
  method CreateKeyed(buf: Buffer, r: Request) returns (rc: int, cmd: seq<Chunk>)
    requires buf.Valid() && HasStage(r.op, r.stage) && Named(r) && r.op != Put && !IsScan(r)
    modifies buf, buf.data
    ensures buf.Valid() && Created(r, old(buf.data[..]), old(buf.available), rc, cmd, buf.data[..], buf.available)
  {
    hide Content, Contents, BulkText, Key, Fields, Command, Flatten, Args, EncodeAll, NoNul, Named, SameLengths;
    hide Total, Printable, Sends, Within, NoLonger;
    var key, fields, ok;
    cmd := [];
    ghost var before, used := buf.data[..], buf.available;
    rc, key := CreateKey(buf, r);
    assert buf.data[..][..used] == buf.data[..used] == before[..used];
    if rc < 0 {
      return;
    }
    ghost var was, pos := buf.data[..], buf.available;
    FieldsPrintable(r);
    ok, fields := CreateFields(buf, Fields(r));
    assert buf.data[..][..pos] == buf.data[..pos] == was[..pos];
    Prefixes(before, was, buf.data[..], used, pos);
    if !ok {
      return 0 - E2BIG, cmd;
    }
    ContentKept(key, was, buf.data[..], pos);
    PlacedLengths(fields, Fields(r), pos, buf.available, buf.data[..]);
    KeyLength(key.pos, KeySize(r), buf.data[..]);
    ContentsOfArgs(r, key, fields, buf.data[..]);
    NoFields(Fields(r), fields, buf.data[..]);
    var last := if r.op == Move && r.stage == 1 then [Bytes(r.dump)] else [];
    AllWithin(key, fields, Fields(r), last, used, pos, buf.available);
    rc, cmd := Gather(buf, r, [key] + fields + last, used, buf.available);
  }

  lemma Prefixes(a: string, b: string, c: string, m: nat, n: nat)
    requires m <= n <= |a| == |b| == |c| && b[..m] == a[..m] && c[..n] == b[..n]
    ensures c[..m] == a[..m]
  {
    assert c[..m] == c[..n][..m] && b[..m] == b[..n][..m];
  }

  // ---------- scans ----------

  lemma ContentsOfScan(r: Request, key: Chunk, fields: seq<Chunk>, mem: string)
    requires HasStage(r.op, r.stage) && IsScan(r)
    requires |Content(key, mem)| <= KeySize(r) && SameLengths(Contents(fields, mem), Fields(r))
    ensures NoLonger(Contents(fields + [key], mem), Args(r))
    ensures Contents(fields + [key], mem) == Args(r) <==> Content(key, mem) == BulkText(Key(r)) && Contents(fields, mem) == Fields(r)
  {
    hide Content, Fields, Key, BulkText;
    var a, b := Contents(fields + [key], mem), Args(r);
    assert a == Contents(fields, mem) + [Content(key, mem)];
    var n := |Fields(r)|;
    assert b == Fields(r) + [BulkText(Key(r))];
    assert a[..n] == Contents(fields, mem) && a[n] == Content(key, mem);
    assert b[..n] == Fields(r) && b[n] == BulkText(Key(r));
  }

  lemma ScanHasFields(r: Request)
    requires HasStage(r.op, r.stage) && IsScan(r) && Named(r)
    ensures Fields(r) != [] && Total(Fields(r)) > 0 && Printable(Fields(r))
  {
    hide BulkText;
    FieldsPrintable(r);
    assert |Fields(r)[0]| > 0;
  }

  lemma ScanNoNul(r: Request)
    requires HasStage(r.op, r.stage) && IsScan(r) && Named(r)
    ensures NoNul(ScanText(r))
  {
    hide Decimal, Key;
    KeyNoNul(r);
    DecimalNoNul(Measured(r));
  }

  /** A printed pattern is right exactly if its text is below the limit. */
  lemma ScanRight(r: Request, was: string, mem: string, pos: nat)
    requires HasStage(r.op, r.stage) && IsScan(r) && Named(r)
    requires Printed(was, mem, pos, MAX_KEY, ScanText(r)) && pos + |ScanText(r)| <= |mem|
    ensures mem[..pos] == was[..pos]
    ensures Content(InBuffer(pos, |ScanText(r)|), mem) == BulkText(Key(r)) <==> |ScanText(r)| < MAX_KEY
    ensures |ScanText(r)| < MAX_KEY <==> KeySize(r) < MAX_KEY
    ensures |ScanText(r)| < MAX_KEY ==> |ScanText(r)| == KeySize(r)
  {
    hide Printed, Content, ScanText, Key, BulkText, Named, NoNul;
    ScanTextMeasured(r);
    ScanNoNul(r);
    KeyNoNul(r);
    PrintedText(was, mem, pos, MAX_KEY, ScanText(r));
  }

  /** The pattern is printed with a limit that does not regard the room that remains. */
  method CreateScan(buf: Buffer, r: Request) returns (rc: int, cmd: seq<Chunk>)
    requires buf.Valid() && HasStage(r.op, r.stage) && Named(r) && IsScan(r)
    modifies buf, buf.data
    ensures buf.Valid() && Created(r, old(buf.data[..]), old(buf.available), rc, cmd, buf.data[..], buf.available)
  {
    hide Content, Contents, BulkText, Key, Fields, Command, Flatten, Args, EncodeAll, NoNul, Named, SameLengths;
    hide Total, Printable, Printed, Sends, Within, ScanText, NoLonger;
    cmd := [];
    ghost var before := buf.data[..];
    var start := buf.available;
    var room := buf.data.Length - start;
    if Measured(r) > room {
      return 0 - ENOMEM, cmd;
    }
    var text := ScanText(r);
    ScanTextMeasured(r);
    Print(buf, MAX_KEY, text);
    PrintedPrefix(before, buf.data[..], start, MAX_KEY, text);
    var _ := buf.AddData(|text|, true);
    var key := InBuffer(start, |text|);
    ghost var was, pos := buf.data[..], buf.available;
    ScanHasFields(r);
    var ok, fields := CreateFields(buf, Fields(r));
    assert buf.data[..][..pos] == buf.data[..pos] == was[..pos];
    Prefixes(before, was, buf.data[..], start, pos);
    if !ok {
      return 0 - E2BIG, cmd;
    }
    ScanRight(r, before, was, start);
    ContentKept(key, was, buf.data[..], pos);
    PlacedLengths(fields, Fields(r), pos, buf.available, buf.data[..]);
    KeyLength(start, |text|, buf.data[..]);
    ContentsOfScan(r, key, fields, buf.data[..]);
    AllWithin(key, fields, Fields(r), [], start, pos, buf.available);
    rc, cmd := Gather(buf, r, fields + [key], start, buf.available);
  }

  // ---------- puts ----------

  function Concat(parts: seq<string>): string {
    if parts == [] then "" else parts[0] + Concat(parts[1..])
  }

  function UserChunks(parts: seq<string>): seq<Chunk> {
    seq(|parts|, i requires 0 <= i < |parts| => Bytes(parts[i]))
  }

  lemma {:induction false} UserFlattened(parts: seq<string>, mem: string)
    ensures Flatten(UserChunks(parts), mem) == Concat(parts)
    decreases |parts|
  {
    if parts != [] {
      assert UserChunks(parts)[1..] == UserChunks(parts[1..]);
      UserFlattened(parts[1..], mem);
    }
  }

  /** The list of a put: the template with its key, a length prefix, the user's memory, a line end. */
  function PutList(head: seq<Chunk>, prefix: Chunk, parts: seq<string>): seq<Chunk> {
    head + [prefix] + UserChunks(parts) + [Bytes(CRLF)]
  }

  lemma PutListFlattened(head: seq<Chunk>, prefix: Chunk, parts: seq<string>, mem: string)
    ensures Flatten(PutList(head, prefix, parts), mem) == Flatten(head, mem) + Content(prefix, mem) + Concat(parts) + CRLF
  {
    hide Flatten, Content, Concat, UserChunks;
    FlattenSnoc(head, prefix, mem);
    FlattenAppend(head + [prefix], UserChunks(parts), mem);
    FlattenSnoc(head + [prefix] + UserChunks(parts), Bytes(CRLF), mem);
    ContentOfBytes(CRLF, mem);
    UserFlattened(parts, mem);
  }

  /** What a put sends is its command exactly if its prefix is right. */
  lemma PutFlattened(r: Request, head: seq<Chunk>, prefix: Chunk, parts: seq<string>, mem: string)
    requires r.op == Put && r.stage == 0 && Concat(parts) == r.value
    requires Flatten(head, mem) == Fill(StageOf(Put, 0).template, Args(r))
    requires |Content(prefix, mem)| == |BulkHead(|r.value|)|
    ensures Flatten(PutList(head, prefix, parts), mem) == EncodeAll(Command(r)) <==> Content(prefix, mem) == BulkHead(|r.value|)
  {
    hide Flatten, Content, Fill, EncodeAll, Concat, Command, PutList, BulkHead, StageOf, Args;
    PutListFlattened(head, prefix, parts, mem);
    EveryStageFilled(r);
    var f, c, h, v := Flatten(head, mem), Content(prefix, mem), BulkHead(|r.value|), r.value;
    var sent, meant := f + c + v + CRLF, f + (h + v + CRLF);
    assert sent == Flatten(PutList(head, prefix, parts), mem);
    assert sent[|f|..|f| + |c|] == c && meant[|f|..|f| + |c|] == h;
  }

  lemma PutArgs(r: Request)
    requires r.op == Put && r.stage == 0
    ensures Args(r) == [BulkText(Key(r)), ""]
  {
  }

  lemma TotalOfOne(text: string)
    ensures Total([text]) == |text|
  {
    assert [text][1..] == [];
  }

  /** Template and arguments of a put, gathered in any memory that the key lies in. */
  method GatherPut(key: Chunk, ghost content: string, ghost mem: string, ghost from: nat, ghost to: nat) returns (head: seq<Chunk>)
    requires key.InBuffer? && Content(key, mem) == content && Within([key], from, to) && to <= |mem|
    ensures Within(head, from, to)
    ensures PlacesBelow(StageOf(Put, 0).template, 2) && Flatten(head, mem) == Fill(StageOf(Put, 0).template, [content, ""])
  {
    hide Content, Flatten, Expand, Template, Fill;
    var spec := StageOf(Put, 0);
    TemplatesAreSound(Put, 0);
    var args := [key, Bytes("")];
    ContentOfBytes("", mem);
    assert Given(Somes(args), mem) == Present([content, ""]);
    ExpandFills(spec.template, spec.arrayLen, [content, ""]);
    var rc;
    rc, head := CreateSgeN(Template(spec.template), spec.arrayLen, Somes(args), mem);
    assert Within(args, from, to) by {
      assert [key][0] == key;
    }
    Gathered(head, args, from, to);
  }

  lemma PutWithin(head: seq<Chunk>, prefix: Chunk, parts: seq<string>, from: nat, to: nat)
    requires Within(head, from, to) && Within([prefix], from, to)
    ensures Within(PutList(head, prefix, parts), from, to)
  {
    var all := PutList(head, prefix, parts);
    forall i | 0 <= i < |all| && all[i].InBuffer? ensures from <= all[i].pos && all[i].pos + all[i].len <= to {
      if i == |head| {
        assert [prefix][0] == prefix;
      }
    }
  }

  /** The length prefix of a value, behind what the buffer holds; it is refused unless the next longer one would fit. */
  method CreatePrefix(buf: Buffer, n: nat) returns (ok: bool, prefix: Chunk)
    requires buf.Valid() && n <= INT64_MAX
    modifies buf, buf.data
    ensures buf.Valid() && buf.data[..old(buf.available)] == old(buf.data[..buf.available])
    ensures ok <==> |BulkHead(n + 1)| <= buf.data.Length - old(buf.available)
    ensures !ok ==> buf.available == old(buf.available) && buf.data[..] == old(buf.data[..])
    ensures ok ==> prefix == InBuffer(old(buf.available), |BulkHead(n)|) && buf.available == old(buf.available) + |BulkHead(n)|
    ensures ok ==> (Content(prefix, buf.data[..]) == BulkHead(n) <==> buf.available < buf.data.Length)
  {
    hide BulkHead, Printed, Content, NoNul, Log10;
    var pos := buf.available;
    var room := buf.data.Length - pos;
    var text := BulkHead(n);
    PrefixMeasured(n);
    HeadNoNul(n);
    prefix := InBuffer(pos, |text|);
    if room <= Log10(n + 1) + 3 {
      return false, prefix;
    }
    ghost var was := buf.data[..];
    Print(buf, room, text);
    PrintedText(was, buf.data[..], pos, room, text);
    assert buf.data[..pos] == buf.data[..][..pos] && was[..pos] == old(buf.data[..pos]);
    var _ := buf.AddData(|text|, true);
    ok := true;
  }

  /** A key that fits: the put is gathered in the buffer. */
  method CreateFittingPut(buf: Buffer, r: Request, parts: seq<string>, key: Chunk, ghost was: string, ghost used: nat)
    returns (rc: int, cmd: seq<Chunk>)
    requires buf.Valid() && r.op == Put && r.stage == 0 && Named(r) && Concat(parts) == r.value
    requires |was| == buf.data.Length && used + KeySize(r) == buf.available && buf.data[..used] == was[..used]
    requires KeySize(r) < KeyRoom(|was| - used) && key == InBuffer(used, KeySize(r)) && Content(key, buf.data[..]) == BulkText(Key(r))
    modifies buf, buf.data
    ensures buf.Valid() && Created(r, was, used, rc, cmd, buf.data[..], buf.available)
  {
    hide Content, BulkText, Key, Command, Flatten, EncodeAll, Named, Fill, BulkHead, Concat, Args, PutList, Within;
    hide StageOf;
    ghost var now, pos := buf.data[..], buf.available;
    ValueBound(r);
    var ok, prefix := CreatePrefix(buf, |r.value|);
    assert buf.data[..][..pos] == buf.data[..pos] == now[..pos];
    Prefixes(was, now, buf.data[..], used, pos);
    if !ok {
      return 0 - E2BIG, [];
    }
    ContentKept(key, now, buf.data[..], pos);
    ghost var mem := buf.data[..];
    OneWithin(key, used, buf.available);
    OneWithin(prefix, used, buf.available);
    var head := GatherPut(key, BulkText(Key(r)), mem, used, buf.available);
    PutArgs(r);
    KeyLength(pos, |BulkHead(|r.value|)|, mem);
    PutFlattened(r, head, prefix, parts, mem);
    cmd := PutList(head, prefix, parts);
    PutWithin(head, prefix, parts, used, buf.available);
    WithinLengths(cmd, used, buf.available, mem);
    TotalOfOne(BulkHead(|r.value|));
    rc := |cmd|;
  }

  lemma OneWithin(c: Chunk, from: nat, to: nat)
    requires c.InBuffer? && from <= c.pos && c.pos + c.len <= to
    ensures Within([c], from, to)
  {
  }

  // ---------- puts whose key does not fit ----------

  /** The length -EMSGSIZE, as a size. */
  const WRAPPED: nat := SIZE_RANGE - EMSGSIZE

  lemma FillPutLength(a: string, b: string)
    ensures PlacesBelow(StageOf(Put, 0).template, 2)
    ensures |Fill(StageOf(Put, 0).template, [a, ""])| - |a| == |Fill(StageOf(Put, 0).template, [b, ""])| - |b|
  {
    hide Fill;
    var front: seq<Piece> := [Text("*3\r\n"), Text("$5\r\nRPUSH\r\n")];
    var t := StageOf(Put, 0).template;
    assert t == front + ([Place(0)] + [Place(1)]);
    PutPieces(front, a);
    PutPieces(front, b);
    FillTexts(front, [a, ""], [b, ""]);
  }

  lemma PutPieces(front: seq<Piece>, a: string)
    requires forall i :: 0 <= i < |front| ==> front[i].Text?
    ensures PlacesBelow(front + ([Place(0)] + [Place(1)]), 2)
    ensures |Fill(front + ([Place(0)] + [Place(1)]), [a, ""])| == |Fill(front, [a, ""])| + |a|
  {
    hide Fill;
    FillAppend([Place(0)], [Place(1)], [a, ""]);
    FillAppend(front, [Place(0)] + [Place(1)], [a, ""]);
    OnePlace(0, [a, ""]);
    OnePlace(1, [a, ""]);
  }

  lemma OnePlace(i: nat, args: seq<string>)
    requires i < |args|
    ensures Fill([Place(i)], args) == args[i]
  {
    assert [Place(i)][1..] == [];
    assert args[i] + "" == args[i];
  }

  lemma {:induction false} FillTexts(ps: seq<Piece>, a: seq<string>, b: seq<string>)
    requires forall i :: 0 <= i < |ps| ==> ps[i].Text?
    ensures Fill(ps, a) == Fill(ps, b)
    decreases |ps|
  {
    if ps != [] {
      FillTexts(ps[1..], a, b);
    }
  }

  /** A list whose key entry has the wrapped length announces other bytes than the command has. */
  lemma WrappedAnnounces(r: Request, head: seq<Chunk>, prefix: Chunk, parts: seq<string>, big: string, key: string, from: nat, to: nat)
    requires r.op == Put && r.stage == 0 && Named(r) && Concat(parts) == r.value
    requires Within(head, from, to) && Within([prefix], from, to) && to <= |big|
    requires |key| == WRAPPED && Flatten(head, big) == Fill(StageOf(Put, 0).template, [key, ""])
    requires prefix.InBuffer? && prefix.len == |BulkHead(|r.value|)|
    ensures Lengths(PutList(head, prefix, parts)) == |EncodeAll(Command(r))| - KeySize(r) + WRAPPED
    ensures Lengths(PutList(head, prefix, parts)) != |EncodeAll(Command(r))|
  {
    hide Fill, EncodeAll, Command, Flatten, StageOf, Args, Concat, BulkHead, Content, Key, Within, Named, PutList;
    hide Decimal;
    PutWithin(head, prefix, parts, from, to);
    WithinLengths(PutList(head, prefix, parts), from, to, big);
    PutListFlattened(head, prefix, parts, big);
    EveryStageFilled(r);
    PutArgs(r);
    FillPutLength(key, BulkText(Key(r)));
    PrefixInside(prefix, from, to, big);
    KeyBound(r);
  }

  lemma PrefixInside(c: Chunk, from: nat, to: nat, mem: string)
    requires c.InBuffer? && Within([c], from, to) && to <= |mem|
    ensures |Content(c, mem)| == c.len
  {
    assert [c][0] == c;
  }

  lemma KeyBound(r: Request)
    requires HasStage(r.op, r.stage) && Named(r) && r.op == Put
    ensures KeySize(r) <= MAX_KEY + 25
  {
    hide Decimal;
    LongNumbers(|Key(r)|);
  }

  /**
    A key that does not fit: the error is taken for a length. The buffer goes back by ninety bytes, or
    is full; the key's entry announces almost all of the address space.
   */
  method CreateOverflowingPut(buf: Buffer, r: Request, parts: seq<string>, ghost was: string) returns (rc: int, cmd: seq<Chunk>)
    requires buf.Valid() && r.op == Put && r.stage == 0 && Named(r) && Concat(parts) == r.value
    requires |was| == buf.data.Length && Overflows(r, |was| - buf.available)
    requires buf.data[..buf.available] == was[..buf.available]
    modifies buf, buf.data
    ensures buf.Valid() && Created(r, was, old(buf.available), rc, cmd, buf.data[..], buf.available)
  {
    hide Content, BulkText, Key, Command, Flatten, EncodeAll, Named, Fill, BulkHead, Concat, Args, PutList, Within;
    hide StageOf, KeySize;
    var used := buf.available;
    assert buf.data[..used] == buf.data[..][..used];
    var key := InBuffer(used, WRAPPED);
    var _ := buf.AddData(WRAPPED, true);
    ValueBound(r);
    LongNumbers(|r.value| + 1);
    var ok, prefix := CreatePrefix(buf, |r.value|);
    if !ok {
      return 0 - E2BIG, [];
    }
    ghost var to := used + WRAPPED;
    ghost var big := buf.data[..] + seq(SIZE_RANGE, i => ' ');
    KeyLength(used, WRAPPED, big);
    OneWithin(key, 0, to);
    OneWithin(prefix, 0, to);
    var head := GatherPut(key, Content(key, big), big, 0, to);
    cmd := PutList(head, prefix, parts);
    WrappedAnnounces(r, head, prefix, parts, big, Content(key, big), 0, to);
    rc := |cmd|;
  }

  method CreatePut(buf: Buffer, r: Request, parts: seq<string>) returns (rc: int, cmd: seq<Chunk>)
    requires buf.Valid() && r.op == Put && r.stage == 0 && Named(r) && Concat(parts) == r.value
    modifies buf, buf.data
    ensures buf.Valid() && Created(r, old(buf.data[..]), old(buf.available), rc, cmd, buf.data[..], buf.available)
  {
    hide Created, Content, Named, Concat, BulkText, Key;
    ghost var was, used := buf.data[..], buf.available;
    var key;
    rc, key := CreateKey(buf, r);
    assert buf.data[..used] == was[..used];
    if rc < 0 {
      rc, cmd := CreateOverflowingPut(buf, r, parts, was);
    } else {
      rc, cmd := CreateFittingPut(buf, r, parts, key, was, used);
    }
  }

  // ---------- every request ----------

  /**
    The command of a request, in whatever room the send buffer has: refused with this code, or the
    list that is gathered sends the commands of the request exactly if all of it fits.
   */
  method Create(buf: Buffer, r: Request, parts: seq<string>) returns (rc: int, cmd: seq<Chunk>)
    requires buf.Valid() && HasStage(r.op, r.stage) && Named(r) && Concat(parts) == r.value
    modifies buf, buf.data
    ensures buf.Valid() && Created(r, old(buf.data[..]), old(buf.available), rc, cmd, buf.data[..], buf.available)
  {
    hide Created, Named, Concat;
    if r.op == Put {
      rc, cmd := CreatePut(buf, r, parts);
    } else if IsScan(r) {
      rc, cmd := CreateScan(buf, r);
    } else {
      rc, cmd := CreateKeyed(buf, r);
    }
  }

  // ---------- inputs on which a command is accepted but wrong ----------

  /** A namespace command that fills the room to the last byte is accepted, although it is damaged. */
  lemma ExactRoomIsAccepted(r: Request, size: nat, used: nat)
    requires HasStage(r.op, r.stage) && used <= size && !IsScan(r) && !Checked(r)
    requires KeySize(r) + Total(Fields(r)) == size - used
    ensures FateOf(r, size, used) == Accepted(size) && !Fits(r, size - used)
  {
    hide BulkText, Key, Fields, Total;
  }

  /** A put with names that are both within their limit, whose key is too long for its room in every buffer. */
  lemma LongKeyOverflows(r: Request, size: nat, used: nat)
    requires r.op == Put && r.stage == 0 && Named(r) && |r.ns| == 1020 && |r.key| == 1020 && used <= size
    ensures |Key(r)| == 2042 < MAX_KEY && KeySize(r) == 2051
    ensures FateOf(r, size, used).Accepted? <==> used >= EMSGSIZE
    ensures !Fits(r, size - used)
  {
    FourDigits(2042);
    OverflowIsAccepted(r, size, used);
  }

  lemma FourDigits(n: nat)
    requires 1000 <= n < 10000
    ensures |Decimal(n)| == 4
  {
    assert |Decimal(n)| == |Decimal(n / 10)| + 1;
    assert |Decimal(n / 10)| == |Decimal(n / 10 / 10)| + 1;
    assert |Decimal(n / 10 / 10)| == |Decimal(n / 10 / 10 / 10)| + 1;
  }
}
