/** What each request says to Redis, and that the expanded templates say it. */
module Commands {
  import opened Definitions
  import opened Resp
  import opened Protocol

  /** The parts of a request that its command is made of; the strings are C strings. */
  datatype Request = Request(
    op: Opcode,
    stage: nat,
    ns: string,               // the namespace of the request
    key: string,              // the tuple name; for create and attach, the namespace name
    pattern: string,          // the match of a directory or iterator request, empty if there is none
    value: string,            // the bytes of all scatter/gather entries of a put
    index: nat,               // the list position that a read asks for
    groups: Option<string>,   // the group list of a create
    cursor: Option<string>,   // the cursor to follow, None on a first scan
    scanned: string,          // the key that a detach deletes
    dump: string,             // the serialized value that a move carries
    target: string            // the namespace a move goes to
  )

  // ---------- the commands ----------


  function Words(ws: seq<string>): Reply {
    Array(seq(|ws|, i requires 0 <= i < |ws| => Bulk(ws[i])))
  }

  function Qualified(ns: string, key: string): string {
    ns + SEPARATOR + key
  }

  function Scan(r: Request, pattern: string): Reply {
    Words(["SCAN", if r.cursor.Some? then r.cursor.value else "0",
           "MATCH", Qualified(r.ns, if pattern == "" then "*" else pattern), "COUNT", "10"])
  }

  /** The Redis commands that a stage of a request stands for. */
  function Command(r: Request): seq<Reply>
    requires HasStage(r.op, r.stage)
  {
    match r.op
    case Put => [Words(["RPUSH", Qualified(r.ns, r.key), r.value])]
    case Get => [Words(["LPOP", Qualified(r.ns, r.key)])]
    case Read => [Words(["LINDEX", Qualified(r.ns, r.key), Decimal(r.index)])]
    case Remove => [Words(["DEL", Qualified(r.ns, r.key)])]
    case Move =>
      if r.stage == 0 then [Words(["DUMP", Qualified(r.ns, r.key)])]
      else if r.stage == 1 then [Words(["RESTORE", Qualified(r.target, r.key), "0", r.dump])]
      else [Words(["DEL", Qualified(r.ns, r.key)])]
    case Directory =>
      if r.stage == 0 then [Words(["HGETALL", r.ns])] else [Scan(r, r.pattern)]
    case Iterator => [Scan(r, r.pattern)]
    case NsQuery => [Words(["HGETALL", r.ns])]
    case NsCreate =>
      if r.stage == 0 then [Words(["HSETNX", r.key, "id", r.key])]
      else [Words(["HMSET", r.key, "refcnt", "1", "groups", if r.groups.Some? then r.groups.value else "", "flags", "0"])]
    case NsAttach =>
      if r.stage == 0 then [Words(["EXISTS", r.key])] else [Words(["HINCRBY", r.key, "refcnt", "1"])]
    case NsDetach =>
      if r.stage == 0 then
        [Words(["MULTI"]), Words(["HINCRBY", r.ns, "refcnt", "-1"]), Words(["HMGET", r.ns, "refcnt", "flags"]), Words(["EXEC"])]
      else if r.stage == 1 then [Scan(r, "*")]
      else if r.stage == 2 then [Words(["DEL", r.scanned])]
      else [Words(["DEL", r.ns])]
    case NsDelete =>
      if r.stage == 0 then [Words(["HMGET", r.ns, "refcnt", "flags"])] else [Words(["HSET", r.ns, "flags", "1"])]
  }

  // ---------- the arguments that go into the template ----------

  function BulkText(s: string): string {
    BulkHead(|s|) + s + CRLF
  }

  /** The key that `create_key_cmd` prints; for a scan, the pattern that `create_scan_key` prints. */
  function Key(r: Request): string
    requires HasStage(r.op, r.stage)
  {
    match r.op
    case Put => Qualified(r.ns, r.key)
    case Get => Qualified(r.ns, r.key)
    case Read => Qualified(r.ns, r.key)
    case Remove => Qualified(r.ns, r.key)
    case Move => Qualified(if r.stage == 1 then r.target else r.ns, r.key)
    case NsCreate => r.key
    case NsAttach => r.key
    case NsDetach => if r.stage == 1 then Qualified(r.ns, "*") else if r.stage == 2 then r.scanned else r.ns
    case Directory => if r.stage == 1 then Qualified(r.ns, Pattern(r)) else r.ns
    case Iterator => Qualified(r.ns, Pattern(r))
    case NsQuery => r.ns
    case NsDelete => r.ns
  }

  function Pattern(r: Request): string {
    if r.pattern == "" then "*" else r.pattern
  }

  predicate IsScan(r: Request) {
    r.op == Iterator || (r.op == Directory && r.stage == 1) || (r.op == NsDetach && r.stage == 1)
  }

  /** The integer part of the decimal logarithm. */
  function Log10(n: nat): nat
    requires n > 0
  {
    if n < 10 then 0 else 1 + Log10(n / 10)
  }

  function IndexLength(index: nat): nat {
    if index == 0 then 1 else Log10(index) + 1
  }

  /** The index of a read, with a length that is computed from its logarithm. */
  function IndexText(index: nat): string {
    BulkHead(IndexLength(index)) + Decimal(index) + CRLF
  }

  lemma {:induction false} LogCountsDigits(n: nat)
    requires n > 0
    ensures |Decimal(n)| == Log10(n) + 1
  {
    if n >= 10 {
      LogCountsDigits(n / 10);
    }
  }

  lemma IndexMeasured(index: nat)
    ensures IndexLength(index) == |Decimal(index)|
  {
    if index > 0 {
      LogCountsDigits(index);
    }
  }

  lemma IndexTextIsBulk(index: nat)
    ensures IndexText(index) == BulkText(Decimal(index))
  {
    hide IndexLength, Decimal, BulkHead;
    IndexMeasured(index);
  }

  /** The other texts printed into the send buffer, in the order they are printed. */
  function Fields(r: Request): seq<string>
    requires HasStage(r.op, r.stage)
  {
    if IsScan(r) then [BulkText(if r.cursor.Some? then r.cursor.value else "0")] else
    match r.op
    case Read => [IndexText(r.index)]
    case Move => if r.stage == 1 then [BulkHead(|r.dump|)] else []
    case NsCreate =>
      if r.stage == 0 then [BulkText("id"), BulkText(r.key)]
      else [BulkText("refcnt"), BulkText("1"), BulkText("groups"), BulkText(if r.groups.Some? then r.groups.value else ""),
            BulkText("flags"), BulkText("0")]
    case NsAttach => if r.stage == 1 then [BulkText("1")] else []
    case NsDetach => if r.stage == 0 then [BulkText("-1")] else []
    case NsDelete => if r.stage == 1 then [BulkText("flags"), BulkText("1")] else []
    case _ => []
  }

  /** The arguments of the template. A put fills its last place with nothing and appends its value. */
  function Args(r: Request): (args: seq<string>)
    requires HasStage(r.op, r.stage)
    ensures |args| == StageOf(r.op, r.stage).arrayLen
  {
    var key := BulkText(Key(r));
    if IsScan(r) then Fields(r) + [key]
    else if r.op == Put then [key, ""]
    else if r.op == Move && r.stage == 1 then [key] + Fields(r) + [r.dump]
    else [key] + Fields(r)
  }

  function Tail(r: Request): string {
    if r.op == Put then BulkText(r.value) else ""
  }

  // ---------- from templates to commands ----------

  function BulkTexts(ws: seq<string>): string {
    if ws == [] then "" else BulkText(ws[0]) + BulkTexts(ws[1..])
  }

  predicate Says(p: Piece, args: seq<string>, w: string) {
    match p
    case Text(s) => s == BulkText(w)
    case Place(i) => i < |args| && args[i] == BulkText(w)
  }

  /** Pieces that say the words `ws`, one each, fill to their bulk strings. */
  lemma {:induction false} FillBulks(ps: seq<Piece>, args: seq<string>, ws: seq<string>)
    requires |ps| == |ws| && PlacesBelow(ps, |args|)
    requires forall k :: 0 <= k < |ps| ==> Says(ps[k], args, ws[k])
    ensures Fill(ps, args) == BulkTexts(ws)
    decreases |ps|
  {
    hide BulkText;
    if ps != [] {
      FillBulks(ps[1..], args, ws[1..]);
    }
  }

  lemma {:induction false} FillAppend(a: seq<Piece>, b: seq<Piece>, args: seq<string>)
    requires PlacesBelow(a, |args|) && PlacesBelow(b, |args|)
    ensures PlacesBelow(a + b, |args|)
    ensures Fill(a + b, args) == Fill(a, args) + Fill(b, args)
    decreases |a|
  {
    if a == [] {
      assert a + b == b;
    } else {
      assert (a + b)[1..] == a[1..] + b;
      FillAppend(a[1..], b, args);
    }
  }

  lemma {:induction false} EncodeBulks(ws: seq<string>)
    ensures EncodeAll(Words(ws).elems) == BulkTexts(ws)
    decreases |ws|
  {
    if ws != [] {
      assert Words(ws).elems[1..] == Words(ws[1..]).elems;
      EncodeBulks(ws[1..]);
    }
  }

  /** A template of one command: an array head and one piece for each word. */
  lemma OneCommand(ps: seq<Piece>, args: seq<string>, ws: seq<string>)
    requires |ps| == |ws| + 1 && PlacesBelow(ps, |args|) && ps[0] == Text(ArrayHead(|ws|))
    requires forall k :: 0 <= k < |ws| ==> Says(ps[k + 1], args, ws[k])
    ensures Fill(ps, args) == Encode(Words(ws))
  {
    hide Says, BulkTexts, ArrayHead;
    var rest := ps[1..];
    forall k | 0 <= k < |ws|
      ensures Says(rest[k], args, ws[k])
    {
      assert rest[k] == ps[k + 1];
    }
    FillBulks(rest, args, ws);
    EncodeBulks(ws);
  }

  lemma {:induction false} BulkTextsSnoc(ws: seq<string>, w: string)
    ensures BulkTexts(ws + [w]) == BulkTexts(ws) + BulkText(w)
    decreases |ws|
  {
    hide BulkText;
    if ws == [] {
      assert ws + [w] == [w];
      assert [w][1..] == [];
      assert BulkTexts([w]) == BulkText(w) + BulkTexts([]);
    } else {
      assert (ws + [w])[1..] == ws[1..] + [w];
      BulkTextsSnoc(ws[1..], w);
    }
  }
}
