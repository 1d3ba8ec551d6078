/** What a send buffer does to the command of a request: whether it is accepted, and whether it is right. */
module CommandFits {
  import opened Definitions
  import opened Resp
  import opened Protocol
  import opened Commands
  import opened CommandsWire
  import opened CommandBuilder

  const MAX_TEXT: nat := 0x3FFF_FFFF   // so that the length of every printed text is an int

  /** What the callers of a command guarantee. Keys of these operations are refused earlier if they are longer. */
  ghost predicate Named(r: Request)
    requires HasStage(r.op, r.stage)
  {
    && NoNul(r.ns) && NoNul(r.key) && NoNul(r.pattern) && NoNul(r.scanned) && NoNul(r.target)
    && (r.groups.Some? ==> NoNul(r.groups.value) && |r.groups.value| <= MAX_TEXT)
    && (r.cursor.Some? ==> NoNul(r.cursor.value) && |r.cursor.value| <= MAX_TEXT)
    && |r.ns| <= MAX_NAME && |r.target| <= MAX_NAME
    && |r.key| <= MAX_TEXT && |r.pattern| <= MAX_TEXT && |r.scanned| <= MAX_TEXT
    && r.index <= INT64_MAX && |r.value| <= INT64_MAX && |r.dump| <= INT64_MAX
    && (r.op in {Put, NsCreate, NsAttach} ==> |Key(r)| < MAX_KEY)
  }

  function KeyRoom(room: nat): nat {
    Min(room, MAX_KEY)
  }

  /** The requests whose key is checked against the room for it. */
  predicate Checked(r: Request) {
    r.op in {Put, Get, Read, Remove, Move} || (r.op == NsDetach && r.stage == 2)
  }

  /** The texts printed after the key. */
  function Printouts(r: Request): seq<string>
    requires HasStage(r.op, r.stage)
  {
    if r.op == Put then [BulkHead(|r.value|)] else Fields(r)
  }

  function KeySize(r: Request): nat
    requires HasStage(r.op, r.stage)
  {
    |BulkText(Key(r))|
  }

  /** The key is shorter than its limit, and all texts leave a byte of the room free. */
  predicate Fits(r: Request, room: nat)
    requires HasStage(r.op, r.stage)
  {
    KeySize(r) < KeyRoom(room) && KeySize(r) + Total(Printouts(r)) < room
  }

  // ---------- patterns of scans ----------

  function MatchOf(r: Request): string {
    if r.op == NsDetach then "*" else Pattern(r)
  }

  /** The length of a pattern, measured only as far as the limit on keys. */
  function Measured(r: Request): nat {
    Min(|r.ns|, MAX_KEY) + 2 + Min(|MatchOf(r)|, MAX_KEY)
  }

  function ScanText(r: Request): string
    requires HasStage(r.op, r.stage)
  {
    BulkHead(Measured(r)) + Key(r) + CRLF
  }

  /** The bytes that the key takes in the buffer. */
  function KeyPrinted(r: Request): nat
    requires HasStage(r.op, r.stage)
  {
    if IsScan(r) then |ScanText(r)| else KeySize(r)
  }

  // ---------- what becomes of a request ----------

  /** The put goes on with the length -EMSGSIZE for its key. */
  predicate Overflows(r: Request, room: nat)
    requires HasStage(r.op, r.stage)
  {
    r.op == Put && KeySize(r) >= KeyRoom(room)
  }

  datatype Fate = Refused(code: int) | Accepted(used: nat)

  /** In a buffer of this size, of which this much is used: the error, or how much is used afterwards. */
  function FateOf(r: Request, size: nat, used: nat): (f: Fate)
    requires HasStage(r.op, r.stage) && used <= size
    ensures if f.Accepted? then f.used <= size else f.code < 0
  {
    var room := size - used;
    PrefixMeasured(|r.value|);
    if r.op == Put then
      if Overflows(r, room) then
        if used < EMSGSIZE || room + EMSGSIZE < |BulkHead(|r.value| + 1)| then Refused(0 - E2BIG)
        else Accepted(used - EMSGSIZE + |BulkHead(|r.value|)|)
      else if room - KeySize(r) < |BulkHead(|r.value| + 1)| then Refused(0 - E2BIG)
      else Accepted(used + KeySize(r) + |BulkHead(|r.value|)|)
    else if IsScan(r) && Measured(r) > room then Refused(0 - ENOMEM)
    else if Checked(r) && KeySize(r) >= KeyRoom(room) then Refused(0 - EMSGSIZE)
    else if KeyPrinted(r) + Total(Fields(r)) > room then Refused(0 - E2BIG)
    else Accepted(used + KeyPrinted(r) + Total(Fields(r)))
  }

  // ---------- lengths of numbers and texts ----------

  function Pow10(k: nat): (p: nat)
    ensures p > 0
  {
    if k == 0 then 1 else 10 * Pow10(k - 1)
  }

  lemma {:induction false} DecimalBelow(n: nat, k: nat)
    requires n < Pow10(k) && k > 0
    ensures |Decimal(n)| <= k
    decreases k
  {
    if n >= 10 {
      DecimalBelow(n / 10, k - 1);
    }
  }

  lemma LongNumbers(n: nat)
    requires n <= INT64_MAX + 1
    ensures |Decimal(n)| <= 19 && 4 <= |BulkHead(n)| <= 22
  {
    assert Pow10(5) == 100000;
    assert Pow10(10) == 100000 * Pow10(5) by {
      assert Pow10(7) == 100 * Pow10(5) && Pow10(9) == 100 * Pow10(7);
    }
    assert Pow10(15) == 100000 * Pow10(10) by {
      assert Pow10(12) == 100 * Pow10(10) && Pow10(14) == 100 * Pow10(12);
    }
    assert Pow10(19) == 10000 * Pow10(15) by {
      assert Pow10(17) == 100 * Pow10(15);
    }
    DecimalBelow(n, 19);
  }

  lemma {:induction false} DecimalGrows(a: nat, b: nat)
    requires a <= b
    ensures |Decimal(a)| <= |Decimal(b)|
    decreases b
  {
    if a >= 10 {
      DecimalGrows(a / 10, b / 10);
    }
  }

  /** The room that the logarithm asks for is the room of the next number's prefix. */
  lemma PrefixMeasured(n: nat)
    ensures Log10(n + 1) + 4 == |BulkHead(n + 1)| >= |BulkHead(n)|
  {
    hide Decimal, Log10;
    LogCountsDigits(n + 1);
    DecimalGrows(n, n + 1);
  }

  /** Values of any size that there is: a put that overflows is refused only if less than ninety bytes are in use. */
  lemma OverflowIsAccepted(r: Request, size: nat, used: nat)
    requires HasStage(r.op, r.stage) && Named(r) && used <= size && Overflows(r, size - used)
    ensures FateOf(r, size, used).Accepted? <==> used >= EMSGSIZE
  {
    hide Named, BulkHead, KeySize;
    assert |r.value| <= INT64_MAX by {
      ValueBound(r);
    }
    LongNumbers(|r.value| + 1);
  }

  lemma ValueBound(r: Request)
    requires HasStage(r.op, r.stage) && Named(r)
    ensures |r.value| <= INT64_MAX && |r.dump| <= INT64_MAX
  {
  }

  /** A pattern within the limit is measured right; beyond it, the text is not shorter than the limit. */
  lemma ScanTextMeasured(r: Request)
    requires HasStage(r.op, r.stage) && Named(r) && IsScan(r)
    ensures |MatchOf(r)| <= MAX_KEY ==> ScanText(r) == BulkText(Key(r))
    ensures |MatchOf(r)| > MAX_KEY ==> |ScanText(r)| >= MAX_KEY
    ensures 0 < |ScanText(r)| <= KeySize(r) && |ScanText(r)| <= INT64_MAX
  {
    hide Decimal;
    assert |Key(r)| == |r.ns| + 2 + |MatchOf(r)|;
    DecimalGrows(Measured(r), |Key(r)|);
    LongNumbers(|Key(r)|);
    LongNumbers(Measured(r));
  }

  // ---------- the texts are C strings ----------

  lemma DecimalNoNul(n: nat)
    ensures NoNul(Decimal(n))
  {
  }

  lemma HeadNoNul(n: nat)
    requires n <= INT64_MAX
    ensures BulkHead(n) != "" && NoNul(BulkHead(n)) && |BulkHead(n)| <= INT64_MAX
  {
    hide Decimal;
    DecimalNoNul(n);
    LongNumbers(n);
  }

  lemma TextNoNul(s: string)
    requires NoNul(s)
    ensures BulkText(s) != "" && NoNul(BulkText(s))
  {
    hide Decimal;
    DecimalNoNul(|s|);
  }

  lemma TextPrintable(s: string)
    requires NoNul(s) && |s| <= MAX_TEXT
    ensures BulkText(s) != "" && NoNul(BulkText(s)) && |BulkText(s)| <= INT64_MAX
  {
    hide Decimal;
    TextNoNul(s);
    LongNumbers(|s|);
  }

  lemma QualifiedNoNul(ns: string, key: string)
    requires NoNul(ns) && NoNul(key)
    ensures NoNul(Qualified(ns, key))
  {
  }

  lemma KeyNoNul(r: Request)
    requires HasStage(r.op, r.stage) && Named(r)
    ensures NoNul(Key(r)) && NoNul(BulkText(Key(r))) && BulkText(Key(r)) != ""
  {
    hide BulkText, Qualified;
    QualifiedNoNul(r.ns, r.key);
    QualifiedNoNul(r.target, r.key);
    QualifiedNoNul(r.ns, Pattern(r));
    QualifiedNoNul(r.ns, "*");
    TextNoNul(Key(r));
  }

  lemma Literals()
    ensures NoNul("id") && NoNul("refcnt") && NoNul("1") && NoNul("groups") && NoNul("") && NoNul("flags") && NoNul("0") && NoNul("-1")
  {
  }

  lemma FieldsPrintable(r: Request)
    requires HasStage(r.op, r.stage) && Named(r)
    ensures Printable(Fields(r))
  {
    hide BulkText, BulkHead, NoNul, IndexText, Decimal;
    IndexTextIsBulk(r.index);
    Literals();
    DecimalNoNul(r.index);
    LongNumbers(r.index);
    HeadNoNul(|r.dump|);
    TextPrintable("id");
    TextPrintable(if r.op == NsCreate then r.key else "id");
    TextPrintable("refcnt");
    TextPrintable("1");
    TextPrintable("groups");
    TextPrintable(if r.groups.Some? then r.groups.value else "");
    TextPrintable("flags");
    TextPrintable("0");
    TextPrintable("-1");
    TextPrintable(Decimal(r.index));
    TextPrintable(if r.cursor.Some? then r.cursor.value else "0");
  }

  // ---------- different arguments, different bytes ----------

  ghost predicate SameLengths(a: seq<string>, b: seq<string>) {
    |a| == |b| && forall i :: 0 <= i < |a| ==> |a[i]| == |b[i]|
  }

  /** No text is longer than it is to be. */
  ghost predicate NoLonger(a: seq<string>, b: seq<string>) {
    |a| == |b| && forall i :: 0 <= i < |a| ==> |a[i]| <= |b[i]|
  }

  lemma {:induction false} FillSame(ps: seq<Piece>, a: seq<string>, b: seq<string>, k: nat)
    requires SameLengths(a, b) && PlacesBelow(ps, |a|) && Fill(ps, a) == Fill(ps, b)
    requires k < |ps| && ps[k].Place?
    ensures a[ps[k].i] == b[ps[k].i]
    decreases |ps|
  {
    var x, y := Fill(ps, a), Fill(ps, b);
    var n := match ps[0] case Text(s) => |s| case Place(i) => |a[i]|;
    assert x[..n] == y[..n] && x[n..] == y[n..];
    assert x[n..] == Fill(ps[1..], a) && y[n..] == Fill(ps[1..], b);
    if k == 0 {
      assert x[..n] == a[ps[0].i] && y[..n] == b[ps[0].i];
    } else {
      assert ps[1..][k - 1] == ps[k];
      FillSame(ps[1..], a, b, k - 1);
    }
  }

  lemma {:induction false} FillNoLonger(ps: seq<Piece>, a: seq<string>, b: seq<string>)
    requires NoLonger(a, b) && PlacesBelow(ps, |a|)
    ensures |Fill(ps, a)| <= |Fill(ps, b)|
    decreases |ps|
  {
    if ps != [] {
      FillNoLonger(ps[1..], a, b);
    }
  }

  lemma {:induction false} FillShorter(ps: seq<Piece>, a: seq<string>, b: seq<string>, k: nat)
    requires NoLonger(a, b) && PlacesBelow(ps, |a|)
    requires k < |ps| && ps[k].Place? && |a[ps[k].i]| < |b[ps[k].i]|
    ensures |Fill(ps, a)| < |Fill(ps, b)|
    decreases |ps|
  {
    if k == 0 {
      FillNoLonger(ps[1..], a, b);
    } else {
      assert ps[1..][k - 1] == ps[k];
      FillShorter(ps[1..], a, b, k - 1);
    }
  }

  lemma PlaceUsed(op: Opcode, stage: nat, i: nat) returns (k: nat)
    requires HasStage(op, stage) && i < StageOf(op, stage).arrayLen
    ensures k < |StageOf(op, stage).template| && StageOf(op, stage).template[k] == Place(i)
  {
    var t := StageOf(op, stage).template;
    if op in {Directory, NsDetach, Iterator} && t == SCAN_TEMPLATE {
      k := if i == 0 then 2 else 4;
    } else if op == NsDetach && stage == 0 {
      k := if i == 0 then 4 else 6;
    } else if op == NsAttach && stage == 1 {
      k := if i == 0 then 2 else 4;
    } else if op == Move && stage == 1 {
      k := if i == 0 then 2 else i + 3;
    } else {
      k := i + 2;
    }
  }

  lemma ArgsCounted(r: Request)
    requires HasStage(r.op, r.stage)
    ensures |Args(r)| == StageOf(r.op, r.stage).arrayLen
  {
  }

  /** Filling the template of a stage with texts that are not too long gives the command only with the right ones. */
  lemma FilledIff(r: Request, a: seq<string>)
    requires HasStage(r.op, r.stage) && NoLonger(a, Args(r)) && PlacesBelow(StageOf(r.op, r.stage).template, |a|)
    ensures Fill(StageOf(r.op, r.stage).template, a) == Fill(StageOf(r.op, r.stage).template, Args(r)) <==> a == Args(r)
  {
    hide Args, Fill, StageOf, SCAN_TEMPLATE;
    var t := StageOf(r.op, r.stage).template;
    ArgsCounted(r);
    if Fill(t, a) == Fill(t, Args(r)) {
      forall i | 0 <= i < |a| ensures |a[i]| == |Args(r)[i]| {
        if |a[i]| < |Args(r)[i]| {
          var k := PlaceUsed(r.op, r.stage, i);
          FillShorter(t, a, Args(r), k);
        }
      }
      forall i | 0 <= i < |a| ensures a[i] == Args(r)[i] {
        var k := PlaceUsed(r.op, r.stage, i);
        FillSame(t, a, Args(r), k);
      }
    }
  }

  /** Gathering texts that are not too long gives the command exactly if they are the right texts. */
  lemma GatheredIff(r: Request, a: seq<string>)
    requires HasStage(r.op, r.stage) && r.op != Put && NoLonger(a, Args(r))
    ensures var spec := StageOf(r.op, r.stage);
      && PlacesBelow(spec.template, spec.arrayLen) && spec.arrayLen <= 10
      && var e := Expand(Template(spec.template), spec.arrayLen, Present(a));
         && e.Expanded?
         && (e.bytes == EncodeAll(Command(r)) <==> a == Args(r))
  {
    hide Command, Args, Expand, Template, Fill, EncodeAll, StageOf, SCAN_TEMPLATE, NoLonger;
    var spec := StageOf(r.op, r.stage);
    EveryStageFilled(r);
    TemplatesAreSound(r.op, r.stage);
    ArgsCounted(r);
    SameCount(a, Args(r));
    ExpandFills(spec.template, spec.arrayLen, a);
    FilledIff(r, a);
    assert Fill(spec.template, Args(r)) + "" == Fill(spec.template, Args(r));
  }

  lemma SameCount(a: seq<string>, b: seq<string>)
    requires NoLonger(a, b)
    ensures |a| == |b|
  {
  }

  // ---------- the text of a key ----------

  /** The namespace and separator that stand before a name. */
  function Prefix(r: Request): string
    requires HasStage(r.op, r.stage)
  {
    if r.op in {Put, Get, Read, Remove, Move} then (if r.op == Move && r.stage == 1 then r.target else r.ns) + SEPARATOR else ""
  }

  function Name(r: Request): string
    requires HasStage(r.op, r.stage) && !IsScan(r)
  {
    match r.op
    case NsDetach => if r.stage == 2 then r.scanned else r.ns
    case Directory => r.ns
    case NsQuery => r.ns
    case NsDelete => r.ns
    case _ => r.key
  }

  /** The text of a key; its lengths are measured only as far as the room for it. */
  function KeyText(prefix: string, name: string, size: nat): string {
    var counted := (if prefix == "" then 0 else Min(|prefix| - Min(2, |prefix|), size) + 2) + Min(|name|, size);
    BulkHead(counted) + prefix + name + CRLF
  }

  /** A key that fits its room is measured right; one that does not is no shorter for it. */
  lemma KeyTextMeasured(prefix: string, name: string, size: nat)
    requires prefix == "" || |prefix| >= 2
    ensures |KeyText(prefix, name, size)| <= size <==> |BulkText(prefix + name)| <= size
    ensures |BulkText(prefix + name)| <= size || (|name| <= size && |prefix| <= size + 2) ==>
              KeyText(prefix, name, size) == BulkText(prefix + name)
  {
    hide BulkHead;
    var n := |prefix + name|;
    if |name| <= size && |prefix| <= size + 2 {
      assert BulkHead(n) + prefix + name + CRLF == BulkHead(n) + (prefix + name) + CRLF;
    }
  }

  lemma KeyTextPrintable(prefix: string, name: string, size: nat)
    requires NoNul(prefix + name) && |prefix| <= MAX_NAME + 2 && |name| <= MAX_TEXT
    ensures NoNul(KeyText(prefix, name, size)) && KeyText(prefix, name, size) != "" && |KeyText(prefix, name, size)| <= INT64_MAX
  {
    hide Decimal;
    var counted := (if prefix == "" then 0 else Min(|prefix| - Min(2, |prefix|), size) + 2) + Min(|name|, size);
    DecimalNoNul(counted);
    LongNumbers(counted);
    assert KeyText(prefix, name, size) == BulkHead(counted) + (prefix + name) + CRLF;
  }

  lemma KeyIsSplit(r: Request)
    requires HasStage(r.op, r.stage) && !IsScan(r) && Named(r)
    ensures Key(r) == Prefix(r) + Name(r) && (Prefix(r) == "" || |Prefix(r)| >= 2)
    ensures |Prefix(r)| <= MAX_NAME + 2 && |Name(r)| <= MAX_TEXT
    ensures !Checked(r) ==> Prefix(r) == "" && |Name(r)| < MAX_KEY
  {
  }

  // ---------- a command with room for its bytes is accepted ----------

  /** A fitting command is accepted, and takes the room of its texts. */
  lemma FittingIsAccepted(r: Request, size: nat, used: nat)
    requires HasStage(r.op, r.stage) && Named(r) && used <= size && Fits(r, size - used)
    ensures FateOf(r, size, used) == Accepted(used + KeySize(r) + Total(Printouts(r)))
  {
    hide Named, BulkHead, BulkText, Key, Fields, Measured, MatchOf, ScanText;
    if r.op == Put {
      NextHead(|r.value|);
      assert [BulkHead(|r.value|)][1..] == [];
      assert Total([BulkHead(|r.value|)]) == |BulkHead(|r.value|)|;
    } else if IsScan(r) {
      ShortPattern(r);
    }
  }

  lemma NextHead(n: nat)
    ensures |BulkHead(n + 1)| <= |BulkHead(n)| + 1
  {
    hide Decimal;
    NextDecimal(n);
  }

  lemma {:induction false} NextDecimal(n: nat)
    ensures |Decimal(n + 1)| <= |Decimal(n)| + 1
    decreases n
  {
    if n >= 10 {
      if n % 10 == 9 {
        assert (n + 1) / 10 == n / 10 + 1;
        NextDecimal(n / 10);
      } else {
        assert (n + 1) / 10 == n / 10;
      }
    }
  }

  lemma ShortPattern(r: Request)
    requires HasStage(r.op, r.stage) && Named(r) && IsScan(r) && KeySize(r) < MAX_KEY
    ensures KeyPrinted(r) == KeySize(r) && Measured(r) <= KeySize(r)
  {
    hide Decimal;
    assert |Key(r)| == |r.ns| + 2 + |MatchOf(r)|;
    ScanTextMeasured(r);
  }

  lemma {:induction false} BlankShortens(ps: seq<Piece>, a: seq<string>, i: nat)
    requires i < |a| && PlacesBelow(ps, |a|) && Place(i) in ps
    ensures |Fill(ps, a[i := ""])| + |a[i]| <= |Fill(ps, a)|
    decreases |ps|
  {
    if ps[0] == Place(i) {
      FillNoLonger(ps[1..], a[i := ""], a);
    } else {
      BlankShortens(ps[1..], a, i);
    }
  }

  lemma {:induction false} TotalSnoc(texts: seq<string>, t: string)
    ensures Total(texts + [t]) == Total(texts) + |t|
    decreases |texts|
  {
    if texts != [] {
      assert (texts + [t])[1..] == texts[1..] + [t];
      TotalSnoc(texts[1..], t);
    }
  }

  lemma {:induction false} ArgsFilled(ps: seq<Piece>, a: seq<string>, n: nat)
    requires n <= |a| && PlacesBelow(ps, |a|) && forall i: nat :: i < n ==> Place(i) in ps
    ensures Total(a[..n]) <= |Fill(ps, a)|
    decreases n
  {
    if n > 0 {
      var b := a[n - 1 := ""];
      ArgsFilled(ps, b, n - 1);
      BlankShortens(ps, a, n - 1);
      assert b[..n - 1] == a[..n - 1] && a[..n] == a[..n - 1] + [a[n - 1]];
      TotalSnoc(a[..n - 1], a[n - 1]);
    }
  }

  lemma TextsOfArgs(r: Request)
    requires HasStage(r.op, r.stage)
    ensures KeySize(r) + Total(Printouts(r)) <= Total(Args(r)) + |Tail(r)|
  {
    hide BulkHead, Key, Fields;
    var key := BulkText(Key(r));
    if IsScan(r) {
      TotalSnoc(Fields(r), key);
    } else if r.op == Put {
      assert Total([key, ""]) == |key| + Total([""]);
    } else if r.op == Move && r.stage == 1 {
      TotalSnoc([key] + Fields(r), r.dump);
      assert ([key] + Fields(r))[1..] == Fields(r);
    } else {
      assert ([key] + Fields(r))[1..] == Fields(r);
    }
  }

  /** A room larger than the command is large enough, if the key is within its limit. */
  lemma RoomyFits(r: Request, room: nat)
    requires HasStage(r.op, r.stage) && KeySize(r) < MAX_KEY && |EncodeAll(Command(r))| < room
    ensures Fits(r, room)
  {
    hide Args, Fill, StageOf, SCAN_TEMPLATE, Total, Printouts, Tail, Command, Key, BulkText, EncodeAll;
    var t := StageOf(r.op, r.stage).template;
    EveryStageFilled(r);
    TemplatesAreSound(r.op, r.stage);
    ArgsCounted(r);
    forall i: nat | i < |Args(r)| ensures Place(i) in t {
      var k := PlaceUsed(r.op, r.stage, i);
    }
    ArgsFilled(t, Args(r), |Args(r)|);
    assert Args(r)[..|Args(r)|] == Args(r);
    TextsOfArgs(r);
  }
}
