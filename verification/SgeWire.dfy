/** The wire format of scatter/gather lists between a client and the function-shipping server. */
module SgeWire {
  import opened Definitions
  import opened Resp
  import opened RespParser
  import opened RespParserWhole

  /** An entry of the list: memory, or a NULL pointer, which is to have no length. */
  datatype Entry = Memory(bytes: string) | Null(claimed: nat)

  function LenOf(e: Entry): nat {
    match e
    case Memory(bytes) => |bytes|
    case Null(claimed) => claimed
  }

  predicate Coherent(list: seq<Entry>) {
    forall i :: 0 <= i < |list| ==> list[i].Null? ==> list[i].claimed == 0
  }

  // ---------- writing ----------

  function TotalLen(list: seq<Entry>): nat {
    if list == [] then 0 else LenOf(list[0]) + TotalLen(list[1..])
  }

  /** The length on the wire; -1 stands for a NULL pointer. */
  function Item(e: Entry): int {
    if e == Null(0) then -1 else LenOf(e)
  }

  function Items(list: seq<Entry>): string {
    if list == [] then "" else SignedDecimal(Item(list[0])) + "\n" + Items(list[1..])
  }

  function BytesOf(e: Entry): string {
    if e.Memory? then e.bytes else ""
  }

  function Payload(list: seq<Entry>): string {
    if list == [] then "" else BytesOf(list[0]) + Payload(list[1..])
  }

  function Head(list: seq<Entry>): string {
    Decimal(TotalLen(list)) + "\n" + Decimal(|list|) + "\n"
  }

  function Wire(list: seq<Entry>): string {
    Head(list) + Items(list) + Payload(list)
  }

  // ---------- reading ----------

  datatype Num = Num(value: int, end: nat) | NoNum

  /** sscanf with "%ld\n": a number, and then all the white space that follows. */
  function ScanNum(m: string, p: nat): Num {
    var (value, end) := StrToL(m, p);
    if end == p then NoNum else Num(value, SkipSpaces(m, end))
  }

  datatype Lens = Lens(values: seq<int>, end: nat) | LensFail(code: int)

  /** n lengths from p on, in data that ends at `end`. A single byte that is left over ends the scan. */
  function ScanLens(m: string, p: nat, end: nat, n: nat): Lens
    decreases n
  {
    if n == 0 then Lens([], p)
    else if p >= end then LensFail(0 - EAGAIN)
    else if p + 1 == end then Lens(seq(n, i => 0), p)
    else
      match ScanNum(m, p)
      case NoNum => LensFail(0 - EBADMSG)
      case Num(value, q) =>
        if q > end then LensFail(0 - EBADMSG)
        else if q == 0 || At(m, q - 1) != '\n' then LensFail(0 - EAGAIN)
        else match ScanLens(m, q, end, n - 1)
          case LensFail(code) => LensFail(code)
          case Lens(values, r) => Lens([value] + values, r)
  }

  function ToSize(n: int): nat {
    n % SIZE_RANGE
  }

  /** The sum of the lengths, a NULL pointer counting nothing. */
  function Sum(values: seq<int>): int {
    if values == [] then 0 else (if values[0] == -1 then 0 else values[0]) + Sum(values[1..])
  }

  datatype Header = Header(values: seq<int>, parsed: nat) | HeaderFail(code: int)

  function ExtractHeader(m: string, space: nat): Header {
    if space == 0 then HeaderFail(0 - EINVAL)
    else if space < 4 then HeaderFail(0 - EAGAIN)
    else
      match ScanNum(m, 0)
      case NoNum => HeaderFail(0 - EBADMSG)
      case Num(total, p) =>
        match ScanNum(m, p)
        case NoNum => HeaderFail(0 - EBADMSG)
        case Num(count, q) =>
          if q > space || count < 1 || space < 2 * count then HeaderFail(0 - EBADMSG)
          else match ScanLens(m, q, space, count)
            case LensFail(code) => HeaderFail(code)
            case Lens(values, end) =>
              if ToSize(Sum(values)) != ToSize(total) then HeaderFail(0 - EBADMSG)
              else if ToSize(total) == 0 && end >= 2 && At(m, end - 1) == '\n' && At(m, end - 2) == '\n' then Header(values, end - 1)
              else Header(values, end)
  }

  /** A segment that was read: where its bytes are, or a NULL pointer. */
  datatype Segment = Bytes(from: nat, len: nat) | NullSegment

  datatype Result = Read(segments: seq<Segment>, total: nat) | Failed(code: int)

  function Segments(values: seq<int>, p: nat, space: nat): Result
    decreases |values|
  {
    if values == [] then Read([], p)
    else if values[0] == -1 then
      match Segments(values[1..], p, space)
      case Failed(code) => Failed(code)
      case Read(segs, total) => Read([NullSegment] + segs, total)
    else
      var len := ToSize(values[0]);
      if p + len > space then Failed(0 - EAGAIN)
      else match Segments(values[1..], p + len, space)
        case Failed(code) => Failed(code)
        case Read(segs, total) => Read([Bytes(p, len)] + segs, total)
  }

  function Deserialize(m: string, space: nat): Result {
    if space < 4 then Failed(0 - EAGAIN)
    else match ExtractHeader(m, space)
      case HeaderFail(code) => Failed(code)
      case Header(values, parsed) => Segments(values, parsed, space)
  }

  // ---------- what is to be read ----------

  function SegmentsOf(list: seq<Entry>, p: nat): seq<Segment> {
    if list == [] then []
    else [if list[0].Null? then NullSegment else Bytes(p, LenOf(list[0]))] + SegmentsOf(list[1..], p + LenOf(list[0]))
  }

  function ValuesOfList(list: seq<Entry>): seq<int> {
    seq(|list|, i requires 0 <= i < |list| => Item(list[i]))
  }

  /** The contents of what was read. */
  function ContentOf(m: string, s: Segment): Entry {
    match s
    case NullSegment => Null(0)
    case Bytes(p, len) => Memory(if p + len <= |m| then m[p..p + len] else "")
  }

  function ContentsOf(m: string, segs: seq<Segment>): seq<Entry> {
    seq(|segs|, i requires 0 <= i < |segs| => ContentOf(m, segs[i]))
  }

  // ---------- numbers ----------

  /** A number and its line end are read back, up to the next byte that is no white space. */
  lemma NumRead(m: string, p: nat, n: int)
    requires n >= -1 && Holds(m, p, SignedDecimal(n) + "\n")
    ensures ScanNum(m, p) == Num(n, SkipSpaces(m, p + |SignedDecimal(n)| + 1))
  {
    hide Holds, SkipSpaces, SkipDigits;
    var text := SignedDecimal(n);
    HoldsParts(m, p, text, "\n");
    var end := p + |text|;
    if n < 0 {
      HoldsParts(m, p, "-", Decimal(0 - n));
      DigitsRead(m, p + 1, 0 - n);
      SignRead(m, p);
    } else {
      DigitsRead(m, p, n);
    }
    NewlineSkipped(m, end);
  }

  lemma SignRead(m: string, p: nat)
    requires Holds(m, p, "-")
    ensures At(m, p) == '-' && SkipSpaces(m, p) == p
  {
    HoldsAt(m, p, "-", 0);
  }

  lemma NewlineSkipped(m: string, p: nat)
    requires Holds(m, p, "\n")
    ensures p < |m| && SkipSpaces(m, p) == SkipSpaces(m, p + 1)
  {
    HoldsAt(m, p, "\n", 0);
  }

  lemma DigitsRead(m: string, p: nat, n: nat)
    requires Holds(m, p, Decimal(n)) && Holds(m, p + |Decimal(n)|, "\n")
    ensures SkipDigits(m, p, 0) == (n, p + |Decimal(n)|)
    ensures At(m, p) != '-' && At(m, p) != '+' && SkipSpaces(m, p) == p
  {
    hide Decimal;
    SkipDigitsReads(m, p, Decimal(n), 0);
    DecimalReadsBack(n);
    HoldsAt(m, p + |Decimal(n)|, "\n", 0);
    HoldsAt(m, p, Decimal(n), 0);
  }

  lemma SignedStart(n: int)
    requires n >= -1
    ensures SignedDecimal(n) != "" && !IsSpace(SignedDecimal(n)[0])
  {
  }

  lemma NotSkipped(m: string, p: nat)
    requires !IsSpace(At(m, p))
    ensures SkipSpaces(m, p) == p
  {
  }

  // ---------- the lengths ----------

  /** The lengths are read back; behind the last one, all white space is taken. */
  lemma {:induction false} LensRead(m: string, p: nat, end: nat, list: seq<Entry>)
    requires list != [] && Holds(m, p, Items(list)) && p + |Items(list)| <= end
    ensures var e := SkipSpaces(m, p + |Items(list)|);
      ScanLens(m, p, end, |list|) ==
        if e > end then LensFail(0 - EBADMSG)
        else if e == 0 || At(m, e - 1) != '\n' then LensFail(0 - EAGAIN)
        else Lens(ValuesOfList(list), e)
    decreases |list|
  {
    hide ScanNum, Holds, SkipSpaces, SignedDecimal, At, IsSpace;
    var item := Item(list[0]);
    var text := SignedDecimal(item) + "\n";
    HoldsParts(m, p, text, Items(list[1..]));
    NumRead(m, p, item);
    SignedStart(item);
    var q := p + |text|;
    if |list| == 1 {
      assert list[1..] == [] && Items(list) == text + "";
      assert ValuesOfList(list) == [item] + [];
    } else {
      var next := SignedDecimal(Item(list[1]));
      SignedStart(Item(list[1]));
      assert list[1..][0] == list[1];
      HoldsParts(m, q, next + "\n", Items(list[1..][1..]));
      HoldsParts(m, q, next, "\n");
      HoldsAt(m, q, next, 0);
      NotSkipped(m, q);
      HoldsAt(m, p, text, |text| - 1);
      LensRead(m, q, end, list[1..]);
      assert ValuesOfList(list) == [item] + ValuesOfList(list[1..]);
    }
  }

  lemma {:induction false} SumOfValues(list: seq<Entry>)
    requires Coherent(list)
    ensures Sum(ValuesOfList(list)) == TotalLen(list) == |Payload(list)|
    decreases |list|
  {
    if list != [] {
      assert ValuesOfList(list)[1..] == ValuesOfList(list[1..]);
      SumOfValues(list[1..]);
    }
  }

  // ---------- the segments ----------

  lemma SizeOfSmall(n: nat)
    ensures n < SIZE_RANGE ==> ToSize(n) == n
  {
  }

  lemma {:induction false} SegmentsRead(list: seq<Entry>, p: nat, space: nat)
    requires Coherent(list) && TotalLen(list) < SIZE_RANGE && p + TotalLen(list) <= space
    ensures Segments(ValuesOfList(list), p, space) == Read(SegmentsOf(list, p), p + TotalLen(list))
    decreases |list|
  {
    hide ToSize;
    if list != [] {
      SizeOfSmall(LenOf(list[0]));
      assert ValuesOfList(list)[1..] == ValuesOfList(list[1..]);
      SegmentsRead(list[1..], p + LenOf(list[0]), space);
    }
  }

  /** Whatever segments are read, they end where their lengths say. */
  lemma {:induction false} SegmentsTotal(list: seq<Entry>, p: nat, space: nat)
    requires Coherent(list) && TotalLen(list) < SIZE_RANGE
    ensures var r := Segments(ValuesOfList(list), p, space); r.Read? ==> r.total == p + TotalLen(list)
    decreases |list|
  {
    if list != [] {
      assert ValuesOfList(list)[1..] == ValuesOfList(list[1..]);
      SegmentsTotal(list[1..], p + LenOf(list[0]), space);
    }
  }

  lemma SliceHeld(m: string, p: nat, s: string)
    requires Holds(m, p, s)
    ensures p + |s| <= |m| && m[p..p + |s|] == s
  {
  }

  /** The segments hold the entries, and NULL is told from empty. */
  lemma {:induction false} SegmentContents(m: string, list: seq<Entry>, p: nat)
    requires Coherent(list) && Holds(m, p, Payload(list))
    ensures ContentsOf(m, SegmentsOf(list, p)) == list
    decreases |list|
  {
    hide Holds, ContentsOf, ContentOf, LenOf;
    if list == [] {
      NoContents(m);
    } else {
      var first := BytesOf(list[0]);
      var seg := if list[0].Null? then NullSegment else Bytes(p, LenOf(list[0]));
      FirstContent(m, list[0], p, first);
      HoldsParts(m, p, first, Payload(list[1..]));
      SegmentContents(m, list[1..], p + |first|);
      ContentsCons(m, seg, SegmentsOf(list[1..], p + |first|));
      assert list == [list[0]] + list[1..];
    }
  }

  lemma NoContents(m: string)
    ensures ContentsOf(m, []) == []
  {
  }

  lemma FirstContent(m: string, e: Entry, p: nat, first: string)
    requires e.Null? ==> e.claimed == 0
    requires first == BytesOf(e)
    ensures LenOf(e) == |first|
    ensures Holds(m, p, first) ==> ContentOf(m, if e.Null? then NullSegment else Bytes(p, |first|)) == e
  {
    hide Holds;
    if Holds(m, p, first) {
      SliceHeld(m, p, first);
    }
  }

  lemma ContentsCons(m: string, seg: Segment, segs: seq<Segment>)
    ensures ContentsOf(m, [seg] + segs) == [ContentOf(m, seg)] + ContentsOf(m, segs)
  {
    hide ContentOf;
  }

  // ---------- the header ----------

  /** Where the payload starts. */
  function Start(list: seq<Entry>): nat {
    |Head(list)| + |Items(list)|
  }

  /**
    No white space follows the last length but its own line end: the payload does not begin with any,
    and an empty one is followed by a single line end.
   */
  predicate Clean(m: string, list: seq<Entry>) {
    !IsSpace(At(m, if Payload(list) == "" then Start(list) + 1 else Start(list)))
  }

  lemma HeadRead(m: string, list: seq<Entry>)
    requires list != [] && Holds(m, 0, Head(list) + Items(list))
    ensures var p := |Decimal(TotalLen(list))| + 1;
      ScanNum(m, 0) == Num(TotalLen(list), p) && ScanNum(m, p) == Num(|list|, |Head(list)|)
  {
    hide ScanNum, Holds, Head, Items, TotalLen;
    HoldsParts(m, 0, Head(list), Items(list));
    ItemsStart(list);
    HoldsAt(m, |Head(list)|, Items(list), 0);
    HeadAlone(m, list);
  }

  /** Total length and number of entries, with no white space behind them. */
  lemma HeadAlone(m: string, list: seq<Entry>)
    requires Holds(m, 0, Head(list)) && !IsSpace(At(m, |Head(list)|))
    ensures var p := |Decimal(TotalLen(list))| + 1;
      ScanNum(m, 0) == Num(TotalLen(list), p) && ScanNum(m, p) == Num(|list|, |Head(list)|)
  {
    hide ScanNum, Holds, SkipSpaces, Decimal, TotalLen;
    var a, b := Decimal(TotalLen(list)) + "\n", Decimal(|list|) + "\n";
    assert Head(list) == a + b;
    HoldsParts(m, 0, a, b);
    NumRead(m, 0, TotalLen(list));
    NumRead(m, |a|, |list|);
    SignedStart(|list|);
    HoldsAt(m, |a|, b, 0);
    NotSkipped(m, |a|);
    NotSkipped(m, |a + b|);
  }

  lemma HeadLong(list: seq<Entry>)
    ensures |Head(list)| >= 4
  {
  }

  lemma ItemsStart(list: seq<Entry>)
    requires list != []
    ensures |Items(list)| >= 2 * |list| && !IsSpace(Items(list)[0])
  {
    SignedStart(Item(list[0]));
    ItemsLong(list);
  }

  lemma {:induction false} ItemsLong(list: seq<Entry>)
    ensures |Items(list)| >= 2 * |list|
    decreases |list|
  {
    if list != [] {
      SignedStart(Item(list[0]));
      ItemsLong(list[1..]);
    }
  }

  /** The header of a list that is sent: its lengths, and where reading it ends. */
  lemma HeaderRead(m: string, list: seq<Entry>, space: nat)
    requires list != [] && Coherent(list) && TotalLen(list) < SIZE_RANGE
    requires Holds(m, 0, Head(list) + Items(list)) && Start(list) <= space
    ensures var e := SkipSpaces(m, Start(list));
      ExtractHeader(m, space) ==
        if e > space then HeaderFail(0 - EBADMSG)
        else if e == 0 || At(m, e - 1) != '\n' then HeaderFail(0 - EAGAIN)
        else if TotalLen(list) == 0 && e >= 2 && At(m, e - 2) == '\n' then Header(ValuesOfList(list), e - 1)
        else Header(ValuesOfList(list), e)
  {
    hide ScanNum, ScanLens, Holds, SkipSpaces, Items, TotalLen, Head, Sum, Coherent, At, ValuesOfList;
    HeadRead(m, list);
    HoldsParts(m, 0, Head(list), Items(list));
    LensRead(m, |Head(list)|, space, list);
    SumOfValues(list);
    ItemsStart(list);
    HeadLong(list);
  }

  /** White space is only ever skipped forward; the first byte behind the lengths decides whether any is. */
  lemma {:induction false} SkipForward(m: string, p: nat)
    ensures SkipSpaces(m, p) >= p
    decreases |m| - p
  {
    if p < |m| && IsSpace(m[p]) {
      SkipForward(m, p + 1);
    }
  }

  lemma SkipFrom(m: string, p: nat)
    ensures if IsSpace(At(m, p)) then SkipSpaces(m, p) == SkipSpaces(m, p + 1) >= p + 1 else SkipSpaces(m, p) == p
  {
    SkipForward(m, p + 1);
  }

  /**
    A list that was written, with a line end behind it, is read back with its segments, and reading
    takes just the bytes written, exactly if no further white space follows its lengths.
   */
  lemma RoundTripIff(m: string, list: seq<Entry>, space: nat)
    requires 1 <= |list| <= MAX_SGE && Coherent(list) && TotalLen(list) <= INT64_MAX
    requires Holds(m, 0, Wire(list) + "\n") && |Wire(list)| < space
    ensures Deserialize(m, space) == Read(SegmentsOf(list, Start(list)), |Wire(list)|) <==> Clean(m, list)
    ensures ContentsOf(m, SegmentsOf(list, Start(list))) == list
  {
    hide Holds, SkipSpaces, IsSpace, Items, Payload, Head, TotalLen, ExtractHeader, Segments, SegmentsOf, Coherent;
    hide ContentsOf;
    var a := Start(list);
    HoldsParts(m, 0, Wire(list), "\n");
    HoldsParts(m, 0, Head(list) + Items(list), Payload(list));
    SegmentContents(m, list, a);
    SumOfValues(list);
    HeaderRead(m, list, space);
    HeadLong(list);
    LastByte(m, list);
    SkipFrom(m, a);
    SkipFrom(m, a + 1);
    PayloadStart(m, list);
    SegmentsRead(list, a, space);
    SegmentsTotal(list, SkipSpaces(m, a), space);
    SegmentsTotal(list, if SkipSpaces(m, a) > 0 then SkipSpaces(m, a) - 1 else 0, space);
  }

  /** The byte before the payload is the line end of the last length. */
  lemma {:induction false} LastItem(list: seq<Entry>)
    requires list != []
    ensures Items(list) != "" && Items(list)[|Items(list)| - 1] == '\n'
    decreases |list|
  {
    if |list| > 1 {
      LastItem(list[1..]);
    } else {
      assert list[1..] == [];
    }
  }

  lemma LastByte(m: string, list: seq<Entry>)
    requires list != [] && Holds(m, 0, Head(list) + Items(list))
    ensures Start(list) > 0 && At(m, Start(list) - 1) == '\n'
  {
    hide Holds, Items, Head;
    LastItem(list);
    HoldsParts(m, 0, Head(list), Items(list));
    HoldsAt(m, |Head(list)|, Items(list), |Items(list)| - 1);
  }

  lemma PayloadStart(m: string, list: seq<Entry>)
    requires Holds(m, 0, Wire(list) + "\n")
    ensures Payload(list) == "" ==> At(m, Start(list)) == '\n' && IsSpace(At(m, Start(list)))
  {
    hide Holds, Items, Head;
    HoldsParts(m, 0, Wire(list), "\n");
    HoldsAt(m, |Wire(list)|, "\n", 0);
  }

  /** Such lists exist: the blank that the payload begins with is taken for white space of the header. */
  lemma BlankIsLost(m: string, space: nat)
    requires var list := [Memory(" x")]; Holds(m, 0, Wire(list) + "\n") && |Wire(list)| < space
    ensures var list := [Memory(" x")]; Deserialize(m, space) != Read(SegmentsOf(list, Start(list)), |Wire(list)|)
  {
    hide Wire, SegmentsOf, Deserialize, Start, Holds;
    var list := [Memory(" x")];
    assert !Clean(m, list) by {
      BlankFirst(m, list);
    }
    assert TotalLen(list) == 2 by {
      assert list[1..] == [];
    }
    RoundTripIff(m, list, space);
  }

  lemma BlankFirst(m: string, list: seq<Entry>)
    requires list == [Memory(" x")] && Holds(m, 0, Wire(list) + "\n")
    ensures !Clean(m, list)
  {
    hide Holds, Head, Items;
    assert list[1..] == [];
    assert Payload(list) == " x" + "";
    HoldsParts(m, 0, Wire(list), "\n");
    HoldsParts(m, 0, Head(list) + Items(list), Payload(list));
    HoldsAt(m, Start(list), Payload(list), 0);
  }
}
