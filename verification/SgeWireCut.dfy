/** What reading a scatter/gather list does when only the first bytes of it have arrived. */
module SgeWireCut {
  import opened Definitions
  import opened Resp
  import opened RespParser
  import opened RespParserWhole
  import opened SgeWire

  /** Again: -EAGAIN and a retry; Broken: -EBADMSG; Taken: the part is taken for a list. */
  datatype CutOutcome = Again | Broken | Taken

  /**
    The byte behind the received data continues no number: the server puts a NUL there before it reads.
   */
  predicate Stops(c: char) {
    !IsDigit(c) && !IsSpace(c) && c != '-' && c != '+'
  }

  /**
    j bytes of the lengths of these entries have arrived. A single byte of a length is not read: the lengths
    that are missing count as zero, and the whole list has `whole` bytes.
   */
  function ItemsCut(list: seq<Entry>, whole: nat, j: nat): CutOutcome
    requires j < |Items(list)|
    decreases |list|
  {
    var text := |SignedDecimal(Item(list[0]))| + 1;
    if j == 0 then Again
    else if j == 1 then (if TotalLen(list) > 0 then Broken else if whole <= 1 then Taken else Again)
    else if j < text then Again
    else ItemsCut(list[1..], whole, j - text)
  }

  /** The number of entries, as far as its digits have arrived. */
  function CountRead(list: seq<Entry>, n: nat): nat {
    var digits := Decimal(|list|);
    Accumulate(0, if n < |digits| then digits[..n] else digits)
  }

  /**
    The outcome of reading the first k bytes of a list: broken within the total length, broken while less has
    arrived than twice the number of entries, else a retry, except after the first byte of a length.
   */
  function Cut(list: seq<Entry>, k: nat): CutOutcome
    requires k < |Wire(list)|
  {
    var total := |Decimal(TotalLen(list))| + 1;
    if k < 4 then Again
    else if k <= total then Broken
    else if k <= |Head(list)| then (if k < 2 * CountRead(list, k - total) then Broken else Again)
    else if k >= Start(list) then Again
    else if k < 2 * |list| then Broken
    else ItemsCut(list, TotalLen(list), k - |Head(list)|)
  }

  ghost predicate Yields(r: Result, c: CutOutcome, k: nat) {
    match c
    case Again => r == Failed(0 - EAGAIN)
    case Broken => r == Failed(0 - EBADMSG)
    case Taken => r.Read? && r.total <= k
  }

  // ---------- numbers ----------

  lemma NoNumHere(m: string, p: nat)
    requires Stops(At(m, p))
    ensures ScanNum(m, p) == NoNum
  {
  }

  lemma DigitsCut(m: string, p: nat, digits: string)
    requires digits != "" && (forall i :: 0 <= i < |digits| ==> IsDigit(digits[i])) && Holds(m, p, digits)
    requires Stops(At(m, p + |digits|))
    ensures ScanNum(m, p) == Num(Accumulate(0, digits), p + |digits|)
  {
    HoldsAt(m, p, digits, 0);
    SkipDigitsReads(m, p, digits, 0);
  }

  lemma MinusOneCut(m: string, p: nat)
    requires Holds(m, p, "-1") && Stops(At(m, p + 2))
    ensures ScanNum(m, p) == Num(-1, p + 2)
  {
    HoldsAt(m, p, "-1", 0);
    HoldsAt(m, p, "-1", 1);
    assert SkipDigits(m, p + 1, 0) == SkipDigits(m, p + 2, 1) == (1, p + 2);
  }

  /** A length without its line end. */
  lemma ItemIsCut(m: string, p: nat, n: int, j: nat)
    requires n >= -1 && 2 <= j <= |SignedDecimal(n)| && Holds(m, p, SignedDecimal(n)[..j]) && Stops(At(m, p + j))
    ensures ScanNum(m, p).Num? && ScanNum(m, p).end == p + j && At(m, p + j - 1) != '\n'
  {
    hide ScanNum, Holds;
    var part := SignedDecimal(n)[..j];
    HoldsAt(m, p, part, j - 1);
    if n < 0 {
      assert Decimal(1) == "1" && part == "-1";
      MinusOneCut(m, p);
    } else {
      DigitsCut(m, p, part);
    }
  }

  // ---------- the lengths ----------

  predicate Plausible(values: seq<int>) {
    forall i :: 0 <= i < |values| ==> -1 <= values[i] < SIZE_RANGE
  }

  lemma {:induction false} SumOfZeros(n: nat)
    ensures Sum(seq(n, i => 0)) == 0 && Plausible(seq(n, i => 0))
    decreases n
  {
    if n > 0 {
      assert seq(n, i => 0)[1..] == seq(n - 1, i => 0);
      SumOfZeros(n - 1);
    }
  }

  /** What the scan gives: more is needed, or it ended at a single byte, with zeros for what it did not read. */
  ghost predicate Scanned(r: Lens, list: seq<Entry>, whole: nat, m: string, end: nat, c: CutOutcome) {
    match r
    case LensFail(code) => code == 0 - EAGAIN && c == Again
    case Lens(values, q) =>
      && 2 <= q == end - 1 && At(m, q - 2) != '\n' && Plausible(values) && 0 <= Sum(values) <= TotalLen(list)
      && c == if Sum(values) < TotalLen(list) then Broken else if whole <= 1 then Taken else Again
  }

  lemma SingleByte(m: string, p: nat, list: seq<Entry>, whole: nat)
    requires list != [] && |Items(list)| > 1 && 2 <= p && At(m, p - 2) != '\n'
    ensures Scanned(ScanLens(m, p, p + 1, |list|), list, whole, m, p + 1, ItemsCut(list, whole, 1))
  {
    SumOfZeros(|list|);
  }

  lemma CutInItem(m: string, p: nat, list: seq<Entry>, whole: nat, j: nat)
    requires list != [] && 2 <= j < |Items(list)| && j <= |SignedDecimal(Item(list[0]))|
    requires Holds(m, p, Items(list)[..j]) && Stops(At(m, p + j))
    ensures ScanLens(m, p, p + j, |list|) == LensFail(0 - EAGAIN) && ItemsCut(list, whole, j) == Again
  {
    hide ScanNum, Holds, SignedDecimal, Stops;
    var text := SignedDecimal(Item(list[0]));
    assert Items(list)[..j] == text[..j];
    ItemIsCut(m, p, Item(list[0]), j);
  }

  lemma FirstItem(list: seq<Entry>, j: nat)
    requires list != [] && |SignedDecimal(Item(list[0]))| < j < |Items(list)|
    ensures var text, rest := SignedDecimal(Item(list[0])) + "\n", Items(list[1..]);
      && Items(list) == text + rest && list[1..] != [] && j - |text| < |rest| && Items(list)[..j] == text + rest[..j - |text|]
      && Item(list[0]) >= -1
  {
    hide SignedDecimal;
  }

  /** The first length is read, and the scan goes on behind it. */
  lemma ItemIsRead(m: string, p: nat, list: seq<Entry>, j: nat)
    requires list != [] && |SignedDecimal(Item(list[0]))| < j < |Items(list)|
    requires Holds(m, p, Items(list)[..j]) && Stops(At(m, p + j))
    ensures var item, q := Item(list[0]), p + |SignedDecimal(Item(list[0]))| + 1;
      && list[1..] != [] && |Items(list)| == |Items(list[1..])| + q - p
      && ScanNum(m, p) == Num(item, q) && At(m, q - 1) == '\n' && At(m, q - 2) != '\n'
      && Holds(m, q, Items(list[1..])[..j - (q - p)])
  {
    hide ScanNum, Holds, SkipSpaces, Stops, IsSpace, SignedDecimal, Items, Item;
    var item := Item(list[0]);
    var text := SignedDecimal(item) + "\n";
    var rest := Items(list[1..]);
    var q := p + |text|;
    FirstItem(list, j);
    HoldsParts(m, p, text, rest[..j - |text|]);
    NumRead(m, p, item);
    HoldsAt(m, p, text, |text| - 1);
    LastDigit(m, p, item);
    if j > |text| {
      ItemsStart(list[1..]);
      HoldsAt(m, q, rest[..j - |text|], 0);
    } else {
      StopsIsNoSpace(At(m, q));
    }
    NotSkipped(m, q);
  }

  lemma StopsIsNoSpace(c: char)
    requires Stops(c)
    ensures !IsSpace(c)
  {
  }

  lemma LastDigit(m: string, p: nat, n: int)
    requires n >= -1 && Holds(m, p, SignedDecimal(n) + "\n")
    ensures |SignedDecimal(n)| > 0 && At(m, p + |SignedDecimal(n)| - 1) != '\n'
  {
    var text := SignedDecimal(n);
    HoldsAt(m, p, text + "\n", |text| - 1);
  }

  lemma {:induction false} LensAreCut(m: string, p: nat, list: seq<Entry>, whole: nat, j: nat)
    requires list != [] && Coherent(list) && TotalLen(list) < SIZE_RANGE && 2 <= p && At(m, p - 2) != '\n'
    requires j < |Items(list)| && Holds(m, p, Items(list)[..j]) && Stops(At(m, p + j))
    ensures Scanned(ScanLens(m, p, p + j, |list|), list, whole, m, p + j, ItemsCut(list, whole, j))
    decreases |list|
  {
    hide ScanNum, Holds, SignedDecimal, Stops, Plausible;
    if j == 1 {
      SingleByte(m, p, list, whole);
    } else if j > 1 && j <= |SignedDecimal(Item(list[0]))| {
      CutInItem(m, p, list, whole, j);
    } else if j > 1 {
      var item, q := Item(list[0]), p + |SignedDecimal(Item(list[0]))| + 1;
      ItemIsRead(m, p, list, j);
      LensAreCut(m, q, list[1..], whole, j - (q - p));
      LensFollow(m, p, q, p + j, list, whole, ItemsCut(list, whole, j));
    }
  }

  lemma LensFollow(m: string, p: nat, q: nat, end: nat, list: seq<Entry>, whole: nat, c: CutOutcome)
    requires list != [] && Coherent(list) && TotalLen(list) < SIZE_RANGE && 1 < q <= end && p + 1 < end
    requires ScanNum(m, p) == Num(Item(list[0]), q) && At(m, q - 1) == '\n'
    requires Scanned(ScanLens(m, q, end, |list| - 1), list[1..], whole, m, end, c)
    ensures Scanned(ScanLens(m, p, end, |list|), list, whole, m, end, c)
  {
    hide ScanNum;
    var r := ScanLens(m, q, end, |list| - 1);
    if r.Lens? {
      var values := [Item(list[0])] + r.values;
      assert values[1..] == r.values;
      assert ScanLens(m, p, end, |list|) == Lens(values, r.end);
    }
  }

  // ---------- the segments ----------

  /** Data that is not all there is asked for again; otherwise the segments end where their lengths say. */
  lemma {:induction false} SegmentsOutcome(values: seq<int>, p: nat, space: nat)
    requires Plausible(values) && p <= space
    ensures Sum(values) >= 0
    ensures var r := Segments(values, p, space);
      if p + Sum(values) <= space then r.Read? && r.total == p + Sum(values) else r == Failed(0 - EAGAIN)
    decreases |values|
  {
    hide ToSize;
    if values != [] {
      var len := if values[0] == -1 then 0 else values[0];
      SizeOfSmall(len);
      assert Plausible(values[1..]);
      if p + len <= space {
        SegmentsOutcome(values[1..], p + len, space);
      } else {
        SumNotNegative(values[1..]);
      }
    }
  }

  lemma {:induction false} SumNotNegative(values: seq<int>)
    requires Plausible(values)
    ensures Sum(values) >= 0
    decreases |values|
  {
    if values != [] {
      SumNotNegative(values[1..]);
    }
  }

  lemma {:induction false} ValuesPlausible(list: seq<Entry>)
    requires TotalLen(list) < SIZE_RANGE
    ensures Plausible(ValuesOfList(list))
    decreases |list|
  {
    if list != [] {
      ValuesPlausible(list[1..]);
      assert ValuesOfList(list) == [Item(list[0])] + ValuesOfList(list[1..]);
    }
  }

  // ---------- cuts in the payload, over any memory ----------

  /**
    Once the lengths have arrived, and not yet all of the payload: more is asked for, unless nothing but white
    space has arrived of it and memory goes on with white space.
   */
  lemma PayloadIsCut(m: string, list: seq<Entry>, k: nat)
    requires list != [] && Coherent(list) && TotalLen(list) < SIZE_RANGE
    requires Start(list) <= k < |Wire(list)| && Holds(m, 0, Wire(list)[..k])
    ensures Deserialize(m, k) == Failed(0 - if SkipSpaces(m, Start(list)) > k then EBADMSG else EAGAIN)
  {
    hide Holds, SkipSpaces, Items, Head, TotalLen, ExtractHeader, Segments, Coherent, ValuesOfList, At;
    var a, e := Start(list), SkipSpaces(m, Start(list));
    var part := Payload(list)[..k - a];
    assert Wire(list)[..k] == Head(list) + Items(list) + part;
    HoldsParts(m, 0, Head(list) + Items(list), part);
    HeadLong(list);
    HeaderRead(m, list, k);
    SumOfValues(list);
    SkipForward(m, a);
    ValuesPlausible(list);
    if e <= k {
      SegmentsOutcome(ValuesOfList(list), e, k);
    }
  }

  lemma {:induction false} SkipAtMost(m: string, p: nat, k: nat)
    requires p <= k && !IsSpace(At(m, k))
    ensures SkipSpaces(m, p) <= k
    decreases k - p
  {
    if p < k {
      SkipAtMost(m, p + 1, k);
    }
  }

  // ---------- cuts in the head ----------

  lemma TotalIsCut(m: string, list: seq<Entry>, k: nat)
    requires list != [] && 4 <= k <= |Decimal(TotalLen(list))| + 1 && Holds(m, 0, Head(list)[..k]) && Stops(At(m, k))
    ensures ExtractHeader(m, k) == HeaderFail(0 - EBADMSG)
  {
    hide ScanNum, ScanLens, Holds, Decimal, Stops, TotalLen;
    var digits := Decimal(TotalLen(list));
    if k <= |digits| {
      assert Head(list)[..k] == digits[..k];
      DigitsCut(m, 0, digits[..k]);
    } else {
      assert Head(list)[..k] == SignedDecimal(TotalLen(list)) + "\n";
      NumRead(m, 0, TotalLen(list));
      StopsIsNoSpace(At(m, k));
      NotSkipped(m, k);
    }
    NoNumHere(m, k);
  }

  /** The number of entries, or its first digits, and nothing behind it. */
  lemma CountIsCut(m: string, list: seq<Entry>, k: nat)
    requires list != [] && |Decimal(TotalLen(list))| + 1 < k <= |Head(list)| && Holds(m, 0, Head(list)[..k]) && Stops(At(m, k))
    ensures var p := |Decimal(TotalLen(list))| + 1;
      && ScanNum(m, 0) == Num(TotalLen(list), p) && ScanNum(m, p) == Num(CountRead(list, k - p), k) && CountRead(list, k - p) >= 1
  {
    hide ScanNum, Holds, Decimal, Stops, TotalLen, Accumulate;
    var first, count := Decimal(TotalLen(list)) + "\n", Decimal(|list|);
    var p := |first|;
    StopsIsNoSpace(At(m, k));
    if k == |Head(list)| {
      assert Head(list)[..k] == Head(list);
      HeadAlone(m, list);
      DecimalReadsBack(|list|);
    } else {
      var digits := count[..k - p];
      assert k - p == |count| ==> digits == count;
      assert Head(list)[..k] == first + digits;
      HoldsParts(m, 0, first, digits);
      NumRead(m, 0, TotalLen(list));
      HoldsAt(m, p, digits, 0);
      NotSkipped(m, p);
      DigitsCut(m, p, digits);
      FirstDigits(|list|, k - p);
    }
  }

  lemma {:induction false} AccumulateGrows(acc: nat, s: string)
    requires forall i :: 0 <= i < |s| ==> IsDigit(s[i])
    ensures Accumulate(acc, s) >= acc
    decreases |s|
  {
    if s != "" {
      AccumulateGrows(acc * 10 + DigitValue(s[0]), s[1..]);
    }
  }

  /** The first digits of a positive number are a positive number. */
  lemma FirstDigits(n: nat, k: nat)
    requires n > 0 && 0 < k <= |Decimal(n)|
    ensures Accumulate(0, Decimal(n)[..k]) >= 1
  {
    hide Decimal;
    var s := Decimal(n)[..k];
    NoLeadingZero(n);
    AccumulateGrows(DigitValue(s[0]), s[1..]);
  }

  lemma {:induction false} NoLeadingZero(n: nat)
    requires n > 0
    ensures DigitValue(Decimal(n)[0]) >= 1
  {
    if n >= 10 {
      NoLeadingZero(n / 10);
      assert Decimal(n)[0] == Decimal(n / 10)[0];
    }
  }

  lemma HeadIsCut(m: string, list: seq<Entry>, k: nat)
    requires list != [] && 4 <= k <= |Head(list)| && k < |Wire(list)| && Holds(m, 0, Wire(list)[..k]) && Stops(At(m, k))
    ensures Yields(Deserialize(m, k), Cut(list, k), k)
  {
    hide ScanNum, Holds, Decimal, Stops, TotalLen, CountRead, Items;
    assert Wire(list)[..k] == Head(list)[..k];
    if k <= |Decimal(TotalLen(list))| + 1 {
      TotalIsCut(m, list, k);
    } else {
      CountIsCut(m, list, k);
    }
  }

  // ---------- cuts in the lengths ----------

  lemma ItemsAreCut(m: string, list: seq<Entry>, k: nat)
    requires list != [] && Coherent(list) && TotalLen(list) < SIZE_RANGE
    requires 4 <= k && |Head(list)| < k < Start(list) && Holds(m, 0, Wire(list)[..k]) && Stops(At(m, k))
    ensures Yields(Deserialize(m, k), Cut(list, k), k)
  {
    hide ScanNum, ScanLens, Holds, Decimal, Stops, TotalLen, Items, ItemsCut, Sum, Segments, Plausible;
    var h := |Head(list)|;
    var part := Items(list)[..k - h];
    assert Wire(list)[..k] == Head(list) + part;
    HoldsParts(m, 0, Head(list), part);
    ItemsStart(list);
    HoldsAt(m, h, part, 0);
    HeadAlone(m, list);
    HeadEnds(m, list);
    LensAreCut(m, h, list, TotalLen(list), k - h);
    var lens := ScanLens(m, h, k, |list|);
    if lens.Lens? {
      SizeOfSmall(TotalLen(list));
      SizeOfSmall(Sum(lens.values));
      SegmentsOutcome(lens.values, lens.end, k);
    }
  }

  lemma HeadEnds(m: string, list: seq<Entry>)
    requires Holds(m, 0, Head(list))
    ensures |Head(list)| >= 4 && At(m, |Head(list)| - 2) != '\n'
  {
    var head := Head(list);
    HoldsAt(m, 0, head, |head| - 2);
  }

  // ---------- every cut ----------

  /** The exact outcome of reading a list of which only the first bytes have arrived. */
  lemma ListIsCut(m: string, list: seq<Entry>, k: nat)
    requires list != [] && Coherent(list) && TotalLen(list) < SIZE_RANGE
    requires k < |Wire(list)| && Holds(m, 0, Wire(list)[..k]) && Stops(At(m, k))
    ensures Yields(Deserialize(m, k), Cut(list, k), k)
  {
    hide Holds, Stops, Deserialize, ItemsCut, CountRead, Decimal, TotalLen, Items;
    if k < 4 {
      TooShort(m, k);
    } else if k <= |Head(list)| {
      HeadIsCut(m, list, k);
    } else if k < Start(list) {
      ItemsAreCut(m, list, k);
    } else {
      PayloadIsCut(m, list, k);
      StopsIsNoSpace(At(m, k));
      SkipAtMost(m, Start(list), k);
    }
  }

  lemma TooShort(m: string, k: nat)
    requires k < 4
    ensures Deserialize(m, k) == Failed(0 - EAGAIN)
  {
  }

  // ---------- receiving until the list is there ----------

  /** Memory, and how much of it has been received. */
  datatype Snapshot = Snapshot(m: string, k: nat)

  /** The server receives more as long as it is told to. */
  function Retry(shots: seq<Snapshot>): Result
    decreases |shots|
  {
    if shots == [] then Failed(0 - EAGAIN) else
    var r := Deserialize(shots[0].m, shots[0].k);
    if r == Failed(0 - EAGAIN) then Retry(shots[1..]) else r
  }

  ghost predicate Shows(shot: Snapshot, bytes: string) {
    shot.k <= |bytes| && Holds(shot.m, 0, bytes[..shot.k]) && Stops(At(shot.m, shot.k))
  }

  /** Snapshots of a list with a line end behind it; only the last one has it all. */
  ghost predicate Arrives(shots: seq<Snapshot>, list: seq<Entry>) {
    && shots != [] && shots[|shots| - 1].k == |Wire(list)| + 1
    && (forall i :: 0 <= i < |shots| ==> Shows(shots[i], Wire(list) + "\n"))
    && forall i :: 0 <= i < |shots| - 1 ==> shots[i].k < |Wire(list)|
  }

  lemma OneShot(shot: Snapshot, list: seq<Entry>)
    requires 1 <= |list| <= MAX_SGE && Coherent(list) && TotalLen(list) <= INT64_MAX
    requires Shows(shot, Wire(list) + "\n") && shot.k < |Wire(list)|
    ensures Yields(Deserialize(shot.m, shot.k), Cut(list, shot.k), shot.k)
  {
    hide Holds, Deserialize, Cut, Wire, Coherent, TotalLen, Stops;
    assert (Wire(list) + "\n")[..shot.k] == Wire(list)[..shot.k];
    ListIsCut(shot.m, list, shot.k);
  }

  ghost predicate AllAgain(shots: seq<Snapshot>, list: seq<Entry>)
    requires Arrives(shots, list)
  {
    forall i :: 0 <= i < |shots| - 1 ==> Cut(list, shots[i].k) == Again
  }

  /**
    However a list arrives: retrying reads just that list exactly if every cut is one after which more is asked
    for, and no further white space follows the lengths.
   */
  lemma {:induction false} RetryIff(shots: seq<Snapshot>, list: seq<Entry>)
    requires 1 <= |list| <= MAX_SGE && Coherent(list) && TotalLen(list) <= INT64_MAX && Arrives(shots, list)
    ensures Retry(shots) == Read(SegmentsOf(list, Start(list)), |Wire(list)|)
      <==> (AllAgain(shots, list) && Clean(shots[|shots| - 1].m, list))
    ensures ContentsOf(shots[|shots| - 1].m, SegmentsOf(list, Start(list))) == list
    decreases |shots|
  {
    hide Deserialize, Cut, Wire, Coherent, TotalLen, Clean, SegmentsOf, ContentsOf, Holds, Stops;
    var first := shots[0];
    if |shots| == 1 {
      assert (Wire(list) + "\n")[..first.k] == Wire(list) + "\n";
      RoundTripIff(first.m, list, first.k);
      assert shots[1..] == [];
    } else {
      var rest := shots[1..];
      OneShot(first, list);
      assert Arrives(rest, list);
      RetryIff(rest, list);
      AgainFirst(shots, list);
    }
  }

  lemma AgainFirst(shots: seq<Snapshot>, list: seq<Entry>)
    requires Arrives(shots, list) && |shots| > 1 && Arrives(shots[1..], list)
    ensures AllAgain(shots, list) <==> Cut(list, shots[0].k) == Again && AllAgain(shots[1..], list)
  {
    hide Cut, Wire, Shows;
    var rest := shots[1..];
    forall i | 1 <= i < |shots| - 1 ensures shots[i] == rest[i - 1] {
    }
    if AllAgain(shots, list) {
      forall i | 0 <= i < |rest| - 1 ensures Cut(list, rest[i].k) == Again {
        assert Cut(list, shots[i + 1].k) == Again;
      }
    }
    if Cut(list, shots[0].k) == Again && AllAgain(rest, list) {
      forall i | 0 <= i < |shots| - 1 ensures Cut(list, shots[i].k) == Again {
        if i > 0 {
          assert Cut(list, rest[i - 1].k) == Again;
        }
      }
    }
  }

  // ---------- cuts that go wrong ----------

  lemma TwoEmpty()
    ensures var list := [Memory(""), Memory("")];
      Head(list) == "0\n2\n" && Items(list) == "0\n0\n" && TotalLen(list) == 0 && Payload(list) == ""
  {
    var list := [Memory(""), Memory("")];
    assert list[1..] == [Memory("")] && list[1..][1..] == [];
    assert Decimal(0) == "0" && Decimal(2) == "2";
    assert Items(list[1..]) == "0" + "\n" + "";
  }

  /** Two empty entries, cut after the first byte of a length: a list is read, from too few bytes. */
  lemma EmptyEntriesTaken()
    ensures var list := [Memory(""), Memory("")]; |Wire(list)| == 8 && Cut(list, 5) == Taken && Cut(list, 7) == Taken
  {
    var list := [Memory(""), Memory("")];
    TwoEmpty();
    assert list[1..] == [Memory("")] && list[1..][1..] == [];
    assert Decimal(0) == "0";
    assert TotalLen(list[1..]) == 0;
  }

  /**
    Without the NUL: if memory goes on with the rest of the first length, a cut after which more should be
    asked for is refused as broken.
   */
  lemma StaleLengthBreaks(m: string, list: seq<Entry>, k: nat)
    requires list != [] && Holds(m, 0, Head(list) + (SignedDecimal(Item(list[0])) + "\n"))
    requires |Head(list)| + 2 <= k <= |Head(list)| + |SignedDecimal(Item(list[0]))| && 2 * |list| <= k < Start(list)
    ensures k < |Wire(list)| && Cut(list, k) == Again && Deserialize(m, k) == Failed(0 - EBADMSG)
  {
    hide ScanNum, Holds, Decimal, TotalLen, Items, SkipSpaces, SignedDecimal, Item;
    var h, item := |Head(list)|, Item(list[0]);
    var text := SignedDecimal(item) + "\n";
    HoldsParts(m, 0, Head(list), text);
    ItemAtLeast(list[0]);
    SignedStart(item);
    HoldsAt(m, h, text, 0);
    HeadAlone(m, list);
    HeadEnds(m, list);
    NumRead(m, h, item);
    SkipForward(m, h + |text|);
    HeadThenTotal(list);
  }

  lemma ItemAtLeast(e: Entry)
    ensures Item(e) >= -1
  {
  }

  lemma HeadThenTotal(list: seq<Entry>)
    ensures |Decimal(TotalLen(list))| + 1 < |Head(list)|
  {
    hide Decimal, TotalLen;
  }
}
