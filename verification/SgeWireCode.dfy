/** Writing a scatter/gather list into a buffer, and reading one, as the loops do it. */
module SgeWireCode {
  import opened Definitions
  import opened Resp
  import opened RespParser
  import opened SgeWire

  // ---------- writing ----------

  /** Text goes to a position if it leaves room for a NUL; bytes before the position stay. */
  method Print(data: array<char>, at: nat, space: nat, text: string) returns (ok: bool)
    requires at + space <= data.Length
    modifies data
    ensures ok <==> |text| < space
    ensures data[..at] == old(data[..at])
    ensures ok ==> data[..at + |text|] == old(data[..at]) + text
  {
    var i := 0;
    while i < |text| && i + 1 < space
      invariant 0 <= i <= |text| && (i == 0 || i < space)
      invariant forall k :: 0 <= k < at ==> data[k] == old(data[k])
      invariant forall k :: 0 <= k < i ==> data[at + k] == text[k]
    {
      data[at + i] := text[i];
      i := i + 1;
    }
    if space > 0 {
      data[at + i] := '\0';
    }
    ok := |text| < space;
  }

  lemma {:induction false} ItemsSnoc(list: seq<Entry>, e: Entry)
    ensures Items(list + [e]) == Items(list) + (SignedDecimal(Item(e)) + "\n")
    decreases |list|
  {
    hide SignedDecimal, Item;
    if list == [] {
      assert list + [e] == [e] && [e][1..] == [];
      assert Items([e]) == SignedDecimal(Item(e)) + "\n" + Items([]);
    } else {
      assert (list + [e])[1..] == list[1..] + [e];
      ItemsSnoc(list[1..], e);
    }
  }

  lemma {:induction false} PayloadSnoc(list: seq<Entry>, e: Entry)
    ensures Payload(list + [e]) == Payload(list) + BytesOf(e)
    decreases |list|
  {
    hide BytesOf;
    if list == [] {
      assert list + [e] == [e] && [e][1..] == [];
      assert Payload([e]) == BytesOf(e) + Payload([]);
    } else {
      assert (list + [e])[1..] == list[1..] + [e];
      PayloadSnoc(list[1..], e);
    }
  }

  /** Written so far is no more than what is to be written. */
  lemma {:induction false} ShorterPrefix(list: seq<Entry>, i: nat)
    requires i <= |list|
    ensures |Items(list[..i])| <= |Items(list)| && |Payload(list[..i])| <= |Payload(list)|
    decreases |list| - i
  {
    if i == |list| {
      assert list[..i] == list;
    } else {
      ShorterPrefix(list, i + 1);
      assert list[..i + 1] == list[..i] + [list[i]];
      ItemsSnoc(list[..i], list[i]);
      PayloadSnoc(list[..i], list[i]);
    }
  }

  method GetLen(list: seq<Entry>) returns (len: nat)
    ensures len == TotalLen(list)
  {
    len := 0;
    var i := |list|;
    while i > 0
      invariant 0 <= i <= |list| && len == TotalLen(list[i..])
    {
      i := i - 1;
      assert list[i..][1..] == list[i + 1..];
      len := len + LenOf(list[i]);
    }
    assert list[0..] == list;
  }

  method PrintItem(list: seq<Entry>, i: nat, data: array<char>, at: nat, space: nat, head: string) returns (ok: bool, total: nat)
    requires i < |list| && at < space <= data.Length
    requires at == |head| + |Items(list[..i])| && data[..at] == head + Items(list[..i])
    modifies data
    ensures total == |head| + |Items(list[..i + 1])| && (ok <==> total < space)
    ensures ok ==> data[..total] == head + Items(list[..i + 1])
  {
    hide Items, SignedDecimal, Item;
    assert list[..i + 1] == list[..i] + [list[i]];
    ItemsSnoc(list[..i], list[i]);
    var text := SignedDecimal(Item(list[i])) + "\n";
    ok := Print(data, at, space - at, text);
    total := at + |text|;
  }

  method SerializeHeader(list: seq<Entry>, data: array<char>, space: nat) returns (rc: int)
    requires space <= data.Length
    modifies data
    ensures |list| < 1 || |list| > MAX_SGE ==> rc == 0 - EINVAL
    ensures 1 <= |list| <= MAX_SGE && Coherent(list) ==> rc == if Start(list) < space then Start(list) else 0 - ENOSPC
    ensures 1 <= |list| <= MAX_SGE && !Coherent(list) ==> rc == 0 - EBADMSG || rc == 0 - ENOSPC
    ensures rc >= 0 ==> rc < space && data[..rc] == Head(list) + Items(list)
  {
    hide Items, SignedDecimal, Head, Coherent;
    if |list| < 1 || |list| > MAX_SGE {
      return 0 - EINVAL;
    }
    HeadLong(list);
    if space < 3 {
      return 0 - ENOSPC;
    }
    var len := GetLen(list);
    var head := HeadText(len, list);
    var ok := Print(data, 0, space, head);
    if !ok {
      return 0 - ENOSPC;
    }
    rc := PrintItems(list, data, space, head);
  }

  /** The items behind the head that has been printed; stops at an entry without memory that claims some. */
  method PrintItems(list: seq<Entry>, data: array<char>, space: nat, head: string) returns (rc: int)
    requires |head| < space <= data.Length && data[..|head|] == head
    modifies data
    ensures Coherent(list) ==> rc == if |head| + |Items(list)| < space then |head| + |Items(list)| else 0 - ENOSPC
    ensures !Coherent(list) ==> rc == 0 - EBADMSG || rc == 0 - ENOSPC
    ensures rc >= 0 ==> rc == |head| + |Items(list)| < space && data[..rc] == head + Items(list)
  {
    hide Items, Coherent, LenOf;
    var total := |head|;
    var i := 0;
    assert list[..0] == [] && head + "" == head;
    NoItems();
    while i < |list|
      invariant 0 <= i <= |list| && total < space && (forall k :: 0 <= k < i ==> list[k].Null? ==> list[k].claimed == 0)
      invariant total == |head| + |Items(list[..i])| && data[..total] == head + Items(list[..i])
    {
      if list[i].Null? && list[i].claimed != 0 {
        NotCoherent(list, i);
        return 0 - EBADMSG;
      }
      ShorterPrefix(list, i + 1);
      var ok;
      ok, total := PrintItem(list, i, data, total, space, head);
      if !ok {
        return 0 - ENOSPC;
      }
      i := i + 1;
    }
    AllCoherent(list);
    assert list[..i] == list;
    rc := total;
  }

  method HeadText(len: nat, list: seq<Entry>) returns (head: string)
    requires len == TotalLen(list)
    ensures head == Head(list)
  {
    head := Decimal(len) + "\n" + Decimal(|list|) + "\n";
  }

  lemma NotCoherent(list: seq<Entry>, i: nat)
    requires i < |list| && list[i].Null? && list[i].claimed != 0
    ensures !Coherent(list)
  {
  }

  lemma AllCoherent(list: seq<Entry>)
    requires forall k :: 0 <= k < |list| ==> list[k].Null? ==> list[k].claimed == 0
    ensures Coherent(list)
  {
  }

  lemma NoItems()
    ensures Items([]) == "" && Payload([]) == ""
  {
  }

  /** The list is written exactly if it leaves a byte for the NUL behind it. */
  method Serialize(list: seq<Entry>, data: array<char>, space: nat) returns (rc: int)
    requires space <= data.Length
    modifies data
    ensures |list| < 1 || |list| > MAX_SGE || space == 0 ==> rc == 0 - EINVAL
    ensures 1 <= |list| <= MAX_SGE && space > 0 && Coherent(list) ==> rc == if |Wire(list)| < space then |Wire(list)| else 0 - ENOSPC
    ensures 1 <= |list| <= MAX_SGE && space > 0 && !Coherent(list) ==> rc == 0 - EBADMSG || rc == 0 - ENOSPC
    ensures rc >= 0 ==> rc < space && data[..rc] == Wire(list) && data[rc] == '\0'
  {
    hide Items, Head, Payload;
    if |list| < 1 || |list| > MAX_SGE || space == 0 {
      return 0 - EINVAL;
    }
    rc := SerializeHeader(list, data, space);
    HeadLong(list);
    if rc <= 0 {
      return;
    }
    var total, i := rc, 0;
    ghost var front := Head(list) + Items(list);
    assert list[..0] == [] && front + "" == front;
    NoItems();
    while i < |list|
      invariant 0 <= i <= |list| && total < space
      invariant total == |front| + |Payload(list[..i])| && data[..total] == front + Payload(list[..i])
    {
      assert list[..i + 1] == list[..i] + [list[i]];
      PayloadSnoc(list[..i], list[i]);
      ShorterPrefix(list, i + 1);
      if LenOf(list[i]) >= space - total {
        return 0 - ENOSPC;
      }
      if list[i].Memory? {
        var ok := Print(data, total, space - total, list[i].bytes);
      }
      total := total + LenOf(list[i]);
      i := i + 1;
    }
    assert list[..i] == list;
    data[total] := '\0';
    rc := total;
  }

  // ---------- reading ----------

  function After(values: seq<int>, r: Lens): Lens {
    match r
    case LensFail(code) => LensFail(code)
    case Lens(more, end) => Lens(values + more, end)
  }

  lemma AfterOne(values: seq<int>, v: int, r: Lens)
    ensures After(values, match r case LensFail(code) => LensFail(code) case Lens(more, end) => Lens([v] + more, end)) == After(values + [v], r)
  {
    if r.Lens? {
      assert values + ([v] + r.values) == (values + [v]) + r.values;
    }
  }

  /** The lengths, one after the other. */
  method ReadLens(m: string, p: nat, end: nat, count: nat) returns (r: Lens)
    ensures r == ScanLens(m, p, end, count)
  {
    hide ScanNum, At;
    var q: nat, values: seq<int>, i: nat := p, [], 0;
    ghost var goal := ScanLens(m, p, end, count);
    while i < count && q + 1 < end
      invariant 0 <= i <= count && |values| == i
      invariant goal == After(values, ScanLens(m, q, end, count - i))
    {
      var n := ScanNum(m, q);
      if n.NoNum? || n.end > end {
        return LensFail(0 - EBADMSG);
      }
      if n.end == 0 || At(m, n.end - 1) != '\n' {
        return LensFail(0 - EAGAIN);
      }
      AfterOne(values, n.value, ScanLens(m, n.end, end, count - i - 1));
      values := values + [n.value];
      q := n.end;
      i := i + 1;
    }
    if i < count && q >= end {
      return LensFail(0 - EAGAIN);
    }
    assert values + [] == values;
    r := Lens(values + seq(count - i, k => 0), q);
  }

  method ReadHeader(m: string, space: nat) returns (r: Header)
    ensures r == ExtractHeader(m, space)
  {
    hide ScanNum, ScanLens, At;
    if space == 0 {
      return HeaderFail(0 - EINVAL);
    }
    if space < 4 {
      return HeaderFail(0 - EAGAIN);
    }
    var total := ScanNum(m, 0);
    if total.NoNum? {
      return HeaderFail(0 - EBADMSG);
    }
    var count := ScanNum(m, total.end);
    if count.NoNum? || count.end > space || count.value < 1 || space < 2 * count.value {
      return HeaderFail(0 - EBADMSG);
    }
    var lens := ReadLens(m, count.end, space, count.value);
    if lens.LensFail? {
      return HeaderFail(lens.code);
    }
    var consistent := Consistent(lens.values);
    if ToSize(consistent) != ToSize(total.value) {
      return HeaderFail(0 - EBADMSG);
    }
    if ToSize(total.value) == 0 && lens.end >= 2 && At(m, lens.end - 1) == '\n' && At(m, lens.end - 2) == '\n' {
      return Header(lens.values, lens.end - 1);
    }
    r := Header(lens.values, lens.end);
  }

  method Consistent(values: seq<int>) returns (sum: int)
    ensures sum == Sum(values)
  {
    sum := 0;
    var i := |values|;
    while i > 0
      invariant 0 <= i <= |values| && sum == Sum(values[i..])
    {
      i := i - 1;
      assert values[i..][1..] == values[i + 1..];
      sum := sum + (if values[i] == -1 then 0 else values[i]);
    }
    assert values[0..] == values;
  }

  function Joined(segs: seq<Segment>, r: Result): Result {
    match r
    case Failed(code) => Failed(code)
    case Read(more, total) => Read(segs + more, total)
  }

  lemma JoinedOne(segs: seq<Segment>, s: Segment, r: Result)
    ensures Joined(segs, match r case Failed(code) => Failed(code) case Read(more, total) => Read([s] + more, total)) == Joined(segs + [s], r)
  {
    if r.Read? {
      assert segs + ([s] + r.segments) == (segs + [s]) + r.segments;
    }
  }

  method ReadList(m: string, space: nat) returns (r: Result)
    ensures r == Deserialize(m, space)
  {
    hide ExtractHeader;
    if space < 4 {
      return Failed(0 - EAGAIN);
    }
    var header := ReadHeader(m, space);
    if header.HeaderFail? {
      return Failed(header.code);
    }
    var values := header.values;
    var p: nat, segs: seq<Segment>, i: nat := header.parsed, [], 0;
    ghost var goal := Segments(values, p, space);
    assert values[0..] == values;
    while i < |values|
      invariant 0 <= i <= |values|
      invariant goal == Joined(segs, Segments(values[i..], p, space))
    {
      assert values[i..][0] == values[i] && values[i..][1..] == values[i + 1..];
      if values[i] == -1 {
        JoinedOne(segs, NullSegment, Segments(values[i + 1..], p, space));
        segs := segs + [NullSegment];
      } else {
        var len := ToSize(values[i]);
        if p + len > space {
          return Failed(0 - EAGAIN);
        }
        JoinedOne(segs, Bytes(p, len), Segments(values[i + 1..], p + len, space));
        segs := segs + [Bytes(p, len)];
        p := p + len;
      }
      i := i + 1;
    }
    assert segs + [] == segs;
    r := Read(segs, p);
  }
}
