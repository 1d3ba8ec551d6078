/**
  What a parse attempt does when only the first `k` bytes of a reply have arrived.
  `s0` and `s1` are the two bytes of memory that follow the received data; they
  are left over from earlier use of the buffer.
 */
module RespParserCut {
  import opened Definitions
  import opened Resp
  import opened RespParser
  import opened RespParserWhole

  /** Again: -EAGAIN and a retry; Accepted: the part is taken for a result; Broken: -EBADMSG. */
  datatype CutOutcome = Again | Accepted | Broken

  /** The leftover bytes supply a line end to the received part of a line. */
  predicate LineCompleted(received: string, s0: char, s1: char) {
    || (s0 == '\r' && s1 == '\n')
    || (received != "" && received[|received| - 1] == '\r' && s0 == '\n')
  }

  /** The outcome of a parse attempt on a reply cut after `k` bytes. */
  function Cut(r: Reply, k: nat, s0: char, s1: char, top: bool): CutOutcome
    requires 0 < k < |Encode(r)|
    decreases r
  {
    match r
    case Simple(_) => if LineCompleted(Encode(r)[1..k], s0, s1) then Accepted else Again
    case Error(_) => if k > 1 && LineCompleted(Encode(r)[1..k], s0, s1) then Accepted else Again
    case Ask(_, _) => if k > 1 && LineCompleted(Encode(r)[1..k], s0, s1) then Accepted else Again
    case Moved(_, _) => if k > 1 && LineCompleted(Encode(r)[1..k], s0, s1) then Accepted else Again
    case Integer(_) => Again
    case Nil => if k == 1 then Broken else Again
    case Bulk(bytes) =>
      var head := |BulkHead(|bytes|)|;
      if k == 1 then Broken
      else if top && head <= k < head + |bytes| then Accepted
      else Again
    case Array(elems) =>
      var head := |ArrayHead(|elems|)|;
      if k < head then Again else CutElements(elems, k - head, s0, s1)
  }

  function CutElements(rs: seq<Reply>, k: nat, s0: char, s1: char): CutOutcome
    requires k < |EncodeAll(rs)|
    decreases rs
  {
    var len := |Encode(rs[0])|;
    if k == 0 then Again
    else if k < len then
      var first := Cut(rs[0], k, s0, s1, false);
      // an accepted part at the end of the data still leaves later elements missing
      if first == Accepted && |rs| > 1 then Again else first
    else CutElements(rs[1..], k - len, s0, s1)
  }

  // ---------- numbers ----------

  lemma {:induction false} ScanCut(m: string, p: nat, digits: string, remaining: int, acc: nat, parsed: nat, negative: bool)
    requires forall i :: 0 <= i < |digits| ==> IsDigit(digits[i])
    requires remaining <= |digits| + 1
    requires remaining > 0 ==> Holds(m, p, (digits + "\r")[..remaining])
    ensures ScanDigits(m, p, remaining, acc, parsed, negative) == Incomplete
    decreases |digits|
  {
    if remaining > 0 {
      var received := (digits + "\r")[..remaining];
      HoldsAt(m, p, received, 0);
      if digits != "" {
        assert received[0] == digits[0];
        assert received[1..] == (digits[1..] + "\r")[..remaining - 1];
        assert received == received[..1] + received[1..];
        HoldsParts(m, p, received[..1], received[1..]);
        ScanCut(m, p + 1, digits[1..], remaining - 1, acc * 10 + DigitValue(digits[0]), parsed + 1, negative);
      }
    }
  }

  lemma UnsignedCut(m: string, p: nat, digits: string, limit: nat)
    requires digits != "" && forall i :: 0 <= i < |digits| ==> IsDigit(digits[i])
    requires limit <= |digits| + 1 && Holds(m, p, (digits + "\r")[..limit])
    ensures ExtractInteger(m, p, limit) == Incomplete
  {
    if limit > 0 {
      HoldsAt(m, p, (digits + "\r")[..limit], 0);
    }
    ScanCut(m, p, digits, limit, 0, 0, false);
  }

  lemma NegativeCut(m: string, p: nat, digits: string, limit: nat)
    requires digits != "" && forall i :: 0 <= i < |digits| ==> IsDigit(digits[i])
    requires limit <= |digits| + 2 && Holds(m, p, ("-" + digits + "\r")[..limit])
    ensures ExtractInteger(m, p, limit) == Incomplete
  {
    var received := ("-" + digits + "\r")[..limit];
    if limit > 0 {
      HoldsAt(m, p, received, 0);
      assert received == "-" + (digits + "\r")[..limit - 1];
      HoldsParts(m, p, "-", (digits + "\r")[..limit - 1]);
      if limit > 1 {
        HoldsAt(m, p + 1, (digits + "\r")[..limit - 1], 0);
      }
      ScanCut(m, p + 1, digits, limit - 1, 0, 1, true);
    }
  }

  /** A number whose line end has not arrived is never read, whatever memory follows. */
  lemma IntegerCut(m: string, p: nat, n: int, limit: nat)
    requires limit < |SignedDecimal(n)| + 2 && Holds(m, p, (SignedDecimal(n) + CRLF)[..limit])
    ensures ExtractInteger(m, p, limit) == Incomplete
  {
    var digits := Decimal(if n < 0 then -n else n);
    if n < 0 {
      assert (SignedDecimal(n) + CRLF)[..limit] == ("-" + digits + "\r")[..limit];
      NegativeCut(m, p, digits, limit);
    } else {
      assert (SignedDecimal(n) + CRLF)[..limit] == (digits + "\r")[..limit];
      UnsignedCut(m, p, digits, limit);
    }
  }

  // ---------- lines ----------

  lemma LineCut(m: string, p: nat, text: string, limit: nat)
    requires LineText(text) && limit < |text| + 2 && Holds(m, p, (text + CRLF)[..limit])
    ensures var line := ExtractLine(m, p, limit);
            if LineCompleted((text + CRLF)[..limit], At(m, p + limit), At(m, p + limit + 1))
            then line.Line? && line.parsed >= limit && (limit > 1 || (limit == 1 && text != "") ==> line.len > 0)
            else line.NoLine?
  {
    var received := (text + CRLF)[..limit];
    if limit <= |text| {
      assert received == text[..limit];
      FindCrLfSkips(m, p, text[..limit]);
    } else {
      assert received == text + "\r";
      HoldsParts(m, p, text, "\r");
      FindCrLfSkips(m, p, text);
      HoldsAt(m, p + |text|, "\r", 0);
    }
  }

  // ---------- bulk strings ----------

  lemma BulkCut(m: string, p: nat, bytes: string, limit: nat)
    requires 0 < limit < |Decimal(|bytes|)| + |bytes| + 4
    requires Holds(m, p, (Decimal(|bytes|) + CRLF + bytes + CRLF)[..limit])
    ensures var head := |Decimal(|bytes|)| + 2;
            ExtractBulk(m, p, limit) ==
              if head <= limit < head + |bytes| then BulkPart(p + head, |bytes|, head) else BulkIncomplete
  {
    hide Decimal, ExtractInteger, Holds;
    var digits := Decimal(|bytes|);
    var head := |digits| + 2;
    var all := digits + CRLF + bytes + CRLF;
    assert SignedDecimal(|bytes|) == digits;
    if limit < head {
      assert all[..limit] == (digits + CRLF)[..limit];
      IntegerCut(m, p, |bytes|, limit);
    } else {
      assert all[..limit] == (digits + CRLF) + (bytes + CRLF)[..limit - head];
      HoldsParts(m, p, digits + CRLF, (bytes + CRLF)[..limit - head]);
      IntegerWhole(m, p, |bytes|, limit);
      if limit == head + |bytes| + 1 {
        HoldsAt(m, p + head, (bytes + CRLF)[..limit - head], |bytes|);
      }
    }
  }

  lemma NilCut(m: string, p: nat, limit: nat)
    requires 0 < limit < 4 && Holds(m, p, ("-1" + CRLF)[..limit])
    ensures ExtractBulk(m, p, limit) == BulkIncomplete
  {
    assert Decimal(1) == "1" && SignedDecimal(-1) == "-1";
    IntegerCut(m, p, -1, limit);
  }

  // ---------- replies ----------

  function ReturnCode(c: CutOutcome): int {
    match c
    case Again => -EAGAIN
    case Accepted => 0
    case Broken => -EBADMSG
  }

  /** An accepted part is always all of the received data. */
  predicate Yields(o: Outcome, avail: nat, c: CutOutcome) {
    o.rc == ReturnCode(c) && (c.Accepted? ==> o.pos == avail)
  }

  lemma KindOfCut(m: string, p: nat, r: Reply, k: nat)
    requires 0 < k < |Encode(r)| && Holds(m, p, Encode(r)[..k])
    ensures At(m, p) == Encode(r)[0]
    ensures Encode(r)[..k][1..] == Encode(r)[1..][..k - 1] == Encode(r)[1..k]
    ensures Holds(m, p + 1, Encode(r)[1..][..k - 1])
  {
    var received := Encode(r)[..k];
    HoldsAt(m, p, received, 0);
    assert received == received[..1] + received[1..];
    HoldsParts(m, p, received[..1], received[1..]);
    assert received[1..] == Encode(r)[1..][..k - 1];
  }

  lemma LineReplyCut(r: Reply, text: string, m: string, p: nat, k: nat, top: bool)
    requires 0 < k < |Encode(r)| && Holds(m, p, Encode(r)[..k])
    requires Encode(r)[1..] == text + CRLF && LineText(text)
    requires r.Simple? || (text != "" && (r.Error? || r.Ask? || r.Moved?))
    ensures Yields(Parse(m, p + k, p, top), p + k, Cut(r, k, At(m, p + k), At(m, p + k + 1), top))
  {
    KindOfCut(m, p, r, k);
    LineCut(m, p + 1, text, k - 1);
  }

  lemma CountedReplyCut(r: Reply, m: string, p: nat, k: nat, top: bool)
    requires r.Integer? || r.Bulk? || r.Nil?
    requires 0 < k < |Encode(r)| && Holds(m, p, Encode(r)[..k])
    ensures Yields(Parse(m, p + k, p, top), p + k, Cut(r, k, At(m, p + k), At(m, p + k + 1), top))
  {
    hide ExtractLine, ExtractInteger, ErrorValue, ParseArray, Holds, Decimal;
    KindOfCut(m, p, r, k);
    match r
    case Integer(n) =>
      assert Encode(r)[1..] == SignedDecimal(n) + CRLF;
      IntegerCut(m, p + 1, n, k - 1);
    case Bulk(bytes) =>
      assert Encode(r)[1..] == Decimal(|bytes|) + CRLF + bytes + CRLF;
      if k > 1 {
        BulkCut(m, p + 1, bytes, k - 1);
      }
    case Nil =>
      assert Encode(r)[1..] == "-1" + CRLF;
      if k > 1 {
        NilCut(m, p + 1, k - 1);
      }
  }

  lemma ArrayHeadCut(m: string, p: nat, n: nat, body: string, k: nat)
    requires 0 < k < |ArrayHead(n)| && Holds(m, p, (ArrayHead(n) + body)[..k])
    ensures At(m, p) == '*' && ExtractInteger(m, p + 1, k - 1) == Incomplete
  {
    assert (ArrayHead(n) + body)[..k] == "*" + (SignedDecimal(n) + CRLF)[..k - 1];
    HoldsParts(m, p, "*", (SignedDecimal(n) + CRLF)[..k - 1]);
    HoldsAt(m, p, "*", 0);
    IntegerCut(m, p + 1, n, k - 1);
  }

  lemma ElementsAtEnd(m: string, avail: nat, n: nat)
    ensures ParseElements(m, avail, avail, n).0 == if n == 0 then 0 else -ENODATA
    ensures ParseElements(m, avail, avail, n).2 == avail
  {
  }

  lemma FirstElementCut(m: string, p: nat, k: nat, n: nat, c: CutOutcome)
    requires n > 0 && k > 0
    requires Yields(Parse(m, p + k, p, false), p + k, c)
    ensures var (rc, _, pos) := ParseElements(m, p + k, p, n);
            Yields(Outcome(if rc == -ENODATA then -EAGAIN else rc, VNull, pos), p + k,
                   if c == Accepted && n > 1 then Again else c)
  {
    if c == Accepted {
      ElementsAtEnd(m, p + k, n - 1);
    }
  }

  /**
    The exact outcome of a parse attempt on any reply cut anywhere, at any nesting and
    over any leftover memory.
   */
  lemma {:induction false} ParseCut(r: Reply, m: string, p: nat, k: nat, top: bool)
    requires WellFormed(r) && 0 < k < |Encode(r)| && Holds(m, p, Encode(r)[..k])
    ensures Yields(Parse(m, p + k, p, top), p + k, Cut(r, k, At(m, p + k), At(m, p + k + 1), top))
    decreases r
  {
    match r
    case Simple(text) =>
      assert Encode(r)[1..] == text + CRLF;
      LineReplyCut(r, text, m, p, k, top);
    case Error(text) =>
      assert Encode(r)[1..] == text + CRLF;
      LineReplyCut(r, text, m, p, k, top);
    case Ask(slot, address) =>
      LocationIsLine("ASK ", slot, address);
      assert Encode(r)[1..] == LocationText("ASK ", slot, address) + CRLF;
      LineReplyCut(r, LocationText("ASK ", slot, address), m, p, k, top);
    case Moved(slot, address) =>
      LocationIsLine("MOVED ", slot, address);
      assert Encode(r)[1..] == LocationText("MOVED ", slot, address) + CRLF;
      LineReplyCut(r, LocationText("MOVED ", slot, address), m, p, k, top);
    case Array(elems) => ArrayCut(elems, m, p, k, top);
    case _ => CountedReplyCut(r, m, p, k, top);
  }

  lemma {:induction false} ArrayCut(elems: seq<Reply>, m: string, p: nat, k: nat, top: bool)
    requires WellFormed(Array(elems)) && 0 < k < |Encode(Array(elems))| && Holds(m, p, Encode(Array(elems))[..k])
    ensures Yields(Parse(m, p + k, p, top), p + k, Cut(Array(elems), k, At(m, p + k), At(m, p + k + 1), top))
    decreases elems, 1
  {
    hide ExtractInteger, ArrayHead, ParseElements, ParseError, ParseSimple, ParseInteger, ParseBulk, CutElements;
    hide Holds, EncodeAll;
    var head, body := ArrayHead(|elems|), EncodeAll(elems);
    if k < |head| {
      ArrayHeadCut(m, p, |elems|, body, k);
    } else {
      assert (head + body)[..k] == head + body[..k - |head|];
      HoldsParts(m, p, head, body[..k - |head|]);
      ArrayHeadWhole(m, p + k, p, |elems|);
      ElementsCut(elems, m, p + |head|, k - |head|);
    }
  }

  lemma {:induction false} ElementsCut(rs: seq<Reply>, m: string, p: nat, k: nat)
    requires AllWellFormed(rs) && k < |EncodeAll(rs)| && Holds(m, p, EncodeAll(rs)[..k])
    ensures var (rc, _, pos) := ParseElements(m, p + k, p, |rs|);
            Yields(Outcome(if rc == -ENODATA then -EAGAIN else rc, VNull, pos), p + k,
                   CutElements(rs, k, At(m, p + k), At(m, p + k + 1)))
    decreases rs, 0
  {
    hide Parse, Encode, Cut, WellFormed;
    var first, rest := Encode(rs[0]), EncodeAll(rs[1..]);
    if 0 < k < |first| {
      assert (first + rest)[..k] == first[..k];
      ParseCut(rs[0], m, p, k, false);
      FirstElementCut(m, p, k, |rs|, Cut(rs[0], k, At(m, p + k), At(m, p + k + 1), false));
    } else if k >= |first| {
      assert (first + rest)[..k] == first + rest[..k - |first|];
      HoldsParts(m, p, first, rest[..k - |first|]);
      ParseWhole(rs[0], m, p + k, p, false);
      ElementsCut(rs[1..], m, p + |first|, k - |first|);
    } else {
      ElementsAtEnd(m, p, |rs|);
    }
  }

  // ---------- which cuts are lucky ----------

  /** The byte before the cut is the '$' that announces a bulk string. */
  predicate AfterMarker(r: Reply, k: nat)
    requires 0 < k < |Encode(r)|
    decreases r
  {
    match r
    case Bulk(_) => k == 1
    case Nil => k == 1
    case Array(elems) => |ArrayHead(|elems|)| < k && AfterMarkerIn(elems, k - |ArrayHead(|elems|)|)
    case _ => false
  }

  predicate AfterMarkerIn(rs: seq<Reply>, k: nat)
    requires 0 < k < |EncodeAll(rs)|
    decreases rs
  {
    var len := |Encode(rs[0])|;
    if k < len then AfterMarker(rs[0], k) else k > len && AfterMarkerIn(rs[1..], k - len)
  }

  /** The cut leaves part of a top-level bulk string's body behind. */
  predicate InBody(r: Reply, k: nat) {
    r.Bulk? && |BulkHead(|r.bytes|)| <= k < |BulkHead(|r.bytes|)| + |r.bytes|
  }

  /** Over memory that was cleared, an attempt is retried exactly when it is cut neither after a marker nor in a top-level body. */
  lemma {:induction false} LuckyOverClearedMemory(r: Reply, k: nat, s1: char, top: bool)
    requires 0 < k < |Encode(r)|
    ensures Cut(r, k, '\0', s1, top) == Again <==> !AfterMarker(r, k) && !(top && InBody(r, k))
    decreases r
  {
    if r.Array? && k > |ArrayHead(|r.elems|)| {
      ElementsOverClearedMemory(r.elems, k - |ArrayHead(|r.elems|)|, s1);
    }
  }

  lemma {:induction false} ElementsOverClearedMemory(rs: seq<Reply>, k: nat, s1: char)
    requires 0 < k < |EncodeAll(rs)|
    ensures CutElements(rs, k, '\0', s1) == if AfterMarkerIn(rs, k) then Broken else Again
    decreases rs
  {
    var len := |Encode(rs[0])|;
    if k < len {
      LuckyOverClearedMemory(rs[0], k, s1, false);
      NeverAcceptedInside(rs[0], k, s1);
    } else if k > len {
      ElementsOverClearedMemory(rs[1..], k - len, s1);
    }
  }

  lemma {:induction false} NeverAcceptedInside(r: Reply, k: nat, s1: char)
    requires 0 < k < |Encode(r)|
    ensures Cut(r, k, '\0', s1, false) != Accepted
    decreases r, 0
  {
    if r.Array? && k >= |ArrayHead(|r.elems|)| {
      NoElementAccepted(r.elems, k - |ArrayHead(|r.elems|)|, s1);
    }
  }

  lemma {:induction false} NoElementAccepted(rs: seq<Reply>, k: nat, s1: char)
    requires k < |EncodeAll(rs)|
    ensures CutElements(rs, k, '\0', s1) != Accepted
    decreases rs, 0
  {
    var len := |Encode(rs[0])|;
    if 0 < k < len {
      NeverAcceptedInside(rs[0], k, s1);
    } else if k >= len {
      NoElementAccepted(rs[1..], k - len, s1);
    }
  }

  /** Leftover bytes that happen to be CR LF turn the first half of a line into a reply. */
  lemma StaleLineEndAccepted(m: string)
    requires m == "+O" + CRLF
    ensures Parse(m, 2, 0, true) == Outcome(0, VString(1, 1), 2)
    ensures Cut(Simple("OK"), 2, '\r', '\n', true) == Accepted
  {
    assert m[0] == '+' && m[1] == 'O' && m[2] == '\r' && m[3] == '\n';
    assert FindCrLf(m, 1) == FindCrLf(m, 2) == At_(2);
    assert Encode(Simple("OK"))[1..2] == "O";
  }
}
