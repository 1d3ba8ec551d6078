/** A complete reply at the parse position is parsed to exactly that reply. */
module RespParserWhole {
  import opened Definitions
  import opened Resp
  import opened RespParser

  ghost predicate Holds(m: string, p: nat, s: string) {
    p + |s| <= |m| && forall i :: 0 <= i < |s| ==> m[p + i] == s[i]
  }

  lemma HoldsParts(m: string, p: nat, a: string, b: string)
    requires Holds(m, p, a + b)
    ensures Holds(m, p, a) && Holds(m, p + |a|, b)
  {
    forall i | 0 <= i < |a| ensures m[p + i] == a[i] {
      assert (a + b)[i] == a[i];
    }
    forall i | 0 <= i < |b| ensures m[p + |a| + i] == b[i] {
      assert (a + b)[|a| + i] == b[i];
    }
  }

  lemma HoldsAt(m: string, p: nat, s: string, i: nat)
    requires Holds(m, p, s) && i < |s|
    ensures At(m, p + i) == s[i]
  {
  }

  /** The result structure a complete reply at `p` is to have. */
  function ValueOf(r: Reply, p: nat): Value
    decreases r
  {
    match r
    case Simple(text) => VString(p + 1, |text|)
    case Error(text) => VError(p + 1, |text|)
    case Ask(slot, _) => VRedirect(slot, p + 6 + |Decimal(slot)|)
    case Moved(slot, _) => VRelocate(slot, p + 8 + |Decimal(slot)|)
    case Integer(n) => VInt(n)
    case Bulk(bytes) => VString(p + |BulkHead(|bytes|)|, |bytes|)
    case Nil => VNull
    case Array(elems) => VArray(ValuesOf(elems, p + |ArrayHead(|elems|)|))
  }

  function ValuesOf(rs: seq<Reply>, p: nat): seq<Value>
    decreases rs
  {
    if rs == [] then [] else [ValueOf(rs[0], p)] + ValuesOf(rs[1..], p + |Encode(rs[0])|)
  }

  // ---------- scans over the parts of an encoding ----------

  lemma {:induction false} FindCrLfSkips(m: string, p: nat, text: string)
    requires LineText(text) && Holds(m, p, text)
    ensures FindCrLf(m, p) == FindCrLf(m, p + |text|)
    decreases |text|
  {
    if text != "" {
      HoldsAt(m, p, text, 0);
      assert text == [text[0]] + text[1..];
      HoldsParts(m, p, [text[0]], text[1..]);
      FindCrLfSkips(m, p + 1, text[1..]);
    }
  }

  lemma {:induction false} ScanDigitsReads(m: string, p: nat, digits: string, remaining: int, acc: nat, parsed: nat, negative: bool)
    requires forall i :: 0 <= i < |digits| ==> IsDigit(digits[i])
    requires Holds(m, p, digits) && |digits| <= remaining
    ensures ScanDigits(m, p, remaining, acc, parsed, negative)
         == ScanDigits(m, p + |digits|, remaining - |digits|, Accumulate(acc, digits), parsed + |digits|, negative)
    decreases |digits|
  {
    if digits != "" {
      HoldsAt(m, p, digits, 0);
      assert digits == [digits[0]] + digits[1..];
      HoldsParts(m, p, [digits[0]], digits[1..]);
      ScanDigitsReads(m, p + 1, digits[1..], remaining - 1, acc * 10 + DigitValue(digits[0]), parsed + 1, negative);
    }
  }

  lemma CrLfAt(m: string, p: nat)
    requires Holds(m, p, CRLF)
    ensures At(m, p) == '\r' && At(m, p + 1) == '\n'
  {
    HoldsAt(m, p, CRLF, 0);
    HoldsAt(m, p, CRLF, 1);
  }

  lemma UnsignedWhole(m: string, p: nat, digits: string, limit: int)
    requires digits != "" && forall i :: 0 <= i < |digits| ==> IsDigit(digits[i])
    requires Holds(m, p, digits + CRLF) && |digits| + 2 <= limit
    ensures ExtractInteger(m, p, limit) == Number(Accumulate(0, digits), |digits| + 2)
  {
    HoldsParts(m, p, digits, CRLF);
    CrLfAt(m, p + |digits|);
    HoldsAt(m, p, digits, 0);
    ScanDigitsReads(m, p, digits, limit, 0, 0, false);
  }

  lemma NegativeWhole(m: string, p: nat, digits: string, limit: int)
    requires digits != "" && forall i :: 0 <= i < |digits| ==> IsDigit(digits[i])
    requires Holds(m, p, "-" + digits + CRLF) && |digits| + 3 <= limit
    ensures ExtractInteger(m, p, limit) == Number(0 - Accumulate(0, digits), |digits| + 3)
  {
    hide Holds, Accumulate;
    HoldsParts(m, p, "-" + digits, CRLF);
    CrLfAt(m, p + 1 + |digits|);
    HoldsParts(m, p, "-", digits);
    HoldsAt(m, p, "-", 0);
    HoldsAt(m, p + 1, digits, 0);
    ScanDigitsReads(m, p + 1, digits, limit - 1, 0, 1, true);
  }

  /** A terminated decimal number inside the received data is read as that number. */
  lemma IntegerWhole(m: string, p: nat, n: int, limit: int)
    requires Holds(m, p, SignedDecimal(n) + CRLF) && |SignedDecimal(n)| + 2 <= limit
    ensures ExtractInteger(m, p, limit) == Number(n, |SignedDecimal(n)| + 2)
  {
    if n < 0 {
      NegativeWhole(m, p, Decimal(-n), limit);
      DecimalReadsBack(-n);
    } else {
      UnsignedWhole(m, p, Decimal(n), limit);
      DecimalReadsBack(n);
    }
  }

  lemma LineWhole(m: string, p: nat, text: string, limit: int)
    requires LineText(text) && Holds(m, p, text + CRLF) && |text| + 2 <= limit
    ensures FindCrLf(m, p) == At_(p + |text|)
    ensures ExtractLine(m, p, limit) == Line(|text|, |text| + 2)
  {
    HoldsParts(m, p, text, CRLF);
    FindCrLfSkips(m, p, text);
    CrLfAt(m, p + |text|);
  }

  lemma BulkWhole(m: string, p: nat, bytes: string, limit: int)
    requires Holds(m, p, Decimal(|bytes|) + CRLF + bytes + CRLF)
    requires |Decimal(|bytes|)| + |bytes| + 4 <= limit
    ensures var head := |Decimal(|bytes|)| + 2;
            ExtractBulk(m, p, limit) == BulkString(p + head, |bytes|, head + |bytes| + 2)
  {
    var digits := Decimal(|bytes|);
    HoldsParts(m, p, digits + CRLF + bytes, CRLF);
    HoldsParts(m, p, digits + CRLF, bytes);
    assert SignedDecimal(|bytes|) == digits;
    IntegerWhole(m, p, |bytes|, limit);
    CrLfAt(m, p + |digits| + 2 + |bytes|);
  }

  lemma NilWhole(m: string, p: nat, limit: int)
    requires Holds(m, p, "-1" + CRLF) && 4 <= limit
    ensures ExtractBulk(m, p, limit) == BulkNull(4)
  {
    assert Decimal(1) == "1" && SignedDecimal(-1) == "-1";
    IntegerWhole(m, p, -1, limit);
  }

  // ---------- errors, ASK and MOVED ----------

  lemma {:induction false} SkipDigitsReads(m: string, p: nat, digits: string, acc: nat)
    requires forall i :: 0 <= i < |digits| ==> IsDigit(digits[i])
    requires Holds(m, p, digits)
    ensures SkipDigits(m, p, acc) == SkipDigits(m, p + |digits|, Accumulate(acc, digits))
    decreases |digits|
  {
    if digits != "" {
      HoldsAt(m, p, digits, 0);
      assert digits == [digits[0]] + digits[1..];
      HoldsParts(m, p, [digits[0]], digits[1..]);
      SkipDigitsReads(m, p + 1, digits[1..], acc * 10 + DigitValue(digits[0]));
    }
  }

  lemma StrToLReads(m: string, p: nat, n: nat)
    requires Holds(m, p, Decimal(n) + " ")
    ensures StrToL(m, p) == (n, p + |Decimal(n)|)
    ensures At(m, p + |Decimal(n)|) == ' '
  {
    HoldsParts(m, p, Decimal(n), " ");
    HoldsAt(m, p, Decimal(n), 0);
    HoldsAt(m, p + |Decimal(n)|, " ", 0);
    SkipDigitsReads(m, p, Decimal(n), 0);
    DecimalReadsBack(n);
  }

  lemma HoldsIsPrefix(m: string, p: nat, text: string, word: string)
    requires Holds(m, p, text + CRLF)
    requires LineText(word)
    ensures StartsWith(m, p, word) <==> word <= text
  {
    var line := text + CRLF;
    forall i | 0 <= i < |line| ensures At(m, p + i) == line[i] {
      HoldsAt(m, p, line, i);
    }
    assert line[|text|] == '\r';
    if |text| < |word| {
      assert At(m, p + |text|) != word[|text|];
    }
    assert |word| <= |text| ==> (word <= text <==> forall i :: 0 <= i < |word| ==> word[i] == line[i]);
  }

  lemma ErrorPlain(m: string, p: nat, text: string)
    requires Holds(m, p, text + CRLF)
    requires !("ASK " <= text) && !("MOVED " <= text)
    ensures ErrorValue(m, p, |text|) == VError(p, |text|)
  {
    HoldsIsPrefix(m, p, text, "ASK ");
    HoldsIsPrefix(m, p, text, "MOVED ");
  }

  lemma LocationReads(m: string, p: nat, word: string, slot: nat, address: string)
    requires Holds(m, p, LocationText(word, slot, address) + CRLF)
    ensures StrToL(m, p + |word|) == (slot, p + |word| + |Decimal(slot)|)
    ensures At(m, p + |word| + |Decimal(slot)|) == ' '
  {
    var text := LocationText(word, slot, address);
    HoldsParts(m, p, text, CRLF);
    assert text == word + (Decimal(slot) + " ") + address;
    HoldsParts(m, p, word + (Decimal(slot) + " "), address);
    HoldsParts(m, p, word, Decimal(slot) + " ");
    StrToLReads(m, p + |word|, slot);
  }

  lemma ErrorAsk(m: string, p: nat, slot: nat, address: string, len: nat)
    requires Holds(m, p, LocationText("ASK ", slot, address) + CRLF)
    ensures ErrorValue(m, p, len) == VRedirect(slot, p + 5 + |Decimal(slot)|)
  {
    HoldsIsPrefix(m, p, LocationText("ASK ", slot, address), "ASK ");
    LocationReads(m, p, "ASK ", slot, address);
  }

  lemma ErrorMoved(m: string, p: nat, slot: nat, address: string, len: nat)
    requires Holds(m, p, LocationText("MOVED ", slot, address) + CRLF)
    ensures ErrorValue(m, p, len) == VRelocate(slot, p + 7 + |Decimal(slot)|)
  {
    var text := LocationText("MOVED ", slot, address);
    assert text[0] == 'M';
    HoldsIsPrefix(m, p, text, "ASK ");
    HoldsIsPrefix(m, p, text, "MOVED ");
    LocationReads(m, p, "MOVED ", slot, address);
  }

  lemma LocationIsLine(word: string, slot: nat, address: string)
    requires LineText(word) && LineText(address)
    ensures LineText(LocationText(word, slot, address))
  {
  }

  // ---------- the theorem ----------

  lemma KindAt(m: string, p: nat, r: Reply)
    requires Holds(m, p, Encode(r))
    ensures At(m, p) == Encode(r)[0] && Holds(m, p + 1, Encode(r)[1..])
  {
    HoldsAt(m, p, Encode(r), 0);
    assert Encode(r) == [Encode(r)[0]] + Encode(r)[1..];
    HoldsParts(m, p, [Encode(r)[0]], Encode(r)[1..]);
  }

  lemma ErrorLineWhole(m: string, avail: nat, p: nat, text: string)
    requires LineText(text) && text != "" && Holds(m, p, "-" + text + CRLF) && p + |text| + 3 <= avail
    ensures ParseError(m, avail, p) == Outcome(0, ErrorValue(m, p + 1, |text|), p + |text| + 3)
    ensures Holds(m, p + 1, text + CRLF)
  {
    assert "-" + text + CRLF == "-" + (text + CRLF);
    HoldsParts(m, p, "-", text + CRLF);
    LineWhole(m, p + 1, text, avail - (p + 1));
  }

  lemma ParseLine(r: Reply, m: string, avail: nat, p: nat, top: bool)
    requires r.Simple? || r.Error? || r.Ask? || r.Moved?
    requires WellFormed(r) && Holds(m, p, Encode(r)) && p + |Encode(r)| <= avail
    ensures Parse(m, avail, p, top) == Outcome(0, ValueOf(r, p), p + |Encode(r)|)
  {
    hide ExtractLine, ExtractInteger, ExtractBulk, ErrorValue, ParseArray;
    KindAt(m, p, r);
    match r
    case Simple(text) =>
      assert Encode(r)[1..] == text + CRLF;
      LineWhole(m, p + 1, text, avail - (p + 1));
    case Error(text) =>
      ErrorLineWhole(m, avail, p, text);
      ErrorPlain(m, p + 1, text);
    case Ask(slot, address) =>
      LocationIsLine("ASK ", slot, address);
      ErrorLineWhole(m, avail, p, LocationText("ASK ", slot, address));
      ErrorAsk(m, p + 1, slot, address, |LocationText("ASK ", slot, address)|);
    case Moved(slot, address) =>
      LocationIsLine("MOVED ", slot, address);
      ErrorLineWhole(m, avail, p, LocationText("MOVED ", slot, address));
      ErrorMoved(m, p + 1, slot, address, |LocationText("MOVED ", slot, address)|);
  }

  lemma IntegerReply(n: int, m: string, avail: nat, p: nat, top: bool)
    requires var r := Integer(n); WellFormed(r) && Holds(m, p, Encode(r)) && p + |Encode(r)| <= avail
    ensures Parse(m, avail, p, top) == Outcome(0, ValueOf(Integer(n), p), p + |Encode(Integer(n))|)
  {
    hide ExtractLine, ExtractInteger, ExtractBulk, ErrorValue, ParseArray, Holds;
    KindAt(m, p, Integer(n));
    assert Encode(Integer(n))[1..] == SignedDecimal(n) + CRLF;
    IntegerWhole(m, p + 1, n, avail - (p + 1));
  }

  lemma BulkReply(bytes: string, m: string, avail: nat, p: nat, top: bool)
    requires var r := Bulk(bytes); WellFormed(r) && Holds(m, p, Encode(r)) && p + |Encode(r)| <= avail
    ensures Parse(m, avail, p, top) == Outcome(0, ValueOf(Bulk(bytes), p), p + |Encode(Bulk(bytes))|)
  {
    hide ExtractLine, ExtractInteger, ExtractBulk, ErrorValue, ParseArray, Holds, Decimal;
    KindAt(m, p, Bulk(bytes));
    assert Encode(Bulk(bytes))[1..] == Decimal(|bytes|) + CRLF + bytes + CRLF;
    BulkWhole(m, p + 1, bytes, avail - (p + 1));
  }

  lemma NilReply(m: string, avail: nat, p: nat, top: bool)
    requires Holds(m, p, Encode(Nil)) && p + |Encode(Nil)| <= avail
    ensures Parse(m, avail, p, top) == Outcome(0, ValueOf(Nil, p), p + |Encode(Nil)|)
  {
    hide ExtractLine, ExtractInteger, ExtractBulk, ErrorValue, ParseArray, Holds;
    KindAt(m, p, Nil);
    assert Encode(Nil)[1..] == "-1" + CRLF;
    NilWhole(m, p + 1, avail - (p + 1));
  }

  lemma ArrayHeadWhole(m: string, avail: nat, p: nat, n: nat)
    requires Holds(m, p, ArrayHead(n)) && p + |ArrayHead(n)| <= avail
    ensures At(m, p) == '*'
    ensures ExtractInteger(m, p + 1, avail - (p + 1)) == Number(n, |ArrayHead(n)| - 1)
  {
    assert ArrayHead(n) == "*" + (SignedDecimal(n) + CRLF);
    HoldsParts(m, p, "*", SignedDecimal(n) + CRLF);
    HoldsAt(m, p, "*", 0);
    IntegerWhole(m, p + 1, n, avail - (p + 1));
  }

  lemma ParseArrayWhole(m: string, avail: nat, p: nat, n: nat, values: seq<Value>, pos: nat)
    requires Holds(m, p, ArrayHead(n)) && p + |ArrayHead(n)| <= avail && n <= INT32_MAX
    requires ParseElements(m, avail, p + |ArrayHead(n)|, n) == (0, values, pos)
    ensures Parse(m, avail, p, true) == Parse(m, avail, p, false) == Outcome(0, VArray(values), pos)
  {
    hide ExtractInteger, ArrayHead, ParseElements, ParseError, ParseSimple, ParseInteger, ParseBulk;
    ArrayHeadWhole(m, avail, p, n);
  }

  /** Every complete well-formed reply is parsed, at any nesting, to its own result structure and consumed exactly. */
  lemma {:induction false} ParseWhole(r: Reply, m: string, avail: nat, p: nat, top: bool)
    requires WellFormed(r) && Holds(m, p, Encode(r)) && p + |Encode(r)| <= avail
    ensures Parse(m, avail, p, top) == Outcome(0, ValueOf(r, p), p + |Encode(r)|)
    decreases r
  {
    hide ArrayHead, Parse, ParseElements, Holds;
    if r.Array? {
      var head := ArrayHead(|r.elems|);
      HoldsParts(m, p, head, EncodeAll(r.elems));
      ElementsWhole(r.elems, m, avail, p + |head|);
      ParseArrayWhole(m, avail, p, |r.elems|, ValuesOf(r.elems, p + |head|), p + |Encode(r)|);
    } else if r.Integer? {
      IntegerReply(r.value, m, avail, p, top);
    } else if r.Bulk? {
      BulkReply(r.bytes, m, avail, p, top);
    } else if r.Nil? {
      NilReply(m, avail, p, top);
    } else {
      ParseLine(r, m, avail, p, top);
    }
  }

  lemma {:induction false} ElementsWhole(rs: seq<Reply>, m: string, avail: nat, p: nat)
    requires AllWellFormed(rs) && Holds(m, p, EncodeAll(rs)) && p + |EncodeAll(rs)| <= avail
    ensures ParseElements(m, avail, p, |rs|) == (0, ValuesOf(rs, p), p + |EncodeAll(rs)|)
    decreases rs
  {
    hide Parse, Encode, ValueOf, WellFormed, Holds;
    if rs != [] {
      HoldsParts(m, p, Encode(rs[0]), EncodeAll(rs[1..]));
      ParseWhole(rs[0], m, avail, p, false);
      ElementsWhole(rs[1..], m, avail, p + |Encode(rs[0])|);
    }
  }

  // ---------- lines that announce no number ----------

  lemma NotANumberRead(m: string, p: nat, text: string, limit: int)
    requires LineText(text) && text != "" && !IsDigit(text[0]) && text[0] != '-' && text[0] != '+'
    requires Holds(m, p, text + CRLF) && |text| + 2 <= limit
    ensures ExtractInteger(m, p, limit) == NotANumber(|text| + 2)
  {
    HoldsParts(m, p, text, CRLF);
    HoldsAt(m, p, text, 0);
    FindCrLfSkips(m, p, text);
    CrLfAt(m, p + |text|);
  }

  /**
    A line where a number belongs: an integer that is none, and the length of an array that is none, are
    taken for results and skipped whole; a bulk string without a length is refused with all that has arrived.
   */
  lemma NoNumberSkipped(m: string, avail: nat, p: nat, text: string, top: bool)
    requires LineText(text) && text != "" && !IsDigit(text[0]) && text[0] != '-' && text[0] != '+'
    requires Holds(m, p + 1, text + CRLF) && p + 1 + |text| + 2 <= avail
    ensures At(m, p) == ':' ==> Parse(m, avail, p, top) == Outcome(0, VNaN, p + 1 + |text| + 2)
    ensures At(m, p) == '*' ==> Parse(m, avail, p, top) == Outcome(0, VInt(0 - EPROTO), p + 1 + |text| + 2)
    ensures At(m, p) == '$' ==> Parse(m, avail, p, top) == Outcome(0 - EBADMSG, VInvalid, avail)
  {
    hide ExtractInteger, ParseElements;
    NotANumberRead(m, p + 1, text, avail - (p + 1));
  }
}
