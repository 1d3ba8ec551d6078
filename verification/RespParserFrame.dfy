/** A parse attempt depends on no memory before its position. */
module RespParserFrame {
  import opened Resp
  import opened RespParser

  ghost predicate SameFrom(m: string, n: string, p: nat) {
    |m| == |n| && forall i :: p <= i < |m| ==> m[i] == n[i]
  }

  lemma {:induction false} FindCrLfSame(m: string, n: string, p: nat)
    requires SameFrom(m, n, p)
    ensures FindCrLf(m, p) == FindCrLf(n, p)
    decreases |m| - p
  {
    if p < |m| {
      FindCrLfSame(m, n, p + 1);
    }
  }

  lemma {:induction false} CLengthSame(m: string, n: string, p: nat)
    requires SameFrom(m, n, p)
    ensures CLength(m, p) == CLength(n, p)
    decreases |m| - p
  {
    if p < |m| {
      CLengthSame(m, n, p + 1);
    }
  }

  lemma {:induction false} SkipSpacesSame(m: string, n: string, p: nat)
    requires SameFrom(m, n, p)
    ensures SkipSpaces(m, p) == SkipSpaces(n, p) >= p
    decreases |m| - p
  {
    if p < |m| {
      SkipSpacesSame(m, n, p + 1);
    }
  }

  lemma {:induction false} SkipDigitsSame(m: string, n: string, p: nat, acc: nat)
    requires SameFrom(m, n, p)
    ensures SkipDigits(m, p, acc) == SkipDigits(n, p, acc) && SkipDigits(m, p, acc).1 >= p
    decreases |m| - p
  {
    if p < |m| && IsDigit(m[p]) {
      SkipDigitsSame(m, n, p + 1, acc * 10 + DigitValue(m[p]));
    }
  }

  lemma StrToLSame(m: string, n: string, p: nat)
    requires SameFrom(m, n, p)
    ensures StrToL(m, p) == StrToL(n, p) && StrToL(m, p).1 >= p
  {
    SkipSpacesSame(m, n, p);
    var q := SkipSpaces(m, p);
    SkipDigitsSame(m, n, q, 0);
    SkipDigitsSame(m, n, q + 1, 0);
  }

  lemma {:induction false} ScanDigitsSame(m: string, n: string, p: nat, remaining: int, acc: nat, parsed: nat, negative: bool)
    requires SameFrom(m, n, p)
    ensures ScanDigits(m, p, remaining, acc, parsed, negative) == ScanDigits(n, p, remaining, acc, parsed, negative)
    decreases |m| - p
  {
    FindCrLfSame(m, n, p);
    CLengthSame(m, n, p);
    if p < |m| && IsDigit(m[p]) && remaining > 0 {
      ScanDigitsSame(m, n, p + 1, remaining - 1, acc * 10 + DigitValue(m[p]), parsed + 1, negative);
    }
  }

  lemma ExtractIntegerSame(m: string, n: string, p: nat, limit: int)
    requires SameFrom(m, n, p)
    ensures ExtractInteger(m, p, limit) == ExtractInteger(n, p, limit)
  {
    hide ScanDigits;
    var minus := if At(m, p) == '-' then 1 else 0;
    var plus := if At(m, p + minus) == '+' then 1 else 0;
    ScanDigitsSame(m, n, p + minus + plus, limit - minus - plus, 0, minus + plus, minus == 1);
  }

  lemma {:induction false} FindTerminatorSame(m: string, n: string, p: nat, limit: int)
    requires SameFrom(m, n, p)
    ensures FindTerminator(m, p, limit) == FindTerminator(n, p, limit)
    decreases limit
  {
    if limit > 0 {
      FindTerminatorSame(m, n, p + 1, limit - 1);
    }
  }

  lemma ExtractBulkSame(m: string, n: string, p: nat, limit: int)
    requires SameFrom(m, n, p)
    ensures ExtractBulk(m, p, limit) == ExtractBulk(n, p, limit)
  {
    hide ExtractInteger, FindTerminator;
    ExtractIntegerSame(m, n, p, limit);
    match ExtractInteger(m, p, limit)
    case Number(_, head) => FindTerminatorSame(m, n, p + head, limit - head);
    case _ =>
  }

  lemma ErrorValueSame(m: string, n: string, p: nat, len: nat)
    requires SameFrom(m, n, p)
    ensures ErrorValue(m, p, len) == ErrorValue(n, p, len)
  {
    hide StrToL;
    StrToLSame(m, n, p + 4);
    StrToLSame(m, n, p + 6);
    assert StartsWith(m, p, "ASK ") <==> StartsWith(n, p, "ASK ");
    assert StartsWith(m, p, "MOVED ") <==> StartsWith(n, p, "MOVED ");
  }

  lemma LeavesSame(m: string, n: string, avail: nat, p: nat, top: bool)
    requires SameFrom(m, n, p) && p < avail
    ensures ParseError(m, avail, p) == ParseError(n, avail, p)
    ensures ParseSimple(m, avail, p) == ParseSimple(n, avail, p)
    ensures ParseInteger(m, avail, p) == ParseInteger(n, avail, p)
    ensures ParseBulk(m, avail, p, top) == ParseBulk(n, avail, p, top)
  {
    hide FindCrLf, ExtractInteger, ExtractBulk, ErrorValue;
    FindCrLfSame(m, n, p + 1);
    ExtractIntegerSame(m, n, p + 1, avail - (p + 1));
    ExtractBulkSame(m, n, p + 1, avail - (p + 1));
    match ExtractLine(m, p + 1, avail - (p + 1))
    case Line(len, _) => ErrorValueSame(m, n, p + 1, len);
    case NoLine =>
  }

  lemma {:induction false} ParseSame(m: string, n: string, avail: nat, p: nat, top: bool)
    requires SameFrom(m, n, p) && p <= avail
    ensures Parse(m, avail, p, top) == Parse(n, avail, p, top)
    decreases avail - p, 0
  {
    hide ParseError, ParseSimple, ParseInteger, ParseBulk, ParseArray;
    if p < avail {
      LeavesSame(m, n, avail, p, top);
      ArraySame(m, n, avail, p);
    }
  }

  lemma {:induction false} ArraySame(m: string, n: string, avail: nat, p: nat)
    requires SameFrom(m, n, p) && p < avail
    ensures ParseArray(m, avail, p) == ParseArray(n, avail, p)
    decreases avail - p - 1, 0x1_0000_0000 + 1
  {
    hide ExtractInteger, ParseElements, ToInt32;
    ExtractIntegerSame(m, n, p + 1, avail - (p + 1));
    match ExtractInteger(m, p + 1, avail - (p + 1))
    case Number(count, parsed) =>
      CountBelow(count);
      ElementsSame(m, n, avail, Advance(avail, p + 1, parsed), ToInt32(count));
    case _ =>
  }

  lemma CountBelow(count: int)
    ensures ToInt32(count) < 0x1_0000_0000
  {
  }

  lemma {:induction false} ElementsSame(m: string, n: string, avail: nat, p: nat, count: int)
    requires SameFrom(m, n, p) && p <= avail
    ensures ParseElements(m, avail, p, count) == ParseElements(n, avail, p, count)
    decreases avail - p, 1 + if count < 0 then 0 else count
  {
    hide Parse;
    if count > 0 {
      ParseSame(m, n, avail, p, false);
      var e := Parse(m, avail, p, false);
      if e.rc == 0 {
        ElementsSame(m, n, avail, e.pos, count - 1);
      }
    }
  }
}
