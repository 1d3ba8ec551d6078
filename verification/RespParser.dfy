/**
  What the reply parser computes, as functions of the receive buffer's memory.
  `m` is the whole memory, `avail` how much of it has been received, `p` the
  parse position. Memory past `avail` may hold anything; a read past the end of
  the memory yields NUL.
 */
module RespParser {
  import opened Definitions
  import opened Resp

  function At(m: string, i: nat): char {
    if i < |m| then m[i] else '\0'
  }

  // ---------- C library scans ----------

  datatype Found = At_(pos: nat) | NotFound

  /** strstr( m + p, "\r\n" ): stops at NUL, is not bounded by what was received. */
  function FindCrLf(m: string, p: nat): (r: Found)
    ensures r.At_? ==> p <= r.pos < |m|
    decreases |m| - p
  {
    if p >= |m| || m[p] == '\0' then NotFound
    else if m[p] == '\r' && At(m, p + 1) == '\n' then At_(p)
    else FindCrLf(m, p + 1)
  }

  /** strlen( m + p ) */
  function CLength(m: string, p: nat): nat
    decreases |m| - p
  {
    if p >= |m| || m[p] == '\0' then 0 else 1 + CLength(m, p + 1)
  }

  predicate IsSpace(c: char) {
    c == ' ' || c == '\t' || c == '\n' || c == '\r' || c as int == 11 || c as int == 12
  }

  function SkipSpaces(m: string, p: nat): nat
    decreases |m| - p
  {
    if p < |m| && IsSpace(m[p]) then SkipSpaces(m, p + 1) else p
  }

  function SkipDigits(m: string, p: nat, acc: nat): (nat, nat)
    decreases |m| - p
  {
    if p < |m| && IsDigit(m[p]) then SkipDigits(m, p + 1, acc * 10 + DigitValue(m[p])) else (acc, p)
  }

  /** strtol( m + p, &end, 10 ): the number and where it ends; `end == p` if there are no digits. */
  function StrToL(m: string, p: nat): (int, nat) {
    var q := SkipSpaces(m, p);
    var signed := At(m, q) == '-' || At(m, q) == '+';
    var start := if signed then q + 1 else q;
    var (value, end) := SkipDigits(m, start, 0);
    var n: int := if At(m, q) == '-' then 0 - value else value;
    if end == start then (0, p) else (n, end)
  }

  // ---------- integers ----------

  datatype Scan = Number(value: int, parsed: nat) | Incomplete | NotANumber(parsed: nat)

  function ScanDigits(m: string, p: nat, remaining: int, acc: nat, parsed: nat, negative: bool): (r: Scan)
    ensures r.Number? ==> r.parsed <= parsed + remaining
    decreases |m| - p
  {
    if At(m, p) == '\r' || At(m, p) == '\0' || remaining <= 0 then
      if remaining < 2 then Incomplete else Number(if negative then 0 - acc else acc, parsed + TerminatorAt(m, p))
    else if !IsDigit(At(m, p)) then
      match FindCrLf(m, p)
      case NotFound => NotANumber(parsed + CLength(m, p))
      case At_(q) => NotANumber(parsed + (q - p) + 2)
    else
      ScanDigits(m, p + 1, remaining - 1, acc * 10 + DigitValue(At(m, p)), parsed + 1, negative)
  }

  /** how many of the characters CR, LF are at `p`, in that order */
  function TerminatorAt(m: string, p: nat): nat {
    if At(m, p) == '\r' then (if At(m, p + 1) == '\n' then 2 else 1)
    else if At(m, p) == '\n' then 1 else 0
  }

  function ExtractInteger(m: string, p: nat, limit: int): (r: Scan)
    ensures r.Number? ==> r.parsed <= limit
  {
    var minus := if At(m, p) == '-' then 1 else 0;
    var plus := if At(m, p + minus) == '+' then 1 else 0;
    ScanDigits(m, p + minus + plus, limit - minus - plus, 0, minus + plus, minus == 1)
  }

  // ---------- lines and bulk strings ----------

  datatype Line = Line(len: nat, parsed: nat) | NoLine

  function ExtractLine(m: string, p: nat, limit: int): Line {
    match FindCrLf(m, p)
    case NotFound => NoLine
    case At_(q) => if q - p > limit then NoLine else Line(q - p, q - p + 2)
  }

  /** The terminator's place in the `limit` bytes from `p`, which may hold NULs. */
  function FindTerminator(m: string, p: nat, limit: int): (r: Found)
    ensures r.At_? ==> p <= r.pos < p + limit
    decreases limit
  {
    if limit <= 0 then NotFound
    else if At(m, p) == '\r' && At(m, p + 1) == '\n' then At_(p)
    else FindTerminator(m, p + 1, limit - 1)
  }

  datatype BulkScan =
    | BulkString(off: nat, len: nat, parsed: nat)
    | BulkNull(parsed: nat)
    | BulkPart(off: nat, total: nat, parsed: nat)
    | BulkIncomplete
    | BulkBroken(parsed: nat)

  function ExtractBulk(m: string, p: nat, limit: int): (r: BulkScan)
    ensures r.BulkPart? ==> r.parsed <= limit
  {
    if limit <= 0 then BulkBroken(0) else
    match ExtractInteger(m, p, limit)
    case Incomplete => BulkIncomplete
    case NotANumber(_) => BulkBroken(limit)
    case Number(len, head) =>
      if len == -1 then BulkNull(head)
      else if len < 0 then BulkBroken(limit)
      else if len >= limit - head then
        if len == limit - head then BulkIncomplete else BulkPart(p + head, len, head)
      else if At(m, p + head + len) == '\r' && len + 1 == limit - head then BulkIncomplete
      else if At(m, p + head + len) == '\r' && At(m, p + head + len + 1) == '\n' then
        BulkString(p + head, len, head + len + 2)
      else
        match FindTerminator(m, p + head, limit - head)
        case NotFound => BulkBroken(limit)
        case At_(q) => BulkString(p + head, q - (p + head), q - p + 2)
  }

  // ---------- replies ----------

  /** A result structure; strings are positions in the buffer, not copies. */
  datatype Value =
    | VString(off: nat, len: nat)
    | VNull
    | VError(off: nat, len: nat)
    | VRedirect(slot: int, address: nat)
    | VRelocate(slot: int, address: nat)
    | VInt(n: int)
    | VNaN
    | VPart(off: nat, size: nat, total: nat)
    | VArray(elems: seq<Value>)
    | VInvalid
    | VUnspecified

  datatype Outcome = Outcome(rc: int, value: Value, pos: nat)

  function Min(a: int, b: int): int {
    if a < b then a else b
  }

  /** advance() never moves past the received data */
  function Advance(avail: nat, p: nat, n: int): (q: nat)
    requires p <= avail && 0 <= n
    ensures p <= q <= avail
  {
    Min(p + n, avail)
  }

  function ToInt32(n: int): int {
    var low := n % 0x1_0000_0000;
    if low > INT32_MAX then low - 0x1_0000_0000 else low
  }

  predicate StartsWith(m: string, p: nat, s: string) {
    forall i :: 0 <= i < |s| ==> At(m, p + i) == s[i]
  }

  /** the result of an error line: a plain error, ASK or MOVED */
  function ErrorValue(m: string, p: nat, len: nat): Value {
    if StartsWith(m, p, "ASK ") then
      var (slot, end) := StrToL(m, p + 4);
      if At(m, end) == ' ' then VRedirect(slot, end + 1) else VInvalid
    else if StartsWith(m, p, "MOVED ") then
      var (slot, end) := StrToL(m, p + 6);
      if At(m, end) == ' ' then VRelocate(slot, end + 1) else VInvalid
    else
      VError(p, len)
  }

  function ParseError(m: string, avail: nat, p: nat): (r: Outcome)
    requires p < avail
    ensures p <= r.pos <= avail && (r.rc == -EAGAIN ==> r.pos == p) && (r.rc == 0 ==> p < r.pos)
  {
    match ExtractLine(m, p + 1, avail - (p + 1))
    case Line(len, parsed) =>
      if len > 0 then Outcome(0, ErrorValue(m, p + 1, len), Advance(avail, p + 1, parsed))
      else Outcome(-EAGAIN, VUnspecified, p)
    case NoLine => Outcome(-EAGAIN, VUnspecified, p)
  }

  function ParseSimple(m: string, avail: nat, p: nat): (r: Outcome)
    requires p < avail
    ensures p <= r.pos <= avail && (r.rc == -EAGAIN ==> r.pos == p) && (r.rc == 0 ==> p < r.pos)
  {
    match ExtractLine(m, p + 1, avail - (p + 1))
    case Line(len, parsed) => Outcome(0, VString(p + 1, len), Advance(avail, p + 1, parsed))
    case NoLine => Outcome(-EAGAIN, VUnspecified, p)
  }

  function ParseInteger(m: string, avail: nat, p: nat): (r: Outcome)
    requires p < avail
    ensures p <= r.pos <= avail && (r.rc == -EAGAIN ==> r.pos == p) && (r.rc == 0 ==> p < r.pos)
  {
    match ExtractInteger(m, p + 1, avail - (p + 1))
    case Incomplete => Outcome(-EAGAIN, VNaN, p)
    case NotANumber(parsed) => Outcome(0, VNaN, Advance(avail, p + 1, parsed))
    case Number(n, parsed) => Outcome(0, VInt(n), Advance(avail, p + 1, parsed))
  }

  function ParseBulk(m: string, avail: nat, p: nat, top: bool): (r: Outcome)
    requires p < avail
    ensures p <= r.pos <= avail && (r.rc == -EAGAIN ==> r.pos == p) && (r.rc == 0 ==> p < r.pos)
  {
    var limit := avail - (p + 1);
    match ExtractBulk(m, p + 1, limit)
    case BulkString(off, len, parsed) => Outcome(0, VString(off, len), Advance(avail, p + 1, parsed))
    case BulkNull(parsed) => Outcome(0, VNull, Advance(avail, p + 1, parsed))
    case BulkIncomplete => Outcome(-EAGAIN, VUnspecified, p)
    case BulkPart(off, total, parsed) =>
      // no partial strings inside arrays
      if !top then Outcome(-EAGAIN, VUnspecified, p) else Outcome(0, VPart(off, limit - parsed, total), avail)
    case BulkBroken(parsed) => Outcome(-EBADMSG, VInvalid, Advance(avail, p + 1, parsed))
  }

  /** One parse attempt at `p`, before string termination. */
  function Parse(m: string, avail: nat, p: nat, top: bool): (r: Outcome)
    requires p <= avail
    ensures p <= r.pos <= avail
    ensures r.rc == -EAGAIN ==> r.pos == p
    ensures r.rc == 0 ==> p < r.pos
    decreases avail - p, 0
  {
    if p == avail then Outcome(-ENODATA, VInvalid, p)
    else match At(m, p)
      case '-' => ParseError(m, avail, p)
      case '+' => ParseSimple(m, avail, p)
      case ':' => ParseInteger(m, avail, p)
      case '$' => ParseBulk(m, avail, p, top)
      case '*' => ParseArray(m, avail, p)
      case _ => Outcome(-EPROTO, VInvalid, p + 1)
  }

  function ParseArray(m: string, avail: nat, p: nat): (r: Outcome)
    requires p < avail
    ensures p <= r.pos <= avail && (r.rc == -EAGAIN ==> r.pos == p) && (r.rc == 0 ==> p < r.pos)
    decreases avail - p - 1, 0x1_0000_0000 + 1
  {
    match ExtractInteger(m, p + 1, avail - (p + 1))
    case Incomplete => Outcome(-EAGAIN, VUnspecified, p)
    case NotANumber(parsed) => Outcome(0, VInt(-EPROTO), Advance(avail, p + 1, parsed))
    case Number(n, parsed) =>
      var elements := ParseElements(m, avail, Advance(avail, p + 1, parsed), ToInt32(n));
      if elements.0 == -EAGAIN || elements.0 == -ENODATA then Outcome(-EAGAIN, VUnspecified, p)
      else Outcome(elements.0, VArray(elements.1), elements.2)
  }

  /** what calloc leaves in the elements that are not reached */
  function Unparsed(n: nat): seq<Value> {
    seq(n, i => VUnspecified)
  }

  /** The element loop of an array: stops at the first element that is not parsed cleanly. */
  function ParseElements(m: string, avail: nat, p: nat, n: int): (r: (int, seq<Value>, nat))
    requires p <= avail
    ensures p <= r.2 <= avail
    decreases avail - p, 1 + if n < 0 then 0 else n
  {
    if n <= 0 then (0, [], p) else
    var e := Parse(m, avail, p, false);
    if e.rc != 0 then (e.rc, [e.value] + Unparsed(n - 1), e.pos)
    else
      var rest := ParseElements(m, avail, e.pos, n - 1);
      (rest.0, [e.value] + rest.1, rest.2)
  }

  // ---------- string termination ----------

  function Put(m: string, i: nat): (r: string)
    ensures |r| == |m|
  {
    if i < |m| then m[i := '\0'] else m
  }

  /** result_terminate_strings: writes the NULs and gives the return code */
  function Terminate(m: string, v: Value): (r: (string, int))
    ensures |r.0| == |m|
    decreases v
  {
    match v
    case VInt(_) => (m, 0)
    case VNaN => (m, 0)
    case VNull => (m, 0)
    case VString(off, len) => (Put(m, off + len), 0)
    case VError(off, len) => (Put(m, off + len), 0)
    case VRedirect(_, address) => (TerminateLine(m, address), 0)
    case VRelocate(_, address) => (TerminateLine(m, address), 0)
    case VPart(off, size, _) => (Put(m, off + size), 0)
    case VArray(elems) => TerminateAll(m, elems)
    case VInvalid => (m, -EBADMSG)
    case VUnspecified => (m, -EBADMSG)
  }

  function TerminateLine(m: string, p: nat): (r: string)
    ensures |r| == |m|
  {
    match FindCrLf(m, p)
    case NotFound => m
    case At_(q) => Put(m, q)
  }

  function TerminateAll(m: string, vs: seq<Value>): (r: (string, int))
    ensures |r.0| == |m|
    decreases vs
  {
    if vs == [] then (m, 0) else
    var first := Terminate(m, vs[0]);
    if first.1 != 0 then first else TerminateAll(first.0, vs[1..])
  }

  /** dbBE_Redis_parse_sr_buffer: parse attempt, then termination unless more data is needed. */
  function ParseTop(m: string, avail: nat, p: nat): (r: (Outcome, string))
    requires p <= avail
    ensures p <= r.0.pos <= avail && |r.1| == |m|
  {
    var o := Parse(m, avail, p, true);
    if o.rc == -EAGAIN || p == avail then (o, m)
    else
      var t := Terminate(m, o.value);
      (o.(rc := t.1), t.0)
  }
}
