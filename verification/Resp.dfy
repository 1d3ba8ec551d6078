/**
  Replies of the Redis serialization protocol (RESP2) and their byte encoding.
  A byte is modelled by a `char`: nothing here depends on a byte being below 256.
 */
module Resp {
  import opened Definitions

  datatype Reply =
    | Simple(text: string)
    | Error(text: string)
    | Ask(slot: nat, address: string)
    | Moved(slot: nat, address: string)
    | Integer(value: int)
    | Bulk(bytes: string)
    | Nil
    | Array(elems: seq<Reply>)

  const CRLF: string := "\r\n"

  // ---------- decimal numbers ----------

  function Digit(d: nat): (c: char)
    requires d < 10
    ensures IsDigit(c) && DigitValue(c) == d
  {
    ('0' as int + d) as char
  }

  predicate IsDigit(c: char) {
    '0' <= c <= '9'
  }

  function DigitValue(c: char): nat
    requires IsDigit(c)
  {
    c as int - '0' as int
  }

  /** Decimal rendering of a natural number, as printf's %ld gives it. */
  function Decimal(n: nat): (s: string)
    ensures |s| > 0
    ensures forall i :: 0 <= i < |s| ==> IsDigit(s[i])
  {
    if n < 10 then [Digit(n)] else Decimal(n / 10) + [Digit(n % 10)]
  }

  function SignedDecimal(n: int): string {
    if n < 0 then "-" + Decimal(-n) else Decimal(n)
  }

  /** The value that reading the digits `s` from left to right adds to `acc`. */
  function Accumulate(acc: nat, s: string): nat
    requires forall i :: 0 <= i < |s| ==> IsDigit(s[i])
    decreases |s|
  {
    if s == "" then acc else Accumulate(acc * 10 + DigitValue(s[0]), s[1..])
  }

  lemma {:induction false} AccumulateSnoc(acc: nat, s: string, c: char)
    requires forall i :: 0 <= i < |s| ==> IsDigit(s[i])
    requires IsDigit(c)
    ensures Accumulate(acc, s + [c]) == Accumulate(acc, s) * 10 + DigitValue(c)
    decreases |s|
  {
    if s == "" {
      assert s + [c] == [c];
    } else {
      assert (s + [c])[1..] == s[1..] + [c];
      AccumulateSnoc(acc * 10 + DigitValue(s[0]), s[1..], c);
    }
  }

  /** Reading back the decimal rendering of a number gives that number. */
  lemma {:induction false} DecimalReadsBack(n: nat)
    ensures Accumulate(0, Decimal(n)) == n
  {
    if n >= 10 {
      DecimalReadsBack(n / 10);
      AccumulateSnoc(0, Decimal(n / 10), Digit(n % 10));
    }
  }

  // ---------- encoding ----------

  function BulkHead(n: nat): string {
    "$" + Decimal(n) + CRLF
  }

  function ArrayHead(n: nat): string {
    "*" + Decimal(n) + CRLF
  }

  function LocationText(word: string, slot: nat, address: string): string {
    word + Decimal(slot) + " " + address
  }

  function Encode(r: Reply): (s: string)
    ensures |s| >= 3
    decreases r
  {
    match r
    case Simple(text) => "+" + text + CRLF
    case Error(text) => "-" + text + CRLF
    case Ask(slot, address) => "-" + LocationText("ASK ", slot, address) + CRLF
    case Moved(slot, address) => "-" + LocationText("MOVED ", slot, address) + CRLF
    case Integer(n) => ":" + SignedDecimal(n) + CRLF
    case Bulk(bytes) => BulkHead(|bytes|) + bytes + CRLF
    case Nil => "$-1" + CRLF
    case Array(elems) => ArrayHead(|elems|) + EncodeAll(elems)
  }

  function EncodeAll(rs: seq<Reply>): string
    decreases rs
  {
    if rs == [] then "" else Encode(rs[0]) + EncodeAll(rs[1..])
  }

  // ---------- well-formed replies ----------

  /** Simple strings and errors of RESP hold neither CR nor LF; NUL ends a C string. */
  predicate LineText(s: string) {
    forall i :: 0 <= i < |s| ==> s[i] != '\r' && s[i] != '\n' && s[i] != '\0'
  }

  predicate WellFormed(r: Reply)
    decreases r
  {
    match r
    case Simple(text) => LineText(text)
    case Error(text) => LineText(text) && text != "" && !("ASK " <= text) && !("MOVED " <= text)
    case Ask(slot, address) => LineText(address) && slot < 16384
    case Moved(slot, address) => LineText(address) && slot < 16384
    case Integer(n) => -INT64_MAX <= n <= INT64_MAX
    case Bulk(bytes) => |bytes| <= INT64_MAX
    case Nil => true
    case Array(elems) => |elems| <= INT32_MAX && AllWellFormed(elems)
  }

  predicate AllWellFormed(rs: seq<Reply>)
    decreases rs
  {
    rs == [] || (WellFormed(rs[0]) && AllWellFormed(rs[1..]))
  }
}
