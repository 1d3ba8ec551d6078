/**
  The send/receive buffer and the reply parser as they run: in place, on an array,
  with a position that is advanced and rewound.
 */
module SrBuffer {
  import opened Definitions
  import opened Resp
  import Spec = RespParser
  import opened RespSession

  class Buffer {
    const data: array<char>
    var available: nat
    var processed: nat

    ghost predicate Valid()
      reads this
    {
      processed <= available <= data.Length <= INT64_MAX
    }

    constructor (size: nat)
      requires size <= INT64_MAX
      ensures Valid() && fresh(data) && data.Length == size && available == 0 && processed == 0
      ensures forall i :: 0 <= i < size ==> data[i] == '\0'
    {
      data := new char[size](i => '\0');
      available, processed := 0, 0;
    }

    /**
      Adds to the received data, never past the size; a write buffer is also processed that far. The
      sum is that of the source's unsigned 64-bit integers.
     */
    method AddData(n: nat, write: bool) returns (added: nat)
      requires Valid() && n < SIZE_RANGE
      modifies this`available, this`processed
      ensures write || n <= INT64_MAX ==> Valid()
      ensures processed == if write then available else old(processed)
      ensures n <= INT64_MAX ==> added == Spec.Min(n, data.Length - old(available)) && available == old(available) + added
      ensures n > INT64_MAX && old(available) + n >= SIZE_RANGE ==> added == n && available == old(available) + n - SIZE_RANGE
      ensures n > INT64_MAX && old(available) + n < SIZE_RANGE ==> added == data.Length - old(available) && available == data.Length
    {
      added := n;
      if (available + n) % SIZE_RANGE <= data.Length {
        available := (available + n) % SIZE_RANGE;
      } else {
        added := data.Length - available;
        available := data.Length;
      }
      if write {
        processed := available;
      }
    }

    method Advance(n: nat) returns (moved: nat)
      requires Valid()
      modifies this`processed
      ensures Valid() && processed == Spec.Advance(available, old(processed), n) == old(processed) + moved
    {
      moved := n;
      if processed + n <= available {
        processed := processed + n;
      } else {
        moved := available - processed;
        processed := available;
      }
    }

    /** Only a position inside the received data is taken. */
    method RewindProcessedTo(offset: nat) returns (ok: bool)
      requires Valid()
      modifies this`processed
      ensures Valid() && ok == (offset < available)
      ensures processed == if ok then offset else old(processed)
    {
      ok := offset < available;
      if ok {
        processed := offset;
      }
    }

    // ---------- reading the memory ----------

    function Peek(i: nat): (c: char)
      reads data
      ensures c == Spec.At(data[..], i)
    {
      if i < data.Length then data[i] else '\0'
    }

    method FindCrLf(p: nat) returns (r: Spec.Found)
      ensures r == Spec.FindCrLf(data[..], p)
    {
      var q := p;
      while q < data.Length && data[q] != '\0'
        invariant p <= q
        invariant Spec.FindCrLf(data[..], p) == Spec.FindCrLf(data[..], q)
      {
        if data[q] == '\r' && Peek(q + 1) == '\n' {
          return Spec.At_(q);
        }
        q := q + 1;
      }
      return Spec.NotFound;
    }

    method CLength(p: nat) returns (n: nat)
      ensures n == Spec.CLength(data[..], p)
    {
      n := 0;
      while p + n < data.Length && data[p + n] != '\0'
        invariant Spec.CLength(data[..], p) == n + Spec.CLength(data[..], p + n)
      {
        n := n + 1;
      }
    }

    method StrToL(p: nat) returns (value: int, end: nat)
      ensures (value, end) == Spec.StrToL(data[..], p)
    {
      var q := p;
      while q < data.Length && Spec.IsSpace(data[q])
        invariant Spec.SkipSpaces(data[..], p) == Spec.SkipSpaces(data[..], q)
      {
        q := q + 1;
      }
      var start := if Peek(q) == '-' || Peek(q) == '+' then q + 1 else q;
      var n: nat := 0;
      end := start;
      while end < data.Length && IsDigit(data[end])
        invariant start <= end
        invariant Spec.SkipDigits(data[..], start, 0) == Spec.SkipDigits(data[..], end, n)
      {
        n := n * 10 + DigitValue(data[end]);
        end := end + 1;
      }
      value := if Peek(q) == '-' then 0 - n else n;
      if end == start {
        value, end := 0, p;
      }
    }

    method ExtractInteger(p: nat, limit: int) returns (r: Spec.Scan)
      ensures r == Spec.ExtractInteger(data[..], p, limit)
    {
      var q, remaining, parsed, negative := p, limit, 0, false;
      if Peek(q) == '-' {
        negative := true;
        q, parsed, remaining := q + 1, parsed + 1, remaining - 1;
      }
      if Peek(q) == '+' {
        q, parsed, remaining := q + 1, parsed + 1, remaining - 1;
      }
      var value: nat := 0;
      ghost var m := data[..];
      while Peek(q) != '\r' && Peek(q) != '\0' && remaining > 0
        invariant Spec.ExtractInteger(m, p, limit) == Spec.ScanDigits(m, q, remaining, value, parsed, negative)
        decreases data.Length - q
      {
        if !IsDigit(Peek(q)) {
          var terminator := FindCrLf(q);
          match terminator {
            case NotFound =>
              var rest := CLength(q);
              return Spec.NotANumber(parsed + rest);
            case At_(t) =>
              return Spec.NotANumber(parsed + (t - q) + 2);
          }
        }
        value := value * 10 + DigitValue(Peek(q));
        q, parsed, remaining := q + 1, parsed + 1, remaining - 1;
      }
      if remaining < 2 {
        return Spec.Incomplete;
      }
      if Peek(q) == '\r' {
        q, parsed := q + 1, parsed + 1;
      }
      if Peek(q) == '\n' {
        parsed := parsed + 1;
      }
      return Spec.Number(if negative then 0 - value else value, parsed);
    }

    method FindTerminator(p: nat, limit: int) returns (r: Spec.Found)
      ensures r == Spec.FindTerminator(data[..], p, limit)
    {
      var pos := 0;
      while pos < limit
        invariant 0 <= pos
        invariant Spec.FindTerminator(data[..], p, limit) == Spec.FindTerminator(data[..], p + pos, limit - pos)
      {
        while pos < limit - 1 && Peek(p + pos) != '\r'
          invariant 0 <= pos < limit
          invariant Spec.FindTerminator(data[..], p, limit) == Spec.FindTerminator(data[..], p + pos, limit - pos)
        {
          pos := pos + 1;
        }
        if Peek(p + pos) == '\r' && Peek(p + pos + 1) == '\n' {
          return Spec.At_(p + pos);
        }
        pos := pos + 1;
      }
      return Spec.NotFound;
    }

    method ExtractBulk(p: nat, limit: int) returns (r: Spec.BulkScan)
      ensures r == Spec.ExtractBulk(data[..], p, limit)
    {
      if limit <= 0 {
        return Spec.BulkBroken(0);
      }
      var scan := ExtractInteger(p, limit);
      match scan
      case Incomplete => return Spec.BulkIncomplete;
      case NotANumber(_) => return Spec.BulkBroken(limit);
      case Number(len, head) =>
        if len == -1 {
          return Spec.BulkNull(head);
        } else if len < 0 {
          return Spec.BulkBroken(limit);
        }
        var text := p + head;
        if len >= limit - head {
          return if len == limit - head then Spec.BulkIncomplete else Spec.BulkPart(text, len, head);
        }
        if Peek(text + len) == '\r' && len + 1 == limit - head {
          return Spec.BulkIncomplete;
        }
        var actual := len;
        if Peek(text + len) != '\r' || Peek(text + len + 1) != '\n' {
          var terminator := FindTerminator(text, limit - head);
          match terminator {
            case NotFound => return Spec.BulkBroken(limit);
            case At_(t) => actual := t - text;
          }
        }
        return Spec.BulkString(text, actual, head + actual + 2);
    }

    method ErrorValue(p: nat, len: nat) returns (v: Spec.Value)
      ensures v == Spec.ErrorValue(data[..], p, len)
    {
      if Spec.StartsWith(data[..], p, "ASK ") {
        var slot, end := StrToL(p + 4);
        v := if Peek(end) == ' ' then Spec.VRedirect(slot, end + 1) else Spec.VInvalid;
      } else if Spec.StartsWith(data[..], p, "MOVED ") {
        var slot, end := StrToL(p + 6);
        v := if Peek(end) == ' ' then Spec.VRelocate(slot, end + 1) else Spec.VInvalid;
      } else {
        v := Spec.VError(p, len);
      }
    }

    // ---------- terminating strings in place ----------

    method Put(i: nat)
      modifies data
      ensures data[..] == Spec.Put(old(data[..]), i)
    {
      if i < data.Length {
        data[i] := '\0';
      }
    }

    method TerminateStrings(v: Spec.Value) returns (rc: int)
      modifies data
      ensures (data[..], rc) == Spec.Terminate(old(data[..]), v)
      decreases v
    {
      rc := 0;
      match v
      case VString(off, len) => Put(off + len);
      case VError(off, len) => Put(off + len);
      case VPart(off, size, _) => Put(off + size);
      case VRedirect(_, address) => TerminateLine(address);
      case VRelocate(_, address) => TerminateLine(address);
      case VArray(elems) =>
        var n := 0;
        while n < |elems| && rc == 0
          invariant 0 <= n <= |elems|
          invariant Spec.TerminateAll(old(data[..]), elems)
                 == if rc == 0 then Spec.TerminateAll(data[..], elems[n..]) else (data[..], rc)
        {
          assert elems[n..][0] == elems[n] && elems[n..][1..] == elems[n + 1..];
          rc := TerminateStrings(elems[n]);
          n := n + 1;
        }
      case VInvalid => rc := -EBADMSG;
      case VUnspecified => rc := -EBADMSG;
      case _ =>
    }

    method TerminateLine(p: nat)
      modifies data
      ensures data[..] == Spec.TerminateLine(old(data[..]), p)
    {
      var end := FindCrLf(p);
      if end.At_? {
        Put(end.pos);
      }
    }

    // ---------- parsing ----------

    method ParseLine(kind: char) returns (rc: int, v: Spec.Value, parsed: nat)
      requires Valid()
      requires 0 < processed && (kind == '-' || kind == '+')
      ensures Spec.Outcome(rc, v, if rc == -EAGAIN then processed - 1 else Spec.Advance(available, processed, parsed))
           == if kind == '-' then Spec.ParseError(data[..], available, processed - 1)
              else Spec.ParseSimple(data[..], available, processed - 1)
    {
      var q := processed;
      rc, v, parsed := 0, Spec.VUnspecified, 0;
      var end := FindCrLf(q);
      if end.NotFound? || end.pos - q > available - q || (kind == '-' && end.pos == q) {
        rc := -EAGAIN;
      } else {
        parsed := end.pos - q + 2;
        if kind == '-' {
          v := ErrorValue(q, end.pos - q);
        } else {
          v := Spec.VString(q, end.pos - q);
        }
      }
    }

    method ParseBulk(toplevel: bool) returns (rc: int, v: Spec.Value, parsed: nat)
      requires Valid() && 0 < processed
      ensures Spec.Outcome(rc, v, if rc == -EAGAIN then processed - 1 else Spec.Advance(available, processed, parsed))
           == Spec.ParseBulk(data[..], available, processed - 1, toplevel)
    {
      var limit := available - processed;
      var scan := ExtractBulk(processed, limit);
      rc, parsed := 0, 0;
      match scan
      case BulkString(off, len, n) => v, parsed := Spec.VString(off, len), n;
      case BulkNull(n) => v, parsed := Spec.VNull, n;
      case BulkIncomplete => rc, v := -EAGAIN, Spec.VUnspecified;
      case BulkPart(off, total, n) =>
        if !toplevel {
          rc, v := -EAGAIN, Spec.VUnspecified;
        } else {
          v, parsed := Spec.VPart(off, limit - n, total), limit;
        }
      case BulkBroken(n) => rc, v, parsed := -EBADMSG, Spec.VInvalid, n;
    }

    /** One attempt: on -EAGAIN the position is rewound to where the attempt began. */
    method ParseCheck(toplevel: bool) returns (rc: int, v: Spec.Value)
      requires Valid()
      modifies this`processed, data
      ensures Valid()
      ensures !toplevel ==> data[..] == old(data[..])
      ensures !toplevel ==> Spec.Outcome(rc, v, processed) == Spec.Parse(old(data[..]), available, old(processed), false)
      ensures rc == -EAGAIN ==> processed == old(processed) && data[..] == old(data[..])
      ensures toplevel ==> (Spec.Outcome(rc, v, processed), data[..]) == Spec.ParseTop(old(data[..]), available, old(processed))
      decreases available - processed, 0
    {
      hide Spec.ParseArray, Spec.ParseError, Spec.ParseSimple, Spec.ParseInteger, Spec.ParseBulk, Spec.ExtractInteger;
      hide Spec.ParseElements, Spec.Terminate;
      if processed == available {
        return -ENODATA, Spec.VInvalid;
      }
      var start, kind := processed, Peek(processed);
      var moved := Advance(1);
      var parsed: nat := 0;
      if kind == '-' || kind == '+' {
        rc, v, parsed := ParseLine(kind);
      } else if kind == ':' {
        rc, v, parsed := ParseInteger();
      } else if kind == '$' {
        rc, v, parsed := ParseBulk(toplevel);
      } else if kind == '*' {
        rc, v, parsed := ParseArray();
      } else {
        rc, v := -EPROTO, Spec.VInvalid;
      }
      if rc == -EAGAIN {
        var ok := RewindProcessedTo(start);
      } else {
        moved := Advance(parsed);
        if toplevel {
          TerminateNeverAgain(data[..], v);
          rc := TerminateStrings(v);
        }
      }
    }

    method ParseInteger() returns (rc: int, v: Spec.Value, parsed: nat)
      requires Valid() && 0 < processed
      ensures Spec.Outcome(rc, v, if rc == -EAGAIN then processed - 1 else Spec.Advance(available, processed, parsed))
           == Spec.ParseInteger(data[..], available, processed - 1)
    {
      var scan := ExtractInteger(processed, available - processed);
      rc, v, parsed := 0, Spec.VNaN, 0;
      match scan
      case Incomplete => rc := -EAGAIN;
      case NotANumber(n) => parsed := n;
      case Number(n, used) => v, parsed := Spec.VInt(n), used;
    }

    /** Parses the elements one after the other, leaving the position behind the last one parsed. */
    method ParseArray() returns (rc: int, v: Spec.Value, parsed: nat)
      requires Valid() && 0 < processed
      modifies this`processed, data
      ensures Valid() && data[..] == old(data[..])
      ensures Spec.Outcome(rc, v, if rc == -EAGAIN then old(processed) - 1 else Spec.Advance(available, processed, parsed))
           == Spec.ParseArray(data[..], available, old(processed) - 1)
      decreases available - processed, 1
    {
      hide Spec.ExtractInteger, Spec.Parse, Spec.ParseElements;
      rc, v, parsed := 0, Spec.VUnspecified, 0;
      ghost var m := data[..];
      var scan := ExtractInteger(processed, available - processed);
      match scan
      case Incomplete => rc := -EAGAIN;
      case NotANumber(n) => v, parsed := Spec.VInt(-EPROTO), n;
      case Number(value, used) =>
        var len := Spec.ToInt32(value);
        var moved := Advance(used);
        ghost var first := processed;
        var elems: seq<Spec.Value>, n := [], 0;
        ElementsStart(m, available, first, len);
        while n < len && rc == 0
          invariant Valid() && data[..] == m && old(processed) <= processed
          invariant 0 <= n && (n <= len || n == 0)
          invariant ElementsFrom(m, available, first, len, n, rc, elems, processed)
          decreases len - n
        {
          ElementsStep(m, available, first, len, n, elems, processed);
          var elem;
          rc, elem := ParseCheck(false);
          elems, n := elems + [elem], n + 1;
        }
        ElementsDone(m, available, first, len, n, rc, elems, processed);
        if rc == -EAGAIN || rc == -ENODATA {
          rc := -EAGAIN;
        } else {
          v := Spec.VArray(elems + Spec.Unparsed(if len < n then 0 else len - n));
        }
    }

    /** The loop over the elements has done `n` of `len`; what is left to do is what the function still says. */
    static ghost predicate ElementsFrom(m: string, avail: nat, first: nat, len: int, n: int, rc: int, elems: seq<Spec.Value>, pos: nat) {
      && first <= avail && pos <= avail
      && var all := Spec.ParseElements(m, avail, first, len);
         if rc == 0 then
           var rest := Spec.ParseElements(m, avail, pos, len - n);
           all == (rest.0, elems + rest.1, rest.2)
         else
           n <= len && all == (rc, elems + Spec.Unparsed(len - n), pos)
    }

    static lemma ElementsStart(m: string, avail: nat, first: nat, len: int)
      requires first <= avail
      ensures ElementsFrom(m, avail, first, len, 0, 0, [], first)
    {
      var all := Spec.ParseElements(m, avail, first, len);
      assert [] + all.1 == all.1;
    }

    static lemma ElementsStep(m: string, avail: nat, first: nat, len: int, n: nat, elems: seq<Spec.Value>, pos: nat)
      requires n < len && ElementsFrom(m, avail, first, len, n, 0, elems, pos)
      ensures var e := Spec.Parse(m, avail, pos, false);
              ElementsFrom(m, avail, first, len, n + 1, e.rc, elems + [e.value], e.pos)
    {
      hide Spec.Parse;
      var e := Spec.Parse(m, avail, pos, false);
      var rest := if e.rc == 0 then Spec.ParseElements(m, avail, e.pos, len - n - 1).1 else Spec.Unparsed(len - n - 1);
      assert elems + ([e.value] + rest) == elems + [e.value] + rest;
    }

    static lemma ElementsDone(m: string, avail: nat, first: nat, len: int, n: nat, rc: int, elems: seq<Spec.Value>, pos: nat)
      requires (n >= len || rc != 0) && ElementsFrom(m, avail, first, len, n, rc, elems, pos)
      ensures Spec.ParseElements(m, avail, first, len) == (rc, elems + Spec.Unparsed(if len < n then 0 else len - n), pos)
    {
      hide Spec.Parse;
      assert elems + [] == elems && Spec.Unparsed(0) == [];
    }
  }
}
