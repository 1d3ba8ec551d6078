/**
  String termination, and the receive loop over a stream of replies that arrives
  in arbitrary pieces.
 */
module RespSession {
  import opened Definitions
  import opened Resp
  import opened RespParser
  import opened RespParserWhole
  import opened RespParserCut

  // ---------- what a result says ----------

  /** The content of a result structure; bulk and simple strings are the same to the caller. */
  datatype Content =
    | CString(text: string)
    | CNull
    | CError(text: string)
    | CAsk(slot: int, address: string)
    | CMoved(slot: int, address: string)
    | CInt(n: int)
    | CArray(elems: seq<Content>)
    | COther

  function Meaning(r: Reply): Content
    decreases r
  {
    match r
    case Simple(text) => CString(text)
    case Error(text) => CError(text)
    case Ask(slot, address) => CAsk(slot, address)
    case Moved(slot, address) => CMoved(slot, address)
    case Integer(n) => CInt(n)
    case Bulk(bytes) => CString(bytes)
    case Nil => CNull
    case Array(elems) => CArray(Meanings(elems))
  }

  function Meanings(rs: seq<Reply>): seq<Content>
    decreases rs
  {
    if rs == [] then [] else [Meaning(rs[0])] + Meanings(rs[1..])
  }

  function Slice(m: string, p: nat, n: nat): string {
    if p + n <= |m| then m[p..p + n] else ""
  }

  /** Reads a result structure from the buffer; an address is a C string and ends at the first NUL. */
  function View(m: string, v: Value): Content
    decreases v
  {
    match v
    case VString(off, len) => CString(Slice(m, off, len))
    case VNull => CNull
    case VError(off, len) => CError(Slice(m, off, len))
    case VRedirect(slot, a) => CAsk(slot, Slice(m, a, CLength(m, a)))
    case VRelocate(slot, a) => CMoved(slot, Slice(m, a, CLength(m, a)))
    case VInt(n) => CInt(n)
    case VArray(elems) => CArray(Views(m, elems))
    case _ => COther
  }

  function Views(m: string, vs: seq<Value>): seq<Content>
    decreases vs
  {
    if vs == [] then [] else [View(m, vs[0])] + Views(m, vs[1..])
  }

  // ---------- termination ----------

  const NULLF: string := "\0\n"

  /** An encoding after termination: the CR that ends a string has become NUL. */
  function NulEncode(r: Reply): (s: string)
    ensures |s| == |Encode(r)|
    decreases r
  {
    match r
    case Simple(text) => "+" + text + NULLF
    case Error(text) => "-" + text + NULLF
    case Ask(slot, address) => "-" + LocationText("ASK ", slot, address) + NULLF
    case Moved(slot, address) => "-" + LocationText("MOVED ", slot, address) + NULLF
    case Bulk(bytes) => BulkHead(|bytes|) + bytes + NULLF
    case Array(elems) => ArrayHead(|elems|) + NulEncodeAll(elems)
    case Integer(_) => Encode(r)
    case Nil => Encode(r)
  }

  function NulEncodeAll(rs: seq<Reply>): (s: string)
    ensures |s| == |EncodeAll(rs)|
    decreases rs
  {
    if rs == [] then "" else NulEncode(rs[0]) + NulEncodeAll(rs[1..])
  }

  /** `n` is `m` with `s` written at `p` and nothing else changed. */
  ghost predicate Patched(m: string, n: string, p: nat, s: string) {
    |n| == |m| && Holds(n, p, s) && forall i :: 0 <= i < |m| && !(p <= i < p + |s|) ==> n[i] == m[i]
  }

  lemma PatchedPair(m: string, n: string, o: string, p: nat, a: string, b: string)
    requires Patched(m, n, p, a) && Patched(n, o, p + |a|, b)
    ensures Patched(m, o, p, a + b)
  {
    forall i | 0 <= i < |a + b| ensures o[p + i] == (a + b)[i] {
      if i < |a| {
        assert n[p + i] == a[i];
      } else {
        assert o[p + |a| + (i - |a|)] == b[i - |a|];
      }
    }
  }

  /** Writing NUL over the CR of a line that starts at `p`. */
  lemma TerminatedLine(m: string, p: nat, line: string)
    requires Holds(m, p, line + CRLF)
    ensures Patched(m, Put(m, p + |line|), p, line + NULLF)
  {
    var n := Put(m, p + |line|);
    forall i | 0 <= i < |line + NULLF| ensures n[p + i] == (line + NULLF)[i] {
      assert m[p + i] == (line + CRLF)[i];
    }
  }

  lemma TerminatedAddress(m: string, p: nat, word: string, slot: nat, address: string)
    requires LineText(address)
    requires Holds(m, p, "-" + LocationText(word, slot, address) + CRLF)
    ensures var a := p + 2 + |word| + |Decimal(slot)|;
            TerminateLine(m, a) == Put(m, p + |"-" + LocationText(word, slot, address)|)
  {
    var front := "-" + word + Decimal(slot) + " ";
    assert "-" + LocationText(word, slot, address) + CRLF == front + (address + CRLF);
    HoldsParts(m, p, front, address + CRLF);
    HoldsParts(m, p + |front|, address, CRLF);
    FindCrLfSkips(m, p + |front|, address);
    CrLfAt(m, p + |front| + |address|);
  }

  lemma TerminatedReply(m: string, p: nat, r: Reply, line: string)
    requires Encode(r) == line + CRLF && NulEncode(r) == line + NULLF && Holds(m, p, Encode(r))
    requires Terminate(m, ValueOf(r, p)) == (Put(m, p + |line|), 0)
    ensures Terminates(r, m, p)
  {
    TerminatedLine(m, p, line);
  }

  /** Terminating the result for `r` at `p` succeeds and writes only that reply's own terminators. */
  ghost predicate Terminates(r: Reply, m: string, p: nat) {
    var t := Terminate(m, ValueOf(r, p)); t.1 == 0 && Patched(m, t.0, p, NulEncode(r))
  }

  lemma TerminateLeaf(r: Reply, m: string, p: nat)
    requires !r.Array? && WellFormed(r) && Holds(m, p, Encode(r))
    ensures Terminates(r, m, p)
  {
    match r
    case Simple(text) => TerminatedReply(m, p, r, "+" + text);
    case Error(text) => TerminatedReply(m, p, r, "-" + text);
    case Ask(slot, address) =>
      TerminatedAddress(m, p, "ASK ", slot, address);
      TerminatedReply(m, p, r, "-" + LocationText("ASK ", slot, address));
    case Moved(slot, address) =>
      TerminatedAddress(m, p, "MOVED ", slot, address);
      TerminatedReply(m, p, r, "-" + LocationText("MOVED ", slot, address));
    case Bulk(bytes) => TerminatedReply(m, p, r, BulkHead(|bytes|) + bytes);
    case Integer(n) => assert Terminate(m, ValueOf(r, p)) == (m, 0);
    case Nil => assert Terminate(m, ValueOf(r, p)) == (m, 0);
  }

  lemma PatchedBehind(m: string, n: string, p: nat, a: string, b: string)
    requires Holds(m, p, a) && Patched(m, n, p + |a|, b)
    ensures Patched(m, n, p, a + b)
  {
    PatchedPair(m, m, n, p, a, b);
  }

  /** Termination of a parsed reply succeeds and touches only the CRs of that reply's own strings. */
  lemma {:induction false} TerminateWhole(r: Reply, m: string, p: nat)
    requires WellFormed(r) && Holds(m, p, Encode(r))
    ensures Terminates(r, m, p)
    decreases r
  {
    if r.Array? {
      var head := ArrayHead(|r.elems|);
      HoldsParts(m, p, head, EncodeAll(r.elems));
      TerminateElements(r.elems, m, p + |head|);
      PatchedBehind(m, TerminateAll(m, ValuesOf(r.elems, p + |head|)).0, p, head, NulEncodeAll(r.elems));
    } else {
      TerminateLeaf(r, m, p);
    }
  }

  lemma {:induction false} TerminateElements(rs: seq<Reply>, m: string, p: nat)
    requires AllWellFormed(rs) && Holds(m, p, EncodeAll(rs))
    ensures var t := TerminateAll(m, ValuesOf(rs, p)); t.1 == 0 && Patched(m, t.0, p, NulEncodeAll(rs))
    decreases rs
  {
    if rs != [] {
      var q := p + |Encode(rs[0])|;
      HoldsParts(m, p, Encode(rs[0]), EncodeAll(rs[1..]));
      TerminateWhole(rs[0], m, p);
      var first := Terminate(m, ValueOf(rs[0], p)).0;
      var values := ValuesOf(rs, p);
      assert values[0] == ValueOf(rs[0], p) && values[1..] == ValuesOf(rs[1..], q);
      TerminateElements(rs[1..], first, q);
      PatchedPair(m, first, TerminateAll(first, values[1..]).0, p, NulEncode(rs[0]), NulEncodeAll(rs[1..]));
    }
  }

  // ---------- reading back ----------

  lemma SliceReads(m: string, p: nat, a: string, b: string, c: string)
    requires Holds(m, p, a + b + c)
    ensures Slice(m, p + |a|, |b|) == b
  {
    HoldsParts(m, p, a + b, c);
    HoldsParts(m, p, a, b);
  }

  lemma {:induction false} CLengthReads(m: string, p: nat, text: string)
    requires LineText(text) && Holds(m, p, text + NULLF)
    ensures CLength(m, p) == |text|
    decreases |text|
  {
    HoldsAt(m, p, text + NULLF, 0);
    if text != "" {
      assert text + NULLF == [text[0]] + (text[1..] + NULLF);
      HoldsParts(m, p, [text[0]], text[1..] + NULLF);
      CLengthReads(m, p + 1, text[1..]);
    }
  }

  lemma AddressReads(m: string, p: nat, word: string, slot: nat, address: string)
    requires LineText(address) && Holds(m, p, "-" + LocationText(word, slot, address) + NULLF)
    ensures var a := p + 2 + |word| + |Decimal(slot)|; Slice(m, a, CLength(m, a)) == address
  {
    var front := "-" + word + Decimal(slot) + " ";
    assert "-" + LocationText(word, slot, address) + NULLF == front + (address + NULLF);
    HoldsParts(m, p, front, address + NULLF);
    CLengthReads(m, p + |front|, address);
    assert front + (address + NULLF) == front + address + NULLF;
    SliceReads(m, p, front, address, NULLF);
  }

  lemma ViewLeaf(r: Reply, m: string, p: nat)
    requires !r.Array? && WellFormed(r) && Holds(m, p, NulEncode(r))
    ensures View(m, ValueOf(r, p)) == Meaning(r)
  {
    hide CLength, Slice, Holds;
    match r
    case Simple(text) => SliceReads(m, p, "+", text, NULLF);
    case Error(text) => SliceReads(m, p, "-", text, NULLF);
    case Ask(slot, address) => AddressReads(m, p, "ASK ", slot, address);
    case Moved(slot, address) => AddressReads(m, p, "MOVED ", slot, address);
    case Bulk(bytes) => SliceReads(m, p, BulkHead(|bytes|), bytes, NULLF);
    case _ =>
  }

  /** The terminated buffer holds the content of the reply that was parsed. */
  lemma {:induction false} ViewWhole(r: Reply, m: string, p: nat)
    requires WellFormed(r) && Holds(m, p, NulEncode(r))
    ensures View(m, ValueOf(r, p)) == Meaning(r)
    decreases r
  {
    hide Holds, ArrayHead, NulEncodeAll, Slice, CLength, BulkHead, LocationText;
    if r.Array? {
      HoldsParts(m, p, ArrayHead(|r.elems|), NulEncodeAll(r.elems));
      ViewElements(r.elems, m, p + |ArrayHead(|r.elems|)|);
    } else {
      ViewLeaf(r, m, p);
    }
  }

  lemma {:induction false} ViewElements(rs: seq<Reply>, m: string, p: nat)
    requires AllWellFormed(rs) && Holds(m, p, NulEncodeAll(rs))
    ensures Views(m, ValuesOf(rs, p)) == Meanings(rs)
    decreases rs
  {
    hide Holds, NulEncode, View, Meaning, WellFormed, ValueOf;
    if rs != [] {
      HoldsParts(m, p, NulEncode(rs[0]), NulEncodeAll(rs[1..]));
      ViewWhole(rs[0], m, p);
      ViewElements(rs[1..], m, p + |Encode(rs[0])|);
      var values := ValuesOf(rs, p);
      assert values[0] == ValueOf(rs[0], p) && values[1..] == ValuesOf(rs[1..], p + |Encode(rs[0])|);
    }
  }

  // ---------- one top-level attempt ----------

  /** A complete reply: parsed, consumed exactly, readable, and no byte outside it is written. */
  lemma TopWhole(r: Reply, m: string, avail: nat, p: nat)
    requires WellFormed(r) && Holds(m, p, Encode(r)) && p + |Encode(r)| <= avail
    ensures var (o, n) := ParseTop(m, avail, p);
            && o.rc == 0 && o.pos == p + |Encode(r)|
            && View(n, o.value) == Meaning(r)
            && Patched(m, n, p, NulEncode(r))
  {
    ParseWhole(r, m, avail, p, true);
    TerminateWhole(r, m, p);
    ViewWhole(r, Terminate(m, ValueOf(r, p)).0, p);
  }

  lemma {:induction false} TerminateNeverAgain(m: string, v: Value)
    ensures Terminate(m, v).1 == 0 || Terminate(m, v).1 == -EBADMSG
    decreases v
  {
    if v.VArray? {
      TerminateAllNeverAgain(m, v.elems);
    }
  }

  lemma {:induction false} TerminateAllNeverAgain(m: string, vs: seq<Value>)
    ensures TerminateAll(m, vs).1 == 0 || TerminateAll(m, vs).1 == -EBADMSG
    decreases vs
  {
    if vs != [] {
      TerminateNeverAgain(m, vs[0]);
      TerminateAllNeverAgain(Terminate(m, vs[0]).0, vs[1..]);
    }
  }

  /** Whatever memory holds: an attempt succeeds, asks for more or is refused; -ENODATA says that there is nothing. */
  lemma TopCodes(m: string, avail: nat, p: nat)
    requires p <= avail
    ensures var rc := ParseTop(m, avail, p).0.rc;
      if p == avail then rc == 0 - ENODATA else rc in {0, 0 - EAGAIN, 0 - EBADMSG}
  {
    TerminateNeverAgain(m, Parse(m, avail, p, true).value);
  }

  /**
    A cut reply is retried if and only if the cut is a lucky one; a retry leaves the
    position and every byte of the buffer as they were.
   */
  lemma TopCut(r: Reply, m: string, p: nat, k: nat)
    requires WellFormed(r) && 0 < k < |Encode(r)| && Holds(m, p, Encode(r)[..k])
    ensures var (o, n) := ParseTop(m, p + k, p);
            && (o.rc == -EAGAIN <==> Cut(r, k, At(m, p + k), At(m, p + k + 1), true) == Again)
            && (o.rc == -EAGAIN ==> n == m && o.pos == p)
  {
    ParseCut(r, m, p, k, true);
    TerminateNeverAgain(m, Parse(m, p + k, p, true).value);
  }

  // ---------- a part of a large value ----------

  lemma PartParsed(bytes: string, m: string, p: nat, k: nat)
    requires |BulkHead(|bytes|)| <= k < |BulkHead(|bytes|)| + |bytes| && Holds(m, p, Encode(Bulk(bytes))[..k])
    ensures var head := |BulkHead(|bytes|)|;
      && Parse(m, p + k, p, true) == Outcome(0, VPart(p + head, k - head, |bytes|), p + k)
      && Holds(m, p + head, bytes[..k - head])
  {
    hide Decimal, ExtractBulk, Holds;
    var head, r := |BulkHead(|bytes|)|, Bulk(bytes);
    KindOfCut(m, p, r, k);
    assert Encode(r)[1..] == Decimal(|bytes|) + CRLF + bytes + CRLF;
    BulkCut(m, p + 1, bytes, k - 1);
    assert Encode(r)[..k] == BulkHead(|bytes|) + bytes[..k - head];
    HoldsParts(m, p, BulkHead(|bytes|), bytes[..k - head]);
  }

  /**
    A top-level bulk string cut inside its body is handed on as a part: where its bytes begin, how many of
    them have arrived, and how many there are. The bytes that have arrived are those of the value, and only
    the byte behind the received data is written.
   */
  lemma TopPart(bytes: string, m: string, p: nat, k: nat)
    requires |BulkHead(|bytes|)| <= k < |BulkHead(|bytes|)| + |bytes| && Holds(m, p, Encode(Bulk(bytes))[..k])
    ensures var head := |BulkHead(|bytes|)|; var (o, n) := ParseTop(m, p + k, p);
      && o == Outcome(0, VPart(p + head, k - head, |bytes|), p + k)
      && Slice(n, p + head, k - head) == bytes[..k - head]
      && n == if p + k < |m| then m[p + k := '\0'] else m
  {
    hide Parse, BulkHead, Holds, Slice;
    var head := |BulkHead(|bytes|)|;
    PartParsed(bytes, m, p, k);
    TextBeforeNul(m, p + head, bytes[..k - head]);
  }

  lemma TextBeforeNul(m: string, p: nat, text: string)
    requires Holds(m, p, text)
    ensures Slice(Put(m, p + |text|), p, |text|) == text
  {
    var n := Put(m, p + |text|);
    forall i | 0 <= i < |text| ensures n[p + i] == text[i] {
      assert m[p + i] == text[i];
    }
  }

  /**
    What is still missing of the value are the next bytes of the stream, as many as total and size differ by:
    they complete it, and its line end follows.
   */
  lemma PartIsCompleted(bytes: string, s: string, start: nat, m: string, p: nat, k: nat)
    requires |BulkHead(|bytes|)| <= k < |BulkHead(|bytes|)| + |bytes|
    requires start <= |s| && Encode(Bulk(bytes)) <= s[start..] && Holds(m, p, s[start..start + k])
    ensures var (o, n) := ParseTop(m, p + k, p); var v, at := o.value, start + k;
      && v.VPart? && v.size <= v.total && at + v.total - v.size + 2 <= |s|
      && Slice(n, v.off, v.size) + s[at..at + v.total - v.size] == bytes
      && s[at + v.total - v.size..][..2] == CRLF
  {
    hide ParseTop, BulkHead, Slice, Holds;
    var e, head := Encode(Bulk(bytes)), |BulkHead(|bytes|)|;
    assert s[start..start + k] == e[..k];
    TopPart(bytes, m, p, k);
    var missing := |bytes| - (k - head);
    assert s[start..][k..k + missing] == e[k..k + missing] == bytes[k - head..];
    assert s[start + k..start + k + missing] == s[start..][k..k + missing];
    assert s[start..][|e| - 2..|e|] == e[|e| - 2..] == CRLF;
    assert s[start + k + missing..][..2] == s[start..][|e| - 2..|e|];
  }

  // ---------- the receive loop ----------

  datatype Buffer = Buffer(m: string, avail: nat, p: nat) {
    predicate Valid() {
      p <= avail <= |m|
    }
  }

  /** A piece of the stream, and what memory holds behind it once it has been received. */
  datatype Arrival = Arrival(bytes: string, behind: string)

  /** recv resets an empty buffer, recv_more appends to one that holds an incomplete reply. */
  function Receive(b: Buffer, a: Arrival): (r: Buffer)
    requires b.Valid()
    ensures r.Valid()
  {
    if b.p == b.avail then Buffer(a.bytes + a.behind, |a.bytes|, 0)
    else Buffer(b.m[..b.avail] + a.bytes + a.behind, b.avail + |a.bytes|, b.p)
  }

  /** Results so far and the return code that stopped the loop: 0 when all data is used, -EAGAIN for more. */
  datatype Drained = Drained(buffer: Buffer, results: seq<Content>, rc: int)

  /** process_next_item: parse until the buffer is empty or an attempt does not succeed. */
  function Drain(b: Buffer, results: seq<Content>): (d: Drained)
    requires b.Valid()
    ensures d.buffer.Valid()
    decreases b.avail - b.p
  {
    if b.p == b.avail then Drained(b, results, 0) else
    var (o, n) := ParseTop(b.m, b.avail, b.p);
    var next := Buffer(n, b.avail, o.pos);
    if o.rc == 0 && o.pos > b.p then Drain(next, results + [View(n, o.value)])
    else Drained(next, results, o.rc)
  }

  /** The whole session; an attempt that fails with another code than -EAGAIN ends it. */
  function Session(b: Buffer, results: seq<Content>, arrivals: seq<Arrival>): Drained
    requires b.Valid()
    decreases |arrivals|
  {
    if arrivals == [] then Drained(b, results, 0) else
    var d := Drain(Receive(b, arrivals[0]), results);
    if d.rc != 0 && d.rc != -EAGAIN then d else Session(d.buffer, d.results, arrivals[1..])
  }

  // ---------- streams of replies ----------

  /** The first `i` replies on the wire. */
  function Stream(rs: seq<Reply>, i: nat): string
    requires i <= |rs|
  {
    if i == 0 then "" else Stream(rs, i - 1) + Encode(rs[i - 1])
  }

  function Contents(rs: seq<Reply>, i: nat): seq<Content>
    requires i <= |rs|
  {
    if i == 0 then [] else Contents(rs, i - 1) + [Meaning(rs[i - 1])]
  }

  function Bytes(arrivals: seq<Arrival>, i: nat): string
    requires i <= |arrivals|
  {
    if i == 0 then "" else Bytes(arrivals, i - 1) + arrivals[i - 1].bytes
  }

  /** If byte `n` of the stream is inside a reply, then a parse attempt on what is there asks for more. */
  ghost predicate LuckyCut(rs: seq<Reply>, n: nat, s0: char, s1: char) {
    forall i {:trigger Stream(rs, i)} :: 0 <= i < |rs| && 0 < n - |Stream(rs, i)| < |Encode(rs[i])| ==>
      Cut(rs[i], n - |Stream(rs, i)|, s0, s1, true) == Again
  }

  /** The first i arrivals end at a lucky cut. */
  ghost predicate LuckyAt(rs: seq<Reply>, arrivals: seq<Arrival>, i: nat)
    requires 0 < i <= |arrivals|
  {
    LuckyCut(rs, |Bytes(arrivals, i)|, At(arrivals[i - 1].behind, 0), At(arrivals[i - 1].behind, 1))
  }

  /** Every arrival ends at a lucky cut. */
  ghost predicate LuckyArrivals(rs: seq<Reply>, arrivals: seq<Arrival>) {
    forall i :: 0 < i <= |arrivals| ==> LuckyAt(rs, arrivals, i)
  }

  lemma {:induction false} StreamGrows(rs: seq<Reply>, i: nat, j: nat)
    requires i <= j <= |rs|
    ensures Stream(rs, i) <= Stream(rs, j)
    decreases j - i
  {
    hide Encode;
    if i < j {
      StreamGrows(rs, i, j - 1);
    }
  }

  lemma {:induction false} BytesGrow(arrivals: seq<Arrival>, i: nat, j: nat)
    requires i <= j <= |arrivals|
    ensures Bytes(arrivals, i) <= Bytes(arrivals, j)
    decreases j - i
  {
    if i < j {
      BytesGrow(arrivals, i, j - 1);
    }
  }

  // ---------- the session ----------

  /** `i` replies of the stream `s` were delivered, `n` of its bytes received, the bytes between are unprocessed. */
  ghost predicate Synced(s: string, b: Buffer, start: nat, n: nat) {
    b.Valid() && start <= n <= |s| && b.avail - b.p == n - start && Holds(b.m, b.p, s[start..n])
  }

  lemma DrainOne(r: Reply, s: string, b: Buffer, start: nat, n: nat)
    requires WellFormed(r) && Synced(s, b, start, n)
    requires start + |Encode(r)| <= n && Encode(r) <= s[start..]
    ensures var (o, m) := ParseTop(b.m, b.avail, b.p);
            && o.rc == 0 && o.pos == b.p + |Encode(r)| && View(m, o.value) == Meaning(r)
            && Synced(s, Buffer(m, b.avail, o.pos), start + |Encode(r)|, n)
            && At(m, b.avail) == At(b.m, b.avail) && At(m, b.avail + 1) == At(b.m, b.avail + 1)
  {
    hide Encode, ParseTop, View, Holds, Patched, NulEncode, Meaning;
    var e := Encode(r);
    FirstOfRest(s, start, n, e);
    HoldsParts(b.m, b.p, e, s[start + |e|..n]);
    TopWhole(r, b.m, b.avail, b.p);
    RestIsKept(b.m, ParseTop(b.m, b.avail, b.p).1, b.p, NulEncode(r), s[start + |e|..n]);
  }

  lemma FirstOfRest(s: string, start: nat, n: nat, e: string)
    requires start + |e| <= n <= |s| && e <= s[start..]
    ensures s[start..n] == e + s[start + |e|..n]
  {
  }

  /** What lies behind a reply that was terminated is as it was. */
  lemma RestIsKept(m: string, n: string, p: nat, patch: string, rest: string)
    requires Patched(m, n, p, patch) && Holds(m, p + |patch|, rest)
    ensures Holds(n, p + |patch|, rest)
    ensures forall i: nat :: i >= p + |patch| ==> At(n, i) == At(m, i)
  {
  }

  lemma DrainNone(r: Reply, s: string, b: Buffer, start: nat, n: nat, results: seq<Content>)
    requires WellFormed(r) && Synced(s, b, start, n) && Encode(r) <= s[start..]
    requires 0 < n - start < |Encode(r)|
    requires Cut(r, n - start, At(b.m, b.avail), At(b.m, b.avail + 1), true) == Again
    ensures Drain(b, results) == Drained(b, results, -EAGAIN)
  {
    hide Encode, ParseTop, Cut;
    assert s[start..n] == Encode(r)[..n - start];
    TopCut(r, b.m, b.p, n - start);
  }

  lemma ReplyInStream(rs: seq<Reply>, i: nat)
    requires i < |rs|
    ensures var s, start := Stream(rs, |rs|), |Stream(rs, i)|;
            && Stream(rs, i + 1) == Stream(rs, i) + Encode(rs[i])
            && start + |Encode(rs[i])| <= |s| && Encode(rs[i]) <= s[start..]
  {
    hide Encode;
    StreamGrows(rs, i + 1, |rs|);
  }

  /**
    Draining a buffer delivers the replies that are complete and keeps the bytes of the
    incomplete one; `j` counts the replies delivered since the session began.
   */
  lemma {:induction false} DrainStream(rs: seq<Reply>, b: Buffer, i: nat, n: nat) returns (j: nat)
    requires i <= |rs| && (forall k :: 0 <= k < |rs| ==> WellFormed(rs[k]))
    requires Synced(Stream(rs, |rs|), b, |Stream(rs, i)|, n)
    requires LuckyCut(rs, n, At(b.m, b.avail), At(b.m, b.avail + 1))
    ensures i <= j <= |rs| && (j == |rs| || n < |Stream(rs, j + 1)|)
    ensures var d := Drain(b, Contents(rs, i));
            && (d.rc == 0 || d.rc == -EAGAIN) && d.results == Contents(rs, j)
            && Synced(Stream(rs, |rs|), d.buffer, |Stream(rs, j)|, n)
    decreases |rs| - i
  {
    hide Encode, ParseTop, Cut, WellFormed, Meaning, View;
    var s, start := Stream(rs, |rs|), |Stream(rs, i)|;
    j := i;
    if i < |rs| {
      ReplyInStream(rs, i);
      if start + |Encode(rs[i])| <= n {
        DrainOne(rs[i], s, b, start, n);
        var (o, m) := ParseTop(b.m, b.avail, b.p);
        j := DrainStream(rs, Buffer(m, b.avail, o.pos), i + 1, n);
      } else if start < n {
        DrainNone(rs[i], s, b, start, n, Contents(rs, i));
      }
    }
  }

  lemma ReceiveSyncs(s: string, b: Buffer, start: nat, n: nat, a: Arrival)
    requires Synced(s, b, start, n) && n + |a.bytes| <= |s| && s[n..n + |a.bytes|] == a.bytes
    ensures Synced(s, Receive(b, a), start, n + |a.bytes|)
    ensures var r := Receive(b, a);
            At(r.m, r.avail) == At(a.behind, 0) && At(r.m, r.avail + 1) == At(a.behind, 1)
  {
    var r := Receive(b, a);
    var t := s[start..n + |a.bytes|];
    forall i | 0 <= i < |t| ensures r.m[r.p + i] == t[i] {
      if i < n - start {
        assert b.m[b.p + i] == s[start..n][i];
      } else {
        assert s[n..n + |a.bytes|][i - (n - start)] == s[start + i];
      }
    }
  }

  lemma LastArrival(rs: seq<Reply>, arrivals: seq<Arrival>, i: nat)
    requires i <= |rs| && Bytes(arrivals, |arrivals|) == Stream(rs, |rs|)
    requires i == |rs| || |Bytes(arrivals, |arrivals|)| < |Stream(rs, i + 1)|
    ensures i == |rs|
  {
    hide Encode;
    if i < |rs| {
      StreamGrows(rs, i + 1, |rs|);
    }
  }

  lemma BytesNext(arrivals: seq<Arrival>, k: nat, s: string)
    requires k < |arrivals| && Bytes(arrivals, |arrivals|) == s
    ensures Bytes(arrivals, k + 1) == Bytes(arrivals, k) + arrivals[k].bytes && |Bytes(arrivals, k + 1)| <= |s|
    ensures s[|Bytes(arrivals, k)|..|Bytes(arrivals, k + 1)|] == arrivals[k].bytes
  {
    BytesGrow(arrivals, k + 1, |arrivals|);
  }

  lemma SyncedBounds(s: string, b: Buffer, start: nat, n: nat)
    requires Synced(s, b, start, n)
    ensures b.Valid() && start <= n <= |s|
  {
  }

  lemma Round(rs: seq<Reply>, arrivals: seq<Arrival>, b: Buffer, i: nat, k: nat) returns (j: nat)
    requires i <= |rs| && k < |arrivals| && (forall r | r in rs :: WellFormed(r))
    requires Bytes(arrivals, |arrivals|) == Stream(rs, |rs|) && LuckyAt(rs, arrivals, k + 1)
    requires Synced(Stream(rs, |rs|), b, |Stream(rs, i)|, |Bytes(arrivals, k)|)
    ensures i <= j <= |rs| && (j == |rs| || |Bytes(arrivals, k + 1)| < |Stream(rs, j + 1)|)
    ensures var d := Drain(Receive(b, arrivals[k]), Contents(rs, i));
            && (d.rc == 0 || d.rc == -EAGAIN) && d.results == Contents(rs, j)
            && Synced(Stream(rs, |rs|), d.buffer, |Stream(rs, j)|, |Bytes(arrivals, k + 1)|)
  {
    hide Drain, WellFormed, Synced, LuckyCut, Receive, Stream, Bytes, Contents;
    BytesNext(arrivals, k, Stream(rs, |rs|));
    SyncedBounds(Stream(rs, |rs|), b, |Stream(rs, i)|, |Bytes(arrivals, k)|);
    ReceiveSyncs(Stream(rs, |rs|), b, |Stream(rs, i)|, |Bytes(arrivals, k)|, arrivals[k]);
    j := DrainStream(rs, Receive(b, arrivals[k]), i, |Bytes(arrivals, k + 1)|);
  }

  lemma AllLucky(rs: seq<Reply>, arrivals: seq<Arrival>, i: nat)
    requires LuckyArrivals(rs, arrivals) && 0 < i <= |arrivals|
    ensures LuckyAt(rs, arrivals, i)
  {
  }

  /** The session from the `k`th arrival on, when `i` replies have been delivered. */
  lemma {:induction false} SessionDelivers(rs: seq<Reply>, arrivals: seq<Arrival>, b: Buffer, i: nat, k: nat)
    requires i <= |rs| && k <= |arrivals| && (forall r | r in rs :: WellFormed(r))
    requires Bytes(arrivals, |arrivals|) == Stream(rs, |rs|) && LuckyArrivals(rs, arrivals)
    requires Synced(Stream(rs, |rs|), b, |Stream(rs, i)|, |Bytes(arrivals, k)|)
    requires i == |rs| || |Bytes(arrivals, k)| < |Stream(rs, i + 1)|
    ensures Delivers(Session(b, Contents(rs, i), arrivals[k..]), Contents(rs, |rs|))
    decreases |arrivals| - k
  {
    hide Encode, Drain, LuckyArrivals, WellFormed, Meaning, Receive;
    if k == |arrivals| {
      LastArrival(rs, arrivals, i);
    } else {
      AllLucky(rs, arrivals, k + 1);
      var j := Round(rs, arrivals, b, i, k);
      assert arrivals[k..][0] == arrivals[k] && arrivals[k..][1..] == arrivals[k + 1..];
      SessionDelivers(rs, arrivals, Drain(Receive(b, arrivals[k]), Contents(rs, i)).buffer, j, k + 1);
    }
  }

  /** The session ended without error, delivered `results` and consumed everything. */
  ghost predicate Delivers(d: Drained, results: seq<Content>) {
    d.rc == 0 && d.results == results && d.buffer.p == d.buffer.avail
  }

  const EMPTY_BUFFER := Buffer("", 0, 0)

  /**
    However a stream of replies is cut into arrivals and whatever memory holds behind
    them: if every cut is lucky, the loop delivers exactly the replies, in order, and
    consumes every byte.
   */
  lemma StreamDelivered(rs: seq<Reply>, arrivals: seq<Arrival>)
    requires forall r | r in rs :: WellFormed(r)
    requires Bytes(arrivals, |arrivals|) == Stream(rs, |rs|) && LuckyArrivals(rs, arrivals)
    ensures Delivers(Session(EMPTY_BUFFER, [], arrivals), Contents(rs, |rs|))
  {
    assert arrivals[0..] == arrivals;
    if rs != [] {
      assert |Stream(rs, 1)| > 0;
    }
    SessionDelivers(rs, arrivals, EMPTY_BUFFER, 0, 0);
  }
}
