/** Building a command: texts printed into the send buffer, gathered with pieces of the template. */
module CommandBuilder {
  import opened Definitions
  import opened Protocol
  import opened SrBuffer

  /** One entry of the scatter/gather list: template text or user data, or bytes of the send buffer. */
  datatype Chunk = Bytes(bytes: string) | InBuffer(pos: nat, len: nat)

  function Min(a: nat, b: nat): nat {
    if a < b then a else b
  }

  function Content(c: Chunk, mem: string): string {
    match c
    case Bytes(bytes) => bytes
    case InBuffer(pos, len) => var from := Min(pos, |mem|); mem[from..Min(from + len, |mem|)]
  }

  function Flatten(cmd: seq<Chunk>, mem: string): string {
    if cmd == [] then "" else Content(cmd[0], mem) + Flatten(cmd[1..], mem)
  }

  function Contents(cs: seq<Chunk>, mem: string): seq<string> {
    seq(|cs|, i requires 0 <= i < |cs| => Content(cs[i], mem))
  }

  function Len(c: Chunk): nat {
    match c
    case Bytes(bytes) => |bytes|
    case InBuffer(_, len) => len
  }

  /** The bytes that the entries of a list announce. */
  function Lengths(cmd: seq<Chunk>): nat {
    if cmd == [] then 0 else Len(cmd[0]) + Lengths(cmd[1..])
  }

  /** Sending the list sends these bytes: as many as it announces, and none from outside the memory. */
  predicate Sends(cmd: seq<Chunk>, mem: string, bytes: string) {
    Lengths(cmd) == |bytes| && Flatten(cmd, mem) == bytes
  }

  /** The entries that lie in the buffer lie between two positions. */
  predicate Within(cmd: seq<Chunk>, from: nat, to: nat) {
    forall i :: 0 <= i < |cmd| && cmd[i].InBuffer? ==> from <= cmd[i].pos && cmd[i].pos + cmd[i].len <= to
  }

  lemma {:induction false} WithinLengths(cmd: seq<Chunk>, from: nat, to: nat, mem: string)
    requires Within(cmd, from, to) && to <= |mem|
    ensures Lengths(cmd) == |Flatten(cmd, mem)|
    decreases |cmd|
  {
    if cmd != [] {
      WithinLengths(cmd[1..], from, to, mem);
    }
  }

  lemma {:induction false} LengthsAppend(a: seq<Chunk>, b: seq<Chunk>)
    ensures Lengths(a + b) == Lengths(a) + Lengths(b)
    decreases |a|
  {
    if a == [] {
      assert a + b == b;
    } else {
      assert (a + b)[1..] == a[1..] + b;
      LengthsAppend(a[1..], b);
    }
  }

  /** What is written elsewhere does not change what a list sends. */
  lemma {:induction false} FlattenKept(cmd: seq<Chunk>, was: string, mem: string, from: nat, to: nat)
    requires Within(cmd, from, to) && to <= |was| == |mem| && mem[..to] == was[..to]
    ensures Flatten(cmd, mem) == Flatten(cmd, was)
    decreases |cmd|
  {
    hide Content;
    if cmd != [] {
      ContentKept(cmd[0], was, mem, to);
      FlattenKept(cmd[1..], was, mem, from, to);
    }
  }

  lemma {:induction false} FlattenAppend(a: seq<Chunk>, b: seq<Chunk>, mem: string)
    ensures Flatten(a + b, mem) == Flatten(a, mem) + Flatten(b, mem)
    decreases |a|
  {
    hide Content;
    if a == [] {
      assert a + b == b;
    } else {
      assert (a + b)[1..] == a[1..] + b;
      FlattenAppend(a[1..], b, mem);
    }
  }

  lemma FlattenSnoc(a: seq<Chunk>, c: Chunk, mem: string)
    ensures Flatten(a + [c], mem) == Flatten(a, mem) + Content(c, mem)
  {
    FlattenAppend(a, [c], mem);
    assert [c][1..] == [];
  }

  // ---------- expanding a template ----------

  /** index( t + p, '%' ); the length of t if there is none. */
  method FindPlace(t: string, p: nat) returns (q: nat)
    requires p <= |t|
    ensures p <= q <= |t| && Plain(t[p..q])
    ensures q < |t| ==> t[q] == '%'
  {
    q := p;
    while q < |t| && t[q] != '%'
      invariant p <= q <= |t| && Plain(t[p..q])
    {
      assert t[p..q + 1] == t[p..q] + [t[q]];
      q := q + 1;
    }
  }

  lemma PrependTwice(a: string, b: string, e: Expansion)
    ensures Prepend(a, Prepend(b, e)) == Prepend(a + b, e)
  {
    if e.Expanded? {
      assert a + (b + e.bytes) == (a + b) + e.bytes;
    }
  }

  /** Text up to the next place. */
  lemma ExpandUpTo(t: string, p: nat, q: nat, n: nat, args: seq<Option<string>>)
    requires p <= q <= |t| && Plain(t[p..q]) && n <= |args|
    ensures Expand(t[p..], n, args) == Prepend(t[p..q], Expand(t[q..], n, args))
  {
    hide Expand;
    assert t[p..] == t[p..q] + t[q..];
    ExpandText(t[p..q], t[q..], n, args);
  }

  /** The two bytes of a place. */
  lemma ExpandAt(t: string, q: nat, n: nat, args: seq<Option<string>>)
    requires q < |t| && t[q] == '%' && n <= |args|
    ensures var i := if q + 1 < |t| then t[q + 1] as int - '0' as int else -1;
      Expand(t[q..], n, args) ==
        if i < 0 || i >= n then BadMessage
        else if args[i].None? then Expanded(t[q..])
        else Prepend(args[i].value, Expand(t[q + 2..], n, args))
  {
    if q + 1 < |t| {
      assert t[q..][2..] == t[q + 2..];
      assert t[q..][1] == t[q + 1];
    }
  }

  /** The contents of the arguments, NULL ones being None. */
  function Given(args: seq<Option<Chunk>>, mem: string): seq<Option<string>> {
    seq(|args|, i requires 0 <= i < |args| =>
      match args[i] case None => None case Some(c) => Some(Content(c, mem)))
  }

  /** Gathers the pieces of a template with its arguments, whatever the buffer holds. */
  method CreateSgeN(t: string, arrayLen: nat, args: seq<Option<Chunk>>, ghost mem: string) returns (rc: int, cmd: seq<Chunk>)
    requires arrayLen <= |args|
    ensures Expand(t, arrayLen, Given(args, mem)).BadMessage? ==> rc == 0 - EBADMSG
    ensures Expand(t, arrayLen, Given(args, mem)).Expanded? ==>
              rc == |cmd| && Expand(t, arrayLen, Given(args, mem)).bytes == Flatten(cmd, mem)
    ensures forall c :: c in cmd ==> c.Bytes? || Some(c) in args
  {
    hide Expand, Flatten, Content;
    var p := 0;
    cmd := [];
    ghost var given := Given(args, mem);
    ghost var goal := Expand(t, arrayLen, given);
    assert t[0..] == t;
    FlattenNothing(mem);
    assert goal == Prepend("", goal) by { PrependNothing(goal); }
    while p < |t|
      invariant p <= |t|
      invariant goal == Prepend(Flatten(cmd, mem), Expand(t[p..], arrayLen, given))
      invariant forall c :: c in cmd ==> c.Bytes? || Some(c) in args
    {
      var q := FindPlace(t, p);
      if q == |t| {
        break;
      }
      ExpandUpTo(t, p, q, arrayLen, given);
      PrependTwice(Flatten(cmd, mem), t[p..q], Expand(t[q..], arrayLen, given));
      if q != p {
        FlattenSnoc(cmd, Bytes(t[p..q]), mem);
        ContentOfBytes(t[p..q], mem);
        cmd := cmd + [Bytes(t[p..q])];
      } else {
        assert Flatten(cmd, mem) + t[p..q] == Flatten(cmd, mem);
      }
      p := q;
      assert goal == Prepend(Flatten(cmd, mem), Expand(t[q..], arrayLen, given));
      ExpandAt(t, q, arrayLen, given);
      var idx := if q + 1 < |t| then t[q + 1] as int - '0' as int else -1;
      if idx < 0 || idx >= arrayLen {
        return 0 - EBADMSG, [];
      }
      if args[idx].None? {
        assert given[idx] == None;
        FlattenSnoc(cmd, Bytes(t[p..]), mem);
        ContentOfBytes(t[p..], mem);
        cmd := cmd + [Bytes(t[p..])];
        return |cmd|, cmd;
      }
      assert given[idx] == Some(Content(args[idx].value, mem));
      PrependTwice(Flatten(cmd, mem), Content(args[idx].value, mem), Expand(t[q + 2..], arrayLen, given));
      if Len(args[idx].value) > 0 {
        FlattenSnoc(cmd, args[idx].value, mem);
        cmd := cmd + [args[idx].value];
      } else {
        NoContent(args[idx].value, mem);
        assert Flatten(cmd, mem) + "" == Flatten(cmd, mem);
      }
      p := q + 2;
    }
    if p < |t| {
      ExpandUpTo(t, p, |t|, arrayLen, given);
      PrependTwice(Flatten(cmd, mem), t[p..], Expand("", arrayLen, given));
      FlattenSnoc(cmd, Bytes(t[p..]), mem);
      ContentOfBytes(t[p..], mem);
      assert t[p..|t|] == t[p..] && t[|t|..] == "";
      cmd := cmd + [Bytes(t[p..])];
    } else {
      assert t[p..] == "";
    }
    ExpandEmpty(arrayLen, given);
    rc := |cmd|;
    assert Flatten(cmd, mem) + "" == Flatten(cmd, mem);
  }

  lemma FlattenNothing(mem: string)
    ensures Flatten([], mem) == ""
  {
  }

  lemma PrependNothing(e: Expansion)
    ensures Prepend("", e) == e
  {
    if e.Expanded? {
      assert "" + e.bytes == e.bytes;
    }
  }

  lemma ContentOfBytes(s: string, mem: string)
    ensures Content(Bytes(s), mem) == s
  {
  }

  lemma NoContent(c: Chunk, mem: string)
    requires Len(c) == 0
    ensures Content(c, mem) == ""
  {
  }

  // ---------- printing into the send buffer ----------

  /** snprintf( mem + pos, size, "%s", text ): at most size - 1 bytes and a NUL, inside the buffer. */
  ghost predicate Printed(was: string, mem: string, pos: nat, size: nat, text: string) {
    && |mem| == |was|
    && (forall i :: 0 <= i < pos && i < |mem| ==> mem[i] == was[i])
    && (forall i :: 0 <= i < |text| && i + 1 < size && pos + i < |mem| ==> mem[pos + i] == text[i])
    && (size > 0 && pos + Min(|text|, size - 1) < |mem| ==> mem[pos + Min(|text|, size - 1)] == '\0')
  }

  method Print(buf: Buffer, size: nat, text: string)
    requires buf.Valid()
    modifies buf.data
    ensures buf.Valid() && Printed(old(buf.data[..]), buf.data[..], buf.available, size, text)
  {
    if size > 0 {
      var i := 0;
      while i < |text| && i + 1 < size && buf.available + i < buf.data.Length
        invariant i <= |text| && i + 1 <= size && buf.available + i <= buf.data.Length
        invariant forall k :: 0 <= k < buf.available ==> buf.data[k] == old(buf.data[k])
        invariant forall k :: 0 <= k < i ==> buf.data[buf.available + k] == text[k]
      {
        buf.data[buf.available + i] := text[i];
        i := i + 1;
      }
      if buf.available + i < buf.data.Length {
        buf.data[buf.available + i] := '\0';
      }
    }
  }

  ghost predicate NoNul(s: string) {
    forall i :: 0 <= i < |s| ==> s[i] != '\0'
  }

  /** What a print leaves behind: the text if there is room for its NUL, or else something other. */
  lemma PrintedText(was: string, mem: string, pos: nat, size: nat, text: string)
    requires Printed(was, mem, pos, size, text) && pos + |text| <= |mem| && NoNul(text)
    ensures mem[..pos] == was[..pos]
    ensures |text| < size ==> Content(InBuffer(pos, |text|), mem) == text
    ensures |text| >= size > 0 ==> !NoNul(Content(InBuffer(pos, |text|), mem))
  {
    if |text| >= size > 0 {
      assert mem[pos + size - 1] == '\0';
      assert Content(InBuffer(pos, |text|), mem)[size - 1] == mem[pos + size - 1];
    }
  }

  /** Bytes below `pos` are all that a chunk below `pos` needs. */
  lemma ContentKept(c: Chunk, was: string, mem: string, pos: nat)
    requires c.InBuffer? ==> c.pos + c.len <= pos
    requires pos <= |was| == |mem| && mem[..pos] == was[..pos]
    ensures Content(c, mem) == Content(c, was)
  {
    if c.InBuffer? {
      assert mem[..pos][c.pos..c.pos + c.len] == mem[c.pos..c.pos + c.len];
      assert was[..pos][c.pos..c.pos + c.len] == was[c.pos..c.pos + c.len];
    }
  }

  /** A text with its position in the buffer; refused if it is longer than what remains. */
  method CreateField(buf: Buffer, text: string) returns (ok: bool, chunk: Chunk)
    requires buf.Valid() && text != "" && NoNul(text) && |text| <= INT64_MAX
    modifies buf, buf.data
    ensures buf.Valid()
    ensures buf.data[..old(buf.available)] == old(buf.data[..buf.available])
    ensures ok <==> |text| <= buf.data.Length - old(buf.available)
    ensures ok ==> buf.available == old(buf.available) + |text| && chunk == InBuffer(old(buf.available), |text|)
    ensures ok ==> (Content(chunk, buf.data[..]) == text <==> buf.available < buf.data.Length)
  {
    hide Printed, Content;
    ghost var was := buf.data[..];
    var pos := buf.available;
    var room := buf.data.Length - pos;
    Print(buf, room, text);
    if |text| <= room {
      PrintedText(was, buf.data[..], pos, room, text);
    } else {
      PrintedPrefix(was, buf.data[..], pos, room, text);
    }
    var added := buf.AddData(|text|, true);
    ok, chunk := added == |text|, InBuffer(pos, |text|);
  }

  lemma PrintedPrefix(was: string, mem: string, pos: nat, size: nat, text: string)
    requires Printed(was, mem, pos, size, text) && pos <= |was|
    ensures |mem| == |was| && mem[..pos] == was[..pos]
  {
  }

  function Total(texts: seq<string>): nat {
    if texts == [] then 0 else |texts[0]| + Total(texts[1..])
  }

  ghost predicate Printable(texts: seq<string>) {
    forall i :: 0 <= i < |texts| ==> texts[i] != "" && NoNul(texts[i]) && |texts[i]| <= INT64_MAX
  }

  /** The chunks lie between two positions and have the lengths of the texts. */
  ghost predicate Placed(chunks: seq<Chunk>, texts: seq<string>, from: nat, to: nat) {
    && |chunks| == |texts|
    && forall i :: 0 <= i < |chunks| ==>
         chunks[i].InBuffer? && from <= chunks[i].pos && chunks[i].pos + chunks[i].len <= to && chunks[i].len == |texts[i]|
  }

  /** One text after the other; all of them are held exactly if the last one leaves a byte free. */
  method CreateFields(buf: Buffer, texts: seq<string>) returns (ok: bool, chunks: seq<Chunk>)
    requires buf.Valid() && Printable(texts)
    modifies buf, buf.data
    ensures buf.Valid()
    ensures buf.data[..old(buf.available)] == old(buf.data[..buf.available])
    ensures ok <==> Total(texts) <= buf.data.Length - old(buf.available)
    ensures ok ==> buf.available == old(buf.available) + Total(texts)
    ensures ok ==> Placed(chunks, texts, old(buf.available), buf.available)
    ensures ok && texts != [] ==> (Contents(chunks, buf.data[..]) == texts <==> buf.available < buf.data.Length)
    decreases |texts|
  {
    hide Content, NoNul;
    if texts == [] {
      return true, [];
    }
    var first;
    ok, first := CreateField(buf, texts[0]);
    if !ok {
      return false, [];
    }
    ghost var was := buf.data[..];
    ghost var pos := buf.available;
    var rest;
    ok, rest := CreateFields(buf, texts[1..]);
    chunks := [first] + rest;
    if ok {
      assert was[..pos] == buf.data[..pos] == buf.data[..][..pos];
      ContentKept(first, was, buf.data[..], pos);
      ContentsFirst(first, rest, texts, buf.data[..]);
      PlacedFirst(first, rest, texts, old(buf.available), pos, buf.available);
    }
  }

  lemma ContentsFirst(first: Chunk, rest: seq<Chunk>, texts: seq<string>, mem: string)
    requires texts != []
    ensures Contents([first] + rest, mem) == texts <==> Content(first, mem) == texts[0] && Contents(rest, mem) == texts[1..]
  {
    hide Content;
    var all := Contents([first] + rest, mem);
    assert all == [Content(first, mem)] + Contents(rest, mem);
    assert all[0] == Content(first, mem) && all[1..] == Contents(rest, mem);
    assert texts == [texts[0]] + texts[1..];
  }

  lemma PlacedFirst(first: Chunk, rest: seq<Chunk>, texts: seq<string>, from: nat, mid: nat, to: nat)
    requires texts != [] && from <= mid <= to
    requires first.InBuffer? && from <= first.pos && first.pos + first.len <= mid && first.len == |texts[0]|
    requires Placed(rest, texts[1..], mid, to)
    ensures Placed([first] + rest, texts, from, to)
  {
  }
}
