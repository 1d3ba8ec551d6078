/** The data adapter that stores every value in two halves, under two keys. */
module HelloAdapter {
  import opened Resp

  /** A request of the user: a key, and one stretch of memory. */
  datatype Input = Input(key: string, base: nat, len: nat)

  /** A request that the adapter makes of it; `size` is what the value turned out to have. */
  datatype Part = Part(key: string, base: nat, len: nat, size: nat)

  function Half(r: Input, i: nat): Part
    requires i < 2
  {
    var len := r.len / 2 + i * (r.len % 2);
    Part(r.key + Decimal(i), r.base + i * r.len / 2, len, len)
  }

  /** The chain of two requests for each request; writing and reading split alike. */
  method Split(inputs: seq<Input>) returns (parts: seq<Part>)
    ensures |parts| == 2 * |inputs|
    ensures forall k :: 0 <= k < |inputs| ==> parts[2 * k] == Half(inputs[k], 0) && parts[2 * k + 1] == Half(inputs[k], 1)
  {
    hide Half;
    parts := [];
    var k, i := 0, 0;
    while k < |inputs|
      invariant 0 <= k <= |inputs| && 0 <= i < 2 && |parts| == 2 * k + i && (i == 1 ==> k < |inputs|)
      invariant forall j :: 0 <= j < k ==> parts[2 * j] == Half(inputs[j], 0) && parts[2 * j + 1] == Half(inputs[j], 1)
      invariant i == 1 ==> parts[2 * k] == Half(inputs[k], 0)
      decreases |inputs| - k, 2 - i
    {
      parts := parts + [Half(inputs[k], i)];
      if i == 1 {
        k := k + 1;
      }
      i := (i + 1) % 2;
    }
  }

  /** The halves cover the memory without a gap; the second one takes the odd byte. */
  lemma HalvesCover(r: Input)
    ensures Half(r, 0).base == r.base && Half(r, 1).base == r.base + Half(r, 0).len
    ensures Half(r, 0).len + Half(r, 1).len == r.len
    ensures Half(r, 0).len <= Half(r, 1).len <= Half(r, 0).len + 1
  {
  }

  // ---------- putting what was read together ----------

  /** Parts that follow each other in memory from `at` on, none with more data than room. */
  ghost predicate Following(parts: seq<Part>, at: nat) {
    parts == [] || (parts[0].base == at && parts[0].size <= parts[0].len && Following(parts[1..], at + parts[0].len))
  }

  function Room(parts: seq<Part>): nat {
    if parts == [] then 0 else parts[0].len + Room(parts[1..])
  }

  function Sizes(parts: seq<Part>): nat {
    if parts == [] then 0 else parts[0].size + Sizes(parts[1..])
  }

  /** The data that the parts hold in a memory. */
  function Data(mem: string, parts: seq<Part>): string {
    if parts == [] then ""
    else (if parts[0].base + parts[0].size <= |mem| then mem[parts[0].base..parts[0].base + parts[0].size] else "") + Data(mem, parts[1..])
  }

  /** A memory after the first i bytes of a move. */
  function Moved(was: string, to: nat, from: nat, i: nat): string
    requires to <= from && from + i <= |was|
  {
    was[..to] + was[from..from + i] + was[to + i..]
  }

  lemma MovedStep(was: string, to: nat, from: nat, i: nat)
    requires to <= from && from + i < |was|
    ensures var m := Moved(was, to, from, i); m[from + i] == was[from + i] && m[to + i := was[from + i]] == Moved(was, to, from, i + 1)
  {
    assert was[from..from + i + 1] == was[from..from + i] + [was[from + i]];
    assert was[to + i..] == [was[to + i]] + was[to + i + 1..];
  }

  /** memmove inside the buffer, to a place that is not behind the source. */
  method MoveDown(buf: array<char>, to: nat, from: nat, n: nat)
    requires to <= from && from + n <= buf.Length
    modifies buf
    ensures buf[..] == Moved(old(buf[..]), to, from, n)
  {
    hide Moved;
    ghost var was := buf[..];
    var i := 0;
    NotMoved(was, to, from);
    while i < n
      invariant 0 <= i <= n && buf[..] == Moved(was, to, from, i)
    {
      MovedStep(was, to, from, i);
      ghost var m := buf[..];
      assert buf[from + i] == m[from + i];
      buf[to + i] := buf[from + i];
      assert buf[..] == m[to + i := m[from + i]];
      i := i + 1;
    }
  }

  lemma NotMoved(was: string, to: nat, from: nat)
    requires to <= from <= |was|
    ensures Moved(was, to, from, 0) == was
  {
  }

  /** One part joins what is there already. */
  method TakePart(buf: array<char>, size: nat, shift: nat, p: Part)
    requires size + shift == p.base && p.size <= p.len && p.base + p.len <= buf.Length
    modifies buf
    ensures buf[..size + p.size] == old(buf[..size] + buf[p.base..p.base + p.size])
    ensures buf[p.base + p.len..] == old(buf[p.base + p.len..])
  {
    ghost var was := buf[..];
    var end := p.base + p.len;
    if shift > 0 {
      MoveDown(buf, size, p.base, p.size);
      assert buf[..size + p.size] == buf[..][..size + p.size] == was[..size] + was[p.base..p.base + p.size];
      assert buf[end..] == buf[..][end..] == was[end..];
    } else {
      assert buf[..size + p.size] == buf[..size] + buf[p.base..p.base + p.size];
    }
  }

  /** Parts that came back shorter than their room are moved together; the buffer then holds the data in one piece. */
  method PostRead(buf: array<char>, parts: seq<Part>) returns (size: nat)
    requires Following(parts, 0) && Room(parts) <= buf.Length
    modifies buf
    ensures size == Sizes(parts) <= buf.Length && buf[..size] == Data(old(buf[..]), parts)
  {
    hide Joined, Sizes, Room, Following, Data;
    var shift: nat := 0;
    size := 0;
    var i := 0;
    ghost var was, at: nat := buf[..], 0;
    JoinStart(was, parts);
    while i < |parts|
      invariant 0 <= i <= |parts| && size + shift == at && Joined(buf[..], was, parts, i, size, at)
    {
      var p := parts[i];
      JoinBounds(buf[..], was, parts, i, size, at);
      ghost var now := buf[..];
      TakePart(buf, size, shift, p);
      assert buf[..][..size + p.size] == now[..size] + now[p.base..p.base + p.size];
      assert buf[..][p.base + p.len..] == now[p.base + p.len..];
      JoinStep(now, buf[..], was, parts, i, size, at);
      size := size + p.size;
      if p.size != p.len {
        shift := shift + (p.len - p.size);
      }
      at := at + p.len;
      i := i + 1;
    }
    JoinEnd(buf[..], was, parts, size, at);
  }

  /** The first i parts are together in the first `size` bytes; from `at` on, the memory is as it was. */
  ghost predicate Joined(now: string, was: string, parts: seq<Part>, i: nat, size: nat, at: nat) {
    && i <= |parts| && size <= at <= |now| == |was|
    && Following(parts[i..], at) && at + Room(parts[i..]) <= |was|
    && size + Sizes(parts[i..]) == Sizes(parts)
    && now[..size] + Data(was, parts[i..]) == Data(was, parts)
    && now[at..] == was[at..]
  }

  lemma JoinStart(was: string, parts: seq<Part>)
    requires Following(parts, 0) && Room(parts) <= |was|
    ensures Joined(was, was, parts, 0, 0, 0)
  {
    hide Following, Room, Sizes, Data;
    assert parts[0..] == parts && was[..0] == "";
    assert "" + Data(was, parts) == Data(was, parts);
  }

  lemma JoinBounds(now: string, was: string, parts: seq<Part>, i: nat, size: nat, at: nat)
    requires Joined(now, was, parts, i, size, at) && i < |parts|
    ensures parts[i].base == at && parts[i].size <= parts[i].len && at + parts[i].len <= |now|
  {
    Unfold(was, parts, i, at);
  }

  lemma JoinStep(now: string, next: string, was: string, parts: seq<Part>, i: nat, size: nat, at: nat)
    requires Joined(now, was, parts, i, size, at) && i < |parts| && |next| == |now|
    requires var p := parts[i];
      && p.base == at && p.size <= p.len && at + p.len <= |now|
      && next[..size + p.size] == now[..size] + now[p.base..p.base + p.size] && next[p.base + p.len..] == now[p.base + p.len..]
    ensures Joined(next, was, parts, i + 1, size + parts[i].size, at + parts[i].len)
  {
    hide Following, Room, Sizes, Data;
    var p := parts[i];
    Unfold(was, parts, i, at);
    Tails(now, was, at, p);
    Associative(now[..size], was[at..at + p.size], Data(was, parts[i + 1..]));
  }

  lemma JoinEnd(now: string, was: string, parts: seq<Part>, size: nat, at: nat)
    requires Joined(now, was, parts, |parts|, size, at)
    ensures size == Sizes(parts) <= |now| && now[..size] == Data(was, parts)
  {
    NoParts(was);
    assert parts[|parts|..] == [];
    assert now[..size] + "" == now[..size];
  }

  lemma Associative(a: string, b: string, c: string)
    ensures a + (b + c) == (a + b) + c
  {
  }

  lemma NoParts(mem: string)
    ensures Data(mem, []) == "" && Sizes([]) == 0
  {
  }

  lemma Unfold(mem: string, parts: seq<Part>, i: nat, at: nat)
    requires i < |parts| && Following(parts[i..], at) && at + Room(parts[i..]) <= |mem|
    ensures var p := parts[i];
      && p.base == at && p.size <= p.len && at + p.len <= |mem|
      && Following(parts[i + 1..], at + p.len) && Room(parts[i..]) == p.len + Room(parts[i + 1..])
      && Sizes(parts[i..]) == p.size + Sizes(parts[i + 1..])
      && Data(mem, parts[i..]) == mem[at..at + p.size] + Data(mem, parts[i + 1..])
  {
    assert parts[i..][1..] == parts[i + 1..];
  }

  lemma Tails(buf: string, was: string, at: nat, p: Part)
    requires at <= |buf| == |was| && buf[at..] == was[at..] && p.base == at && p.size <= p.len && at + p.len <= |buf|
    ensures buf[p.base..p.base + p.size] == was[at..at + p.size] && buf[p.base + p.len..] == was[at + p.len..]
  {
    assert buf[at..][..p.size] == buf[at..at + p.size] && was[at..][..p.size] == was[at..at + p.size];
    assert buf[at..][p.len..] == buf[at + p.len..] && was[at..][p.len..] == was[at + p.len..];
  }

  // ---------- a value that is written and read ----------

  /** A get: the value goes to the memory of the part, and its size is reported. */
  method Fetch(buf: array<char>, p: Part, value: string) returns (read: Part)
    requires |value| <= p.len && p.base + p.len <= buf.Length
    modifies buf
    ensures read == p.(size := |value|)
    ensures forall d :: 0 <= d < buf.Length ==> buf[d] == if p.base <= d < p.base + |value| then value[d - p.base] else old(buf[d])
  {
    var i := 0;
    ghost var was := buf[..];
    while i < |value|
      invariant 0 <= i <= |value|
      invariant forall d :: 0 <= d < buf.Length ==> buf[d] == if p.base <= d < p.base + i then value[d - p.base] else was[d]
    {
      buf[p.base + i] := value[i];
      i := i + 1;
    }
    read := p.(size := |value|);
  }

  /**
    A value written through the adapter and read into a buffer that is long enough comes back whole,
    with its own size, whether either length is even or odd.
   */
  method WriteAndRead(key: string, value: string, buf: array<char>) returns (size: nat)
    requires |value| <= buf.Length
    modifies buf
    ensures size == |value| && buf[..size] == value
  {
    hide Half, Following, Room, Sizes, Data;
    var w, r := Input(key, 0, |value|), Input(key, 0, buf.Length);
    HalvesCover(w);
    HalvesCover(r);
    var written := Split([w]);
    var parts := Split([r]);
    assert written[2 * 0] == Half(w, 0) && written[2 * 0 + 1] == Half(w, 1);
    assert parts[2 * 0] == Half(r, 0) && parts[2 * 0 + 1] == Half(r, 1);
    HalvesFit(w, r);
    var n := written[0].len;
    var left, right := value[..n], value[n..];
    var first, second := FetchBoth(buf, parts[0], parts[1], left, right);
    size := PostRead(buf, [first, second]);
    assert value == left + right;
  }

  method FetchBoth(buf: array<char>, p: Part, q: Part, left: string, right: string) returns (first: Part, second: Part)
    requires p.base == 0 && q.base == p.len && |left| <= p.len && |right| <= q.len && p.len + q.len == buf.Length
    modifies buf
    ensures Following([first, second], 0) && Room([first, second]) == buf.Length && Sizes([first, second]) == |left| + |right|
    ensures Data(buf[..], [first, second]) == left + right
  {
    hide Following, Room, Sizes, Data;
    first := Fetch(buf, p, left);
    ghost var between := buf[..];
    second := Fetch(buf, q, right);
    assert buf[..|left|] == left by {
      assert forall d :: 0 <= d < |left| ==> buf[d] == between[d] == left[d];
    }
    assert buf[q.base..q.base + |right|] == right;
    ReadParts(buf[..], first, second, left, right);
  }

  /** A longer stretch of memory has longer halves. */
  lemma HalvesFit(w: Input, r: Input)
    requires w.len <= r.len
    ensures Half(w, 0).len <= Half(r, 0).len && w.len - Half(w, 0).len <= Half(r, 1).len
  {
  }

  lemma ReadParts(mem: string, p: Part, q: Part, v: string, w: string)
    requires p.base == 0 && q.base == p.len && p.size == |v| <= p.len && q.size == |w| <= q.len && p.len + q.len == |mem|
    requires mem[..|v|] == v && mem[q.base..q.base + |w|] == w
    ensures Following([p, q], 0) && Room([p, q]) == |mem| && Sizes([p, q]) == |v| + |w| && Data(mem, [p, q]) == v + w
  {
    OnePart(mem, q);
    assert [p, q][1..] == [q];
    assert mem[p.base..p.base + p.size] == mem[..|v|];
    assert Data(mem, [p, q]) == mem[p.base..p.base + p.size] + Data(mem, [q]);
  }

  lemma OnePart(mem: string, q: Part)
    requires q.size <= q.len && q.base + q.len <= |mem|
    ensures Following([q], q.base) && Room([q]) == q.len && Sizes([q]) == q.size && Data(mem, [q]) == mem[q.base..q.base + q.size]
  {
    var rest := [q][1..];
    assert rest == [];
    assert Following(rest, q.base + q.len) && Room(rest) == 0 && Sizes(rest) == 0 && Data(mem, rest) == "";
    assert mem[q.base..q.base + q.size] + "" == mem[q.base..q.base + q.size];
  }
}
