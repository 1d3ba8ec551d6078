/**
  Sending and receiving a scatter/gather list in short transfers.
  A list stands for the addresses of its bytes, in order: sending reads them, receiving writes them.
 */
module SgeTransfer {
  import opened Definitions

  datatype Sge = Sge(base: nat, len: nat)

  function Addresses(e: Sge): (a: seq<nat>)
    ensures |a| == e.len
  {
    seq(e.len, i requires 0 <= i => e.base + i)
  }

  function Region(es: seq<Sge>): seq<nat> {
    if es == [] then [] else Addresses(es[0]) + Region(es[1..])
  }

  lemma {:induction false} RegionAppend(a: seq<Sge>, b: seq<Sge>)
    ensures Region(a + b) == Region(a) + Region(b)
    decreases |a|
  {
    if a == [] {
      assert a + b == b;
    } else {
      assert (a + b)[1..] == a[1..] + b;
      RegionAppend(a[1..], b);
    }
  }

  lemma {:induction false} RegionEmpty(es: seq<Sge>)
    requires forall i :: 0 <= i < |es| ==> es[i].len == 0
    ensures Region(es) == []
    decreases |es|
  {
    if es != [] {
      RegionEmpty(es[1..]);
    }
  }

  /** The total length, counted from the last entry. */
  method GetLen(es: seq<Sge>) returns (len: nat)
    ensures len == |Region(es)|
  {
    len := 0;
    var i := |es|;
    while i > 0
      invariant 0 <= i <= |es| && len == |Region(es[i..])|
    {
      i := i - 1;
      assert es[i..][1..] == es[i + 1..];
      len := len + es[i].len;
    }
    assert es[0..] == es;
  }

  /** What a transfer call answers: bytes moved, not now, or an error. */
  datatype Answer = Moved(n: nat) | Again | Failed

  function Min(a: nat, b: nat): nat {
    if a < b then a else b
  }

  /** The answers take a whole list of this length, each at most what is left, before one of them fails. */
  predicate Completes(answers: seq<Answer>, left: int)
    decreases |answers|
  {
    if answers == [] || answers[0].Failed? then false
    else
      var m := if answers[0].Moved? then answers[0].n else 0;
      m >= left || Completes(answers[1..], left - m)
  }

  /** The entries that remain when n bytes have been taken off the front: used-up entries are gone, one may be shortened. */
  function Shrunk(es: seq<Sge>, n: nat): (rest: seq<Sge>)
    ensures |rest| <= |es|
    decreases |es|
  {
    if es == [] || n == 0 then es
    else if n < es[0].len then [Sge(es[0].base + n, es[0].len - n)] + es[1..]
    else Shrunk(es[1..], n - es[0].len)
  }

  lemma {:induction false} ShrunkRegion(es: seq<Sge>, n: nat)
    requires n <= |Region(es)|
    ensures Region(Shrunk(es, n)) == Region(es)[n..]
    decreases |es|
  {
    hide Region;
    if es == [] || n == 0 {
      NoEntries(es);
    } else if n < es[0].len {
      Reduce(es, n);
    } else {
      DropFirst(es, n);
      ShrunkRegion(es[1..], n - es[0].len);
    }
  }

  function Copies(e: Sge, n: nat): (es: seq<Sge>)
    ensures |es| == n && forall i :: 0 <= i < n ==> es[i] == e
  {
    seq(n, i => e)
  }

  /** What the socket is offered: what remains, and for each entry that is used up a copy of what lay behind the list. */
  function Offered(rest: seq<Sge>, freed: nat, behind: Sge): seq<nat> {
    Region(rest) + Region(Copies(behind, freed))
  }

  function Taken(a: Answer, offered: nat): nat {
    if a.Moved? then Min(a.n, offered) else 0
  }

  /** The addresses that are sent, in order, when `left` bytes are still wanted. */
  function SentBy(rest: seq<Sge>, freed: nat, behind: Sge, left: int, answers: seq<Answer>): seq<nat>
    decreases |answers|
  {
    if answers == [] || answers[0].Failed? then [] else
    var offered := Offered(rest, freed, behind);
    var m := Taken(answers[0], |offered|);
    if m >= left then offered[..m]
    else
      var rest' := Shrunk(rest, m);
      offered[..m] + SentBy(rest', freed + |rest| - |rest'|, behind, left - m, answers[1..])
  }

  class SgeBuffer {
    const cmd: array<Sge>
    const beyond: Sge      // what lies in memory behind the array
    var index: nat

    ghost predicate Valid()
      reads this
    {
      index <= cmd.Length == MAX_SGE
    }

    constructor (behind: Sge)
      ensures Valid() && index == 0 && beyond == behind && fresh(cmd)
      ensures forall i :: 0 <= i < MAX_SGE ==> cmd[i].len == 0
    {
      cmd := new Sge[MAX_SGE](i => Sge(0, 0));
      beyond, index := behind, 0;
    }

    ghost function At(i: nat): Sge
      reads cmd
    {
      if i < cmd.Length then cmd[i] else beyond
    }

    /** memmove( cmd, &cmd[1], count ): also the entry behind the last one moves down. */
    method ShiftDown()
      requires Valid() && index > 0
      modifies cmd
      ensures forall i :: 0 <= i < MAX_SGE ==> cmd[i] == if i < index then old(At(i + 1)) else old(cmd[i])
    {
      var i := 0;
      while i < index
        invariant 0 <= i <= index
        invariant forall j :: 0 <= j < MAX_SGE ==> cmd[j] == if j < i then old(At(j + 1)) else old(cmd[j])
      {
        cmd[i] := if i + 1 < cmd.Length then cmd[i + 1] else beyond;
        i := i + 1;
      }
    }

    method DropEntry()
      requires Valid() && index > 0
      modifies this`index, cmd
      ensures Valid() && index == old(index) - 1 && cmd[..index] == old(cmd[1..index])
      ensures At(index) == old(At(index))
      ensures forall i :: old(index) <= i < MAX_SGE ==> cmd[i] == old(cmd[i])
    {
      ShiftDown();
      assert forall i :: 0 <= i < index - 1 ==> cmd[i] == old(cmd[1..index])[i];
      index := index - 1;
    }

    /** One turn of the loop: the first entry is shortened, or it is dropped. */
    method TakeFirst(offset: nat) returns (rest: nat)
      requires Valid() && index > 0 && 0 < offset <= |Region(cmd[..index])|
      modifies this`index, cmd
      ensures Valid() && (index == old(index) - 1 || (index == old(index) && rest == 0))
      ensures rest <= |Region(cmd[..index])| && Shrunk(cmd[..index], rest) == Shrunk(old(cmd[..index]), offset)
      ensures At(index) == old(At(index))
      ensures forall i :: old(index) <= i < MAX_SGE ==> cmd[i] == old(cmd[i])
    {
      hide Region;
      ghost var es := cmd[..index];
      if offset < cmd[0].len {
        cmd[0] := Sge(cmd[0].base + offset, cmd[0].len - offset);
        assert cmd[..index] == [cmd[0]] + es[1..];
        rest := 0;
      } else {
        DropFirst(es, offset);
        rest := offset - cmd[0].len;
        assert es[1..] == cmd[1..index];
        DropEntry();
      }
    }

    /**
      Taking n transferred bytes off the front: what remains is the old region without its first n
      bytes. The places that become free hold what was behind the list.
     */
    method Shrink(n: nat)
      requires Valid() && n <= |Region(cmd[..index])|
      modifies this`index, cmd
      ensures Valid() && index <= old(index)
      ensures cmd[..index] == Shrunk(old(cmd[..index]), n)
      ensures Region(cmd[..index]) == old(Region(cmd[..index]))[n..]
      ensures forall i :: index <= i < old(index) ==> cmd[i] == old(At(index))
      ensures forall i :: old(index) <= i < MAX_SGE ==> cmd[i] == old(cmd[i])
      ensures At(index) == old(At(index))
    {
      hide Region, Shrunk;
      var offset: nat := n;
      ghost var count, last, es := index, At(index), cmd[..index];
      ShrunkRegion(es, n);
      while index > 0 && offset > 0
        invariant Valid() && index <= count && offset <= |Region(cmd[..index])|
        invariant Shrunk(cmd[..index], offset) == Shrunk(es, n)
        invariant forall i :: index <= i < count ==> cmd[i] == last
        invariant forall i :: count <= i < MAX_SGE ==> cmd[i] == old(cmd[i])
        invariant At(index) == last
        decreases index, offset
      {
        offset := TakeFirst(offset);
      }
      NothingToTake(cmd[..index], offset);
    }

    method Reset()
      requires Valid()
      modifies this`index, cmd
      ensures Valid() && index == 0 && forall i :: 0 <= i < MAX_SGE ==> cmd[i].len == 0
    {
      forall i | 0 <= i < MAX_SGE {
        cmd[i] := Sge(0, 0);
      }
      index := 0;
    }

    /** The entries up to `count` are what remains and copies of what lay behind the list. */
    ghost predicate Offers(count: nat, behind: Sge)
      reads this, cmd
    {
      && Valid() && index <= count <= MAX_SGE && At(index) == behind
      && forall i :: index <= i < count ==> cmd[i] == behind
    }

    lemma OfferedRegion(count: nat, behind: Sge)
      requires Offers(count, behind)
      ensures Region(cmd[..count]) == Offered(cmd[..index], count - index, behind)
    {
      hide Region;
      assert cmd[..count] == cmd[..index] + cmd[index..count];
      RegionAppend(cmd[..index], cmd[index..count]);
      assert cmd[index..count] == Copies(behind, count - index);
    }

    method ShrinkOffers(ghost count: nat, ghost behind: Sge, m: nat)
      requires Offers(count, behind) && m <= |Region(cmd[..index])|
      modifies this`index, cmd
      ensures Offers(count, behind) && index <= old(index) && cmd[..index] == Shrunk(old(cmd[..index]), m)
      ensures Region(cmd[..index]) == old(Region(cmd[..index]))[m..]
    {
      hide Region, Shrunk;
      Shrink(m);
    }

    /**
      Sending until the length of the list is reached, as far as the answers go. Each answer takes some
      of what is offered, or nothing. The list goes out first; whether more follows depends on what
      lies behind it.
     */
    method Send(answers: seq<Answer>) returns (rc: int, sent: seq<nat>, complete: bool)
      requires Valid()
      modifies this`index, cmd
      ensures Valid()
      ensures sent == SentBy(old(cmd[..index]), 0, old(At(index)), |old(Region(cmd[..index]))|, answers)
      ensures if complete then old(Region(cmd[..index])) <= sent && rc == |sent| && index == 0 else sent <= old(Region(cmd[..index]))
      ensures !complete && rc != 0 ==> rc == -1 && exists i :: 0 <= i < |answers| && answers[i].Failed?
      ensures complete <==> Completes(answers, |old(Region(cmd[..index]))|) || old(index) == 0
    {
      hide Region, Offers, SentBy, Shrunk, Completes, Offered, Progress;
      rc, sent, complete := 0, [], false;
      ghost var behind, es := At(index), cmd[..index];
      if index == 0 {
        NothingSent(es, behind, answers);
        return 0, [], true;
      }
      var count := index;
      var total := GetLen(cmd[..index]);
      StartsOffering();
      Begins(es, behind, answers);
      var ssize, j := 0, 0;
      while j < |answers|
        invariant 0 <= j <= |answers| && ssize == |sent| <= total == |Region(es)|
        invariant Valid() && index <= count <= MAX_SGE && Offers(count, behind)
        invariant Progress(cmd[..index], count - index, behind, es, answers, j, sent)
      {
        ghost var rest, freed := cmd[..index], count - index;
        if answers[j].Failed? {
          Stops(rest, freed, behind, es, answers, j, sent);
          Reset();
          return -1, sent, false;
        }
        OfferedRegion(count, behind);
        var offered := Region(cmd[..count]);
        var m := Taken(answers[j], |offered|);
        Advances(rest, freed, behind, es, answers, j, sent);
        sent := sent + offered[..m];
        if m > 0 && m + ssize < total {
          ShrinkOffers(count, behind, m);
        } else if m == 0 {
          NothingToTake(rest, m);
        }
        ssize := ssize + m;
        if ssize >= total {
          Reset();
          return ssize, sent, true;
        }
        j := j + 1;
      }
      Stops(cmd[..index], count - index, behind, es, answers, j, sent);
    }

    /**
      Receiving at least `need` bytes, as far as the answers go. The k-th byte that arrives is written
      to the k-th address of the list, however the bytes are cut.
     */
    method Receive(need: nat, answers: seq<Answer>) returns (rc: int, written: seq<nat>, complete: bool)
      requires Valid() && need > 0
      modifies this`index, cmd
      ensures Valid() && written <= old(Region(cmd[..index]))
      ensures |old(Region(cmd[..index]))| < need ==> rc == 0 - ENOSPC && written == [] && !complete
      ensures complete ==> |written| >= need && rc == |written|
      ensures complete <==> Completes(answers, need) && |old(Region(cmd[..index]))| >= need
    {
      hide Region;
      rc, written, complete := 0, [], false;
      ghost var whole := Region(cmd[..index]);
      var space := GetLen(cmd[..index]);
      if space < need {
        return 0 - ENOSPC, [], false;
      }
      assert whole[0..] == whole && whole[..0] == [] && answers[0..] == answers;
      var rsize, j := 0, 0;
      while j < |answers|
        invariant 0 <= j <= |answers| && rsize == |written| < need <= |whole| && written == whole[..rsize]
        invariant Valid() && Region(cmd[..index]) == whole[rsize..]
        invariant Completes(answers[j..], need - rsize) <==> Completes(answers, need)
      {
        assert answers[j..][0] == answers[j] && answers[j..][1..] == answers[j + 1..];
        if answers[j].Failed? {
          return -1, written, false;
        }
        var offered := Region(cmd[..index]);
        var m := if answers[j].Moved? then Min(answers[j].n, |offered|) else 0;
        written := written + offered[..m];
        assert written == whole[..rsize + m];
        if m > 0 && m + rsize < need {
          assert whole[rsize..][m..] == whole[rsize + m..];
          Shrink(m);
        }
        rsize := rsize + m;
        if rsize >= need {
          return rsize, written, true;
        }
        j := j + 1;
      }
      assert written <= whole;
    }

    lemma StartsOffering()
      requires Valid()
      ensures Offers(index, At(index))
    {
    }
  }

  lemma NoEntries(es: seq<Sge>)
    ensures es == [] ==> Region(es) == []
  {
  }

  lemma Reduce(es: seq<Sge>, n: nat)
    requires es != [] && n < es[0].len
    ensures Region([Sge(es[0].base + n, es[0].len - n)] + es[1..]) == Region(es)[n..]
  {
    var head := Sge(es[0].base + n, es[0].len - n);
    var t := [head] + es[1..];
    assert t[1..] == es[1..];
    assert Region(t) == Addresses(head) + Region(es[1..]);
    assert Addresses(head) == Addresses(es[0])[n..];
  }

  lemma DropFirst(es: seq<Sge>, n: nat)
    requires es != [] && es[0].len <= n <= |Region(es)|
    ensures n - es[0].len <= |Region(es[1..])|
    ensures Region(es[1..])[n - es[0].len..] == Region(es)[n..]
  {
  }

  lemma NothingToTake(es: seq<Sge>, n: nat)
    requires es == [] || n == 0
    ensures Shrunk(es, n) == es
  {
  }

  lemma NothingSent(es: seq<Sge>, behind: Sge, answers: seq<Answer>)
    requires es == []
    ensures Region(es) == [] && SentBy(es, 0, behind, 0, answers) == []
  {
    assert Offered(es, 0, behind) == [];
  }

  lemma SentNext(rest: seq<Sge>, freed: nat, behind: Sge, left: int, answers: seq<Answer>)
    requires answers != []
    ensures SentBy(rest, freed, behind, left, answers) ==
      if answers[0].Failed? then [] else
      var offered := Offered(rest, freed, behind);
      var m := Taken(answers[0], |offered|);
      if m >= left then offered[..m]
      else offered[..m] + SentBy(Shrunk(rest, m), freed + |rest| - |Shrunk(rest, m)|, behind, left - m, answers[1..])
  {
  }

  lemma CompletesNext(answers: seq<Answer>, left: int, offered: nat)
    requires answers != [] && left <= offered
    ensures Taken(answers[0], offered) <= offered
    ensures Completes(answers, left)
      <==> (!answers[0].Failed? && (Taken(answers[0], offered) >= left || Completes(answers[1..], left - Taken(answers[0], offered))))
  {
  }

  lemma Regroup(a: seq<nat>, b: seq<nat>, c: seq<nat>)
    ensures a + (b + c) == (a + b) + c && a + [] == a
  {
  }

  lemma PrefixOf(whole: seq<nat>, n: nat)
    requires n <= |whole|
    ensures whole[..n] <= whole && whole[..n] + [] == whole[..n]
  {
  }

  /** What is offered begins with what is left of the list. */
  lemma OfferedFirst(rest: seq<Sge>, freed: nat, behind: Sge, whole: seq<nat>, done: nat, m: nat)
    requires done <= |whole| && Region(rest) == whole[done..] && m <= |Offered(rest, freed, behind)|
    ensures |Offered(rest, freed, behind)| >= |whole| - done
    ensures var part := Offered(rest, freed, behind)[..m];
      && (done + m <= |whole| ==> whole[..done] + part == whole[..done + m] && whole[done..][m..] == whole[done + m..])
      && (done + m >= |whole| ==> whole <= whole[..done] + part)
  {
    hide Region;
  }

  /** So far the list was sent as far as it went, and what remains is sent from here on. */
  ghost predicate Progress(rest: seq<Sge>, freed: nat, behind: Sge, es: seq<Sge>, answers: seq<Answer>, j: nat, sent: seq<nat>) {
    var whole := Region(es);
    && j <= |answers| && |sent| <= |whole| && sent == whole[..|sent|] && Region(rest) == whole[|sent|..]
    && sent + SentBy(rest, freed, behind, |whole| - |sent|, answers[j..]) == SentBy(es, 0, behind, |whole|, answers)
    && (Completes(answers[j..], |whole| - |sent|) <==> Completes(answers, |whole|))
  }

  lemma Begins(es: seq<Sge>, behind: Sge, answers: seq<Answer>)
    ensures Progress(es, 0, behind, es, answers, 0, [])
  {
    hide Region, SentBy, Completes;
    var whole := Region(es);
    assert answers[0..] == answers && whole[0..] == whole && whole[..0] == [];
  }

  lemma Stops(rest: seq<Sge>, freed: nat, behind: Sge, es: seq<Sge>, answers: seq<Answer>, j: nat, sent: seq<nat>)
    requires Progress(rest, freed, behind, es, answers, j, sent) && (j == |answers| || answers[j].Failed?)
    ensures sent == SentBy(es, 0, behind, |Region(es)|, answers) && sent <= Region(es) && !Completes(answers, |Region(es)|)
  {
    hide Region, Offered, Shrunk;
    PrefixOf(Region(es), |sent|);
  }

  lemma Advances(rest: seq<Sge>, freed: nat, behind: Sge, es: seq<Sge>, answers: seq<Answer>, j: nat, sent: seq<nat>)
    requires Progress(rest, freed, behind, es, answers, j, sent) && j < |answers| && !answers[j].Failed?
    ensures var offered, whole := Offered(rest, freed, behind), Region(es);
      var m := Taken(answers[j], |offered|);
      var more := sent + offered[..m];
      if |more| >= |whole| then more == SentBy(es, 0, behind, |whole|, answers) && whole <= more && Completes(answers, |whole|)
      else
        && m <= |Region(rest)| && |Shrunk(rest, m)| <= |rest|
        && Progress(Shrunk(rest, m), freed + |rest| - |Shrunk(rest, m)|, behind, es, answers, j + 1, more)
  {
    hide Region, Offered, Shrunk, SentBy, Completes;
    var offered, whole := Offered(rest, freed, behind), Region(es);
    var left := |whole| - |sent|;
    assert answers[j..][0] == answers[j] && answers[j..][1..] == answers[j + 1..];
    OfferedFirst(rest, freed, behind, whole, |sent|, 0);
    CompletesNext(answers[j..], left, |offered|);
    SentNext(rest, freed, behind, left, answers[j..]);
    var m := Taken(answers[j], |offered|);
    OfferedFirst(rest, freed, behind, whole, |sent|, m);
    if m < left {
      ShrunkRegion(rest, m);
      Regroup(sent, offered[..m], SentBy(Shrunk(rest, m), freed + |rest| - |Shrunk(rest, m)|, behind, left - m, answers[j + 1..]));
    }
  }

  // ---------- when just the list is sent ----------

  /** Nothing is offered beyond what remains: nothing has been used up, or there is nothing behind. */
  lemma OfferedIff(rest: seq<Sge>, freed: nat, behind: Sge)
    ensures Offered(rest, freed, behind) == Region(rest) <==> freed == 0 || behind.len == 0
  {
    if freed == 0 || behind.len == 0 {
      RegionEmpty(Copies(behind, freed));
    } else {
      assert |Region(Copies(behind, freed))| >= behind.len;
    }
  }

  lemma {:induction false} SentOfEmpty(rest: seq<Sge>, freed: nat, behind: Sge, answers: seq<Answer>)
    requires behind.len == 0
    ensures SentBy(rest, freed, behind, |Region(rest)|, answers) <= Region(rest)
    decreases |answers|
  {
    hide Region, Shrunk;
    OfferedIff(rest, freed, behind);
    if answers != [] && !answers[0].Failed? {
      var region := Region(rest);
      var m := Taken(answers[0], |region|);
      if m < |region| {
        ShrunkRegion(rest, m);
        SentOfEmpty(Shrunk(rest, m), freed + |rest| - |Shrunk(rest, m)|, behind, answers[1..]);
        assert region == region[..m] + region[m..];
      }
    }
  }

  /** As long as the first entry is all that is left, or a single byte, no entry is used up before the end. */
  predicate OneEntry(es: seq<Sge>) {
    es == [] || es[0].len == |Region(es)| || |Region(es)| <= 1
  }

  lemma OneEntryShrunk(es: seq<Sge>, m: nat)
    requires OneEntry(es) && m < |Region(es)|
    ensures |Shrunk(es, m)| == |es| && OneEntry(Shrunk(es, m))
  {
    hide Region;
    ShrunkRegion(es, m);
    NoEntries(es);
  }

  lemma {:induction false} SentOfOne(rest: seq<Sge>, behind: Sge, answers: seq<Answer>)
    requires OneEntry(rest)
    ensures SentBy(rest, 0, behind, |Region(rest)|, answers) <= Region(rest)
    decreases |answers|
  {
    hide Region, Shrunk, OneEntry;
    OfferedIff(rest, 0, behind);
    if answers != [] && !answers[0].Failed? {
      var region := Region(rest);
      var m := Taken(answers[0], |region|);
      if m < |region| {
        OneEntryShrunk(rest, m);
        ShrunkRegion(rest, m);
        SentOfOne(Shrunk(rest, m), behind, answers[1..]);
        assert region == region[..m] + region[m..];
      }
    }
  }

  /** A short answer that uses up the first entry, and one that takes all that is offered then. */
  function Overtaking(es: seq<Sge>, behind: Sge): seq<Answer>
    requires es != []
  {
    [Moved(if es[0].len == 0 then 1 else es[0].len), Moved(|Region(es)| + |es| * behind.len)]
  }

  lemma FirstIsUsedUp(es: seq<Sge>, m: nat)
    requires es != [] && es[0].len <= m && m > 0
    ensures |Shrunk(es, m)| < |es|
  {
  }

  lemma {:induction false} CopiesLength(e: Sge, n: nat)
    ensures |Region(Copies(e, n))| == n * e.len
    decreases n
  {
    if n > 0 {
      assert Copies(e, n)[1..] == Copies(e, n - 1);
      CopiesLength(e, n - 1);
    }
  }

  lemma SentTooMuch(es: seq<Sge>, behind: Sge)
    requires behind.len > 0 && !OneEntry(es)
    ensures |SentBy(es, 0, behind, |Region(es)|, Overtaking(es, behind))| > |Region(es)|
  {
    hide Region, Shrunk, SentBy;
    var answers, total := Overtaking(es, behind), |Region(es)|;
    FirstLength(es);
    var m := answers[0].n;
    OfferedIff(es, 0, behind);
    SentNext(es, 0, behind, total, answers);
    ShrunkRegion(es, m);
    FirstIsUsedUp(es, m);
    var rest := Shrunk(es, m);
    var freed := |es| - |rest|;
    CopiesLength(behind, freed);
    Larger(freed, |es|, behind.len);
    assert answers[1..][0] == answers[1];
    SentNext(rest, freed, behind, total - m, answers[1..]);
  }

  lemma Larger(a: nat, b: nat, c: nat)
    requires 0 < a <= b && c > 0
    ensures 0 < a * c <= b * c
  {
  }

  lemma FirstLength(es: seq<Sge>)
    ensures es != [] ==> es[0].len <= |Region(es)|
  {
  }

  /**
    Whatever short answers come, no byte but those of the list is sent: exactly if what lies behind the
    list is empty, or the first entry is all there is to send, or at most one byte is.
   */
  lemma OnlyTheListIff(es: seq<Sge>, behind: Sge)
    ensures (forall answers :: SentBy(es, 0, behind, |Region(es)|, answers) <= Region(es)) <==> behind.len == 0 || OneEntry(es)
  {
    hide Region, SentBy, OneEntry;
    if behind.len == 0 {
      forall answers ensures SentBy(es, 0, behind, |Region(es)|, answers) <= Region(es) {
        SentOfEmpty(es, 0, behind, answers);
      }
    } else if OneEntry(es) {
      forall answers ensures SentBy(es, 0, behind, |Region(es)|, answers) <= Region(es) {
        SentOfOne(es, behind, answers);
      }
    } else {
      SentTooMuch(es, behind);
      NotEmpty(es);
      assert !(SentBy(es, 0, behind, |Region(es)|, Overtaking(es, behind)) <= Region(es));
    }
  }

  lemma NotEmpty(es: seq<Sge>)
    ensures !OneEntry(es) ==> es != []
  {
  }

  /** Such a list: two entries with a stale one behind them. */
  lemma StaleEntryIsSent()
    ensures var es := [Sge(100, 2), Sge(200, 3)];
      |SentBy(es, 0, Sge(900, 1), 5, [Moved(2), Moved(10)])| == 6 && Region(es) == [100, 101, 200, 201, 202]
  {
    hide SentBy;
    var es, behind := [Sge(100, 2), Sge(200, 3)], Sge(900, 1);
    assert es[1..] == [Sge(200, 3)] && es[1..][1..] == [];
    assert Addresses(es[0]) == [100, 101] && Addresses(es[1]) == [200, 201, 202];
    assert Region(es[1..]) == [200, 201, 202];
    var answers := [Moved(2), Moved(10)];
    OfferedIff(es, 0, behind);
    SentNext(es, 0, behind, 5, answers);
    assert Shrunk(es, 2) == es[1..];
    assert answers[1..] == [Moved(10)];
    CopiesLength(behind, 1);
    SentNext(es[1..], 1, behind, 3, answers[1..]);
  }
}
