/** Local namespace objects: reference count and the checksum that is patched with it. */
module Namespaces {
  import opened Definitions
  import opened CrcCode

  // ---------- the checksum ----------

  /** The value of a signed char. */
  function Signed(c: char): int {
    var v := c as int % 256;
    if v < 128 then v else v - 256
  }

  /** Exclusive or of two's complement numbers. */
  function XorInt(a: int, b: int): int {
    if a >= 0 && b >= 0 then XorN(a, b)
    else if a < 0 && b < 0 then XorN(-1 - a, -1 - b)
    else if a < 0 then -1 - XorN(-1 - a, b)
    else -1 - XorN(a, -1 - b)
  }

  /** The sum of four characters, from i and around the end of the name. */
  function Group(name: string, i: nat): int
    requires name != ""
  {
    Signed(name[i % |name|]) + Signed(name[(i + 1) % |name|]) + Signed(name[(i + 2) % |name|]) + Signed(name[(i + 3) % |name|])
  }

  /** The exclusive or of the groups before i. */
  function Folded(name: string, i: nat): int
    requires name != ""
    decreases i
  {
    if i < 4 then 0 else XorInt(Folded(name, i - 4), Group(name, i - 4))
  }

  /** The number of characters, rounded up to whole groups. */
  function Rounded(n: nat): nat {
    (n + 3) / 4 * 4
  }

  function NameSum(name: string): int {
    if name == "" then 0 else Folded(name, Rounded(|name|))
  }

  function Checksum(name: string, refcnt: nat): int {
    (|name| * 0x1_0000_0000 + NameSum(name)) * 0x10000 + refcnt
  }

  lemma XorIntBounded(a: int, b: int)
    requires -1024 <= a < 1024 && -1024 <= b < 1024
    ensures -1024 <= XorInt(a, b) < 1024
    ensures XorInt(a, b) < 0 <==> (a < 0) != (b < 0)
  {
    Pow2At10();
    XorBelow(if a < 0 then -1 - a else a, if b < 0 then -1 - b else b, 10);
  }

  lemma Pow2At10()
    ensures Pow2(10) == 1024
  {
    Pow2Values();
    assert Pow2(10) == 4 * Pow2(8);
  }

  /** How many of the groups before i have a negative sum. */
  function Negatives(name: string, i: nat): nat
    requires name != ""
    decreases i
  {
    if i < 4 then 0 else Negatives(name, i - 4) + (if Group(name, i - 4) < 0 then 1 else 0)
  }

  lemma {:induction false} FoldedSign(name: string, i: nat)
    requires name != ""
    ensures -1024 <= Folded(name, i) < 1024
    ensures Folded(name, i) < 0 <==> Negatives(name, i) % 2 == 1
    decreases i
  {
    hide XorInt;
    if i >= 4 {
      FoldedSign(name, i - 4);
      GroupBounded(name, i - 4);
      XorIntBounded(Folded(name, i - 4), Group(name, i - 4));
    }
  }

  lemma GroupBounded(name: string, i: nat)
    requires name != ""
    ensures -1024 <= Group(name, i) < 1024
  {
  }

  /** The names whose checksum holds their length: those with an even number of negative groups. */
  predicate Sound(name: string) {
    name == "" || Negatives(name, Rounded(|name|)) % 2 == 0
  }

  lemma NameSumSign(name: string)
    ensures -1024 <= NameSum(name) < 1024
    ensures NameSum(name) < 0 <==> !Sound(name)
  {
    if name != "" {
      FoldedSign(name, Rounded(|name|));
    }
  }

  lemma {:induction false} AsciiGroups(name: string, i: nat)
    requires name != "" && forall k :: 0 <= k < |name| ==> name[k] as int < 128
    ensures Negatives(name, i) == 0
    decreases i
  {
    hide Group;
    if i >= 4 {
      AsciiGroups(name, i - 4);
      AsciiGroup(name, i - 4);
    }
  }

  lemma AsciiGroup(name: string, i: nat)
    requires name != "" && forall k :: 0 <= k < |name| ==> name[k] as int < 128
    ensures Group(name, i) >= 0
  {
    assert forall k :: 0 <= k < |name| ==> Signed(name[k]) >= 0;
  }

  /** Names of ASCII characters are sound. */
  lemma AsciiIsSound(name: string)
    requires forall k :: 0 <= k < |name| ==> name[k] as int < 128
    ensures Sound(name)
  {
    if name != "" {
      AsciiGroups(name, Rounded(|name|));
    }
  }

  // ---------- parts of the checksum ----------

  /** chksum >> 48 and chksum & 0xFFFF. */
  lemma ChecksumParts(name: string, refcnt: nat)
    requires refcnt <= 0xFFFF
    ensures Checksum(name, refcnt) / 0x1_0000_0000_0000 == |name| <==> Sound(name)
    ensures Checksum(name, refcnt) % 0x10000 == refcnt
    ensures Checksum(name, refcnt) / 0x10000 * 0x10000 == Checksum(name, 0)
  {
    hide NameSum, Sound;
    NameSumSign(name);
    var x := |name| * 0x1_0000_0000 + NameSum(name);
    LowPart(x, refcnt);
    HighPart(|name|, NameSum(name), refcnt);
  }

  lemma LowPart(x: int, r: nat)
    requires r <= 0xFFFF
    ensures (x * 0x10000 + r) % 0x10000 == r && (x * 0x10000 + r) / 0x10000 == x
  {
  }

  lemma HighPart(n: nat, s: int, r: nat)
    requires r <= 0xFFFF && -1024 <= s < 1024
    ensures ((n * 0x1_0000_0000 + s) * 0x10000 + r) / 0x1_0000_0000_0000 == if s < 0 then n - 1 else n
  {
    var low := s * 0x10000 + r;
    assert (n * 0x1_0000_0000 + s) * 0x10000 + r == n * 0x1_0000_0000_0000 + low;
    assert -0x1_0000_0000_0000 < low < 0x1_0000_0000_0000;
    assert s < 0 ==> low < 0;
  }

  // ---------- validation ----------

  /** What validate answers on any three fields. */
  function Verdict(name: string, refcnt: nat, chksum: int): int {
    if refcnt == 0 then EBADF
    else if refcnt > 0xFFFE then EMLINK
    else if |name| != chksum / 0x1_0000_0000_0000 || refcnt != chksum % 0x10000 then EBADF
    else if chksum != Checksum(name, refcnt) then EBADF
    else 0
  }

  /** An object is valid exactly if its count is in range, its name is sound and its checksum is the recomputed one. */
  lemma ValidIff(name: string, refcnt: nat, chksum: int)
    ensures Verdict(name, refcnt, chksum) == 0 <==> 1 <= refcnt <= 0xFFFE && Sound(name) && chksum == Checksum(name, refcnt)
  {
    hide Checksum, Sound;
    if refcnt <= 0xFFFF {
      ChecksumParts(name, refcnt);
    }
  }

  // ---------- attaching and detaching, step by step ----------

  datatype State = Live(refcnt: nat) | Gone

  datatype Event = Attach | Detach

  /** The codes that attach and detach return, and the state they leave. */
  function Step(name: string, s: State, e: Event): (State, int) {
    match s
    case Gone => (Gone, 0)
    case Live(n) =>
      if n > 0xFFFE then (s, 0 - EMLINK)
      else if n == 0 || !Sound(name) then (s, 0 - EBADF)
      else match e
        case Attach => if n + 1 > 0xFFFE then (Live(0xFFFF), 0 - EMLINK) else (Live(n + 1), n + 1)
        case Detach => if n <= 1 then (Gone, 0) else (Live(n - 1), n - 1)
  }

  function Run(name: string, es: seq<Event>): State
    decreases |es|
  {
    if es == [] then Live(1) else Step(name, Run(name, es[..|es| - 1]), es[|es| - 1]).0
  }

  /** Attaches minus detaches. */
  function Balance(es: seq<Event>): int {
    if es == [] then 0 else Balance(es[..|es| - 1]) + (if es[|es| - 1] == Attach then 1 else -1)
  }

  /** The count is one plus attaches minus detaches, as long as that has stayed in range. */
  lemma {:induction false} CountIsBalance(name: string, es: seq<Event>)
    requires Sound(name) && forall k :: 0 <= k <= |es| ==> 1 <= 1 + Balance(es[..k]) <= 0xFFFE
    ensures Run(name, es) == Live(1 + Balance(es))
    decreases |es|
  {
    hide Sound;
    assert es[..|es|] == es;
    if es != [] {
      var n := |es| - 1;
      forall k | 0 <= k <= n ensures 1 <= 1 + Balance(es[..n][..k]) <= 0xFFFE {
        assert es[..n][..k] == es[..k];
      }
      CountIsBalance(name, es[..n]);
      assert 1 <= 1 + Balance(es[..n + 1]) <= 0xFFFE;
    }
  }

  /** Once the count has run over, nothing changes it any more; the same holds of an object that is gone. */
  lemma {:induction false} StuckForGood(name: string, es: seq<Event>, more: seq<Event>)
    requires Run(name, es) == Live(0xFFFF) || Run(name, es) == Gone
    ensures Run(name, es + more) == Run(name, es)
    decreases |more|
  {
    if more == [] {
      assert es + more == es;
    } else {
      var n := |more| - 1;
      StuckForGood(name, es, more[..n]);
      assert (es + more)[..|es + more| - 1] == es + more[..n];
    }
  }

  /** A name that is not sound can never be attached or detached. */
  lemma {:induction false} UnsoundNeverMoves(name: string, es: seq<Event>)
    requires !Sound(name)
    ensures Run(name, es) == Live(1)
    decreases |es|
  {
    hide Sound;
    if es != [] {
      UnsoundNeverMoves(name, es[..|es| - 1]);
    }
  }

  lemma UnsoundExists()
    ensures !Sound([128 as char])
  {
    var name := [128 as char];
    assert Rounded(|name|) == 4;
    assert Group(name, 0) == -512;
    assert Negatives(name, 4) == Negatives(name, 0) + 1;
  }

  /** What an operation makes of any fields: an object that does not validate is refused and stays as it is. */
  function Outcome(name: string, refcnt: nat, chksum: int, e: Event): (State, int) {
    var v := Verdict(name, refcnt, chksum);
    if v != 0 then (Live(refcnt), 0 - v) else Step(name, Live(refcnt), e)
  }

  /** On an intact object the count alone, and whether the name is sound, decide. */
  lemma OutcomeOfIntact(name: string, refcnt: nat, chksum: int, e: Event)
    ensures 1 <= refcnt <= 0xFFFF && chksum == Checksum(name, refcnt)
      ==> Outcome(name, refcnt, chksum, e) == Step(name, Live(refcnt), e)
  {
    hide Checksum, Sound, Verdict;
    if 1 <= refcnt <= 0xFFFF && chksum == Checksum(name, refcnt) {
      VerdictOfIntact(name, refcnt, chksum);
    }
  }

  lemma StepOfSound(name: string, refcnt: nat, e: Event)
    ensures Sound(name) && 1 <= refcnt <= 0xFFFE ==>
      Step(name, Live(refcnt), e) == match e
        case Attach => if refcnt == 0xFFFE then (Live(0xFFFF), 0 - EMLINK) else (Live(refcnt + 1), refcnt + 1)
        case Detach => if refcnt == 1 then (Gone, 0) else (Live(refcnt - 1), refcnt - 1)
  {
    hide Sound;
  }

  // ---------- the object ----------

  class Namespace {
    const name: string
    var refcnt: nat
    var chksum: int
    var alive: bool

    /** The patched checksum is the recomputed one. */
    ghost predicate Intact()
      reads this
    {
      |name| <= MAX_NAME && (alive ==> 1 <= refcnt <= 0xFFFF && chksum == Checksum(name, refcnt))
    }

    function Now(): State
      reads this
    {
      if alive then Live(refcnt) else Gone
    }

    constructor (text: string)
      requires |text| <= MAX_NAME
      ensures Intact() && alive && refcnt == 1 && name == text
    {
      name, refcnt, alive := text, 1, true;
      chksum := 0;
      new;
      chksum := Recompute();
    }

    /** Four characters at a time, around the end of the name. */
    method Recompute() returns (c: int)
      ensures c == Checksum(name, refcnt)
    {
      hide Group, Folded, XorInt, Signed;
      var sum := 0;
      var i := 0;
      if name != "" {
        NoGroup(name);
      }
      while i < |name|
        invariant 0 <= i < |name| + 4 && i % 4 == 0
        invariant if name == "" then sum == 0 else sum == Folded(name, i)
      {
        GroupAt(name, i);
        sum := XorInt(sum, Signed(name[i]) + Signed(name[(i + 1) % |name|]) + Signed(name[(i + 2) % |name|]) + Signed(name[(i + 3) % |name|]));
        i := i + 4;
      }
      if name == "" {
        EmptySum();
      } else {
        LastGroup(|name|, i);
      }
      c := (|name| * 0x1_0000_0000 + sum) * 0x10000 + refcnt;
    }

    method Validate() returns (rc: int)
      ensures rc == Verdict(name, refcnt, chksum)
    {
      if refcnt == 0 {
        return EBADF;
      }
      if refcnt > 0xFFFE {
        return EMLINK;
      }
      if |name| != chksum / 0x1_0000_0000_0000 || refcnt != chksum % 0x10000 {
        return EBADF;
      }
      var c := Recompute();
      if chksum != c {
        return EBADF;
      }
      return 0;
    }

    /** The low sixteen bits of the checksum follow the count. */
    method PatchChecksum()
      modifies this`chksum
      ensures chksum == old(chksum) / 0x10000 * 0x10000 + refcnt
    {
      chksum := chksum / 0x10000 * 0x10000 + refcnt;
    }

    method AttachNs() returns (rc: int)
      requires alive
      modifies this
      ensures Outcome(name, old(refcnt), old(chksum), Attach) == (Now(), rc)
      ensures Verdict(name, old(refcnt), old(chksum)) != 0 ==> refcnt == old(refcnt) && chksum == old(chksum)
      ensures old(Intact()) ==> Intact() && (Now(), rc) == Step(name, old(Now()), Attach)
    {
      hide Checksum, Sound, Verdict, Step;
      OutcomeOfIntact(name, refcnt, chksum, Attach);
      ValidIff(name, refcnt, chksum);
      StepOfSound(name, refcnt, Attach);
      rc := Validate();
      if rc != 0 {
        return 0 - rc;
      }
      ChecksumParts(name, refcnt);
      refcnt := refcnt + 1;
      CountAdds(name, refcnt);
      CountAdds(name, 0xFFFF);
      if refcnt > 0xFFFE {
        refcnt := 0xFFFF;
        PatchChecksum();
        return 0 - EMLINK;
      }
      PatchChecksum();
      rc := refcnt;
    }

    method Destroy() returns (rc: int)
      requires alive
      modifies this
      ensures old(Intact()) ==> Intact()
      ensures rc == if Verdict(name, old(refcnt), old(chksum)) != 0 then 0 - EBADF else if old(refcnt) > 1 then 0 - EBUSY else 0
      ensures alive <==> rc != 0
      ensures rc != 0 ==> refcnt == old(refcnt) && chksum == old(chksum)
    {
      rc := Validate();
      if rc != 0 {
        return 0 - EBADF;
      }
      if refcnt > 1 {
        return 0 - EBUSY;
      }
      chksum, alive := 0, false;
    }

    method DetachNs() returns (rc: int)
      requires alive
      modifies this
      ensures Outcome(name, old(refcnt), old(chksum), Detach) == (Now(), rc)
      ensures Verdict(name, old(refcnt), old(chksum)) != 0 ==> refcnt == old(refcnt) && chksum == old(chksum)
      ensures old(Intact()) ==> Intact() && (Now(), rc) == Step(name, old(Now()), Detach)
    {
      hide Checksum, Sound, Verdict, Step;
      OutcomeOfIntact(name, refcnt, chksum, Detach);
      ValidIff(name, refcnt, chksum);
      StepOfSound(name, refcnt, Detach);
      rc := Validate();
      if rc != 0 {
        return 0 - rc;
      }
      ChecksumParts(name, refcnt);
      if refcnt <= 1 {
        var _ := Destroy();
        return 0;
      }
      refcnt := refcnt - 1;
      CountAdds(name, refcnt);
      PatchChecksum();
      rc := refcnt;
    }
  }

  /** A namespace object with one reference; a name over the limit is refused with E2BIG. */
  method CreateNamespace(text: string) returns (errno: int, ns: Namespace?)
    ensures ns == null <==> |text| > MAX_NAME
    ensures errno == if |text| > MAX_NAME then E2BIG else 0
    ensures ns != null ==> fresh(ns) && ns.alive && ns.Intact() && ns.refcnt == 1 && ns.name == text
  {
    if |text| > MAX_NAME {
      return E2BIG, null;
    }
    ns := new Namespace(text);
    errno := 0;
  }

  lemma NoGroup(name: string)
    requires name != ""
    ensures Folded(name, 0) == 0
  {
  }

  lemma EmptySum()
    ensures NameSum("") == 0
  {
  }

  lemma GroupAt(name: string, i: nat)
    requires i < |name|
    ensures Folded(name, i + 4) == XorInt(Folded(name, i),
      Signed(name[i]) + Signed(name[(i + 1) % |name|]) + Signed(name[(i + 2) % |name|]) + Signed(name[(i + 3) % |name|]))
  {
    hide Signed, XorInt;
    assert i % |name| == i;
  }

  lemma LastGroup(n: nat, i: nat)
    requires n <= i < n + 4 && i % 4 == 0
    ensures i == Rounded(n)
  {
  }

  lemma VerdictOfIntact(name: string, refcnt: nat, chksum: int)
    requires 1 <= refcnt <= 0xFFFF && chksum == Checksum(name, refcnt)
    ensures Verdict(name, refcnt, chksum) == if refcnt > 0xFFFE then EMLINK else if Sound(name) then 0 else EBADF
  {
    hide Checksum, Sound;
    ValidIff(name, refcnt, chksum);
  }

  lemma CountAdds(name: string, refcnt: nat)
    ensures Checksum(name, 0) + refcnt == Checksum(name, refcnt)
  {
  }
}
