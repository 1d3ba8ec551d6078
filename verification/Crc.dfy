/**
  The CRC-16 that places a key in a hash slot, as division of polynomials over GF(2).
  A polynomial is the sequence of its coefficients, the highest first.
 */
module Crc {

  // ---------- polynomials ----------

  function Zeros(n: nat): seq<bool> {
    seq(n, i => false)
  }

  function Xor(a: seq<bool>, b: seq<bool>): seq<bool>
    requires |a| == |b|
  {
    seq(|a|, i requires 0 <= i < |a| => a[i] != b[i])
  }

  /** Coefficient i, from the highest, of the generator below x^16: x^12 + x^5 + 1. */
  predicate Low(i: nat) {
    i == 3 || i == 10 || i == 15
  }

  function G16(): (g: seq<bool>)
    ensures |g| == 16
  {
    seq(16, i requires 0 <= i => Low(i))
  }

  /** The generator x^16 + x^12 + x^5 + 1. */
  function G(): (g: seq<bool>)
    ensures |g| == 17 && g[0]
  {
    [true] + G16()
  }

  /** The product of q and the generator, with |q| + 16 coefficients. */
  function Times(q: seq<bool>): (p: seq<bool>)
    ensures |p| == |q| + 16
  {
    if q == [] then Zeros(16)
    else
      var n := |q| - 1;
      var shifted := Times(q[..n]) + [false];
      if q[n] then Xor(shifted, Zeros(n) + G()) else shifted
  }

  /** p is q times the generator, plus r. */
  ghost predicate Divides(p: seq<bool>, q: seq<bool>, r: seq<bool>) {
    |q| == |p| && |r| == 16 && Zeros(16) + p == Xor(Times(q), Zeros(|p|) + r)
  }

  // ---------- quotient and remainder are unique ----------

  lemma TimesSnoc(q: seq<bool>, c: bool)
    ensures Times(q + [c]) == if c then Xor(Times(q) + [false], Zeros(|q|) + G()) else Times(q) + [false]
  {
    hide G, Zeros, Xor;
    assert (q + [c])[..|q|] == q;
  }

  /** The leading coefficients of a product determine its factor. */
  lemma {:induction false} TimesInjective(q: seq<bool>, r: seq<bool>)
    requires |q| == |r| && Times(q)[..|q|] == Times(r)[..|r|]
    ensures q == r
    decreases |q|
  {
    hide Times;
    if q != [] {
      var n := |q| - 1;
      assert q == q[..n] + [q[n]] && r == r[..n] + [r[n]];
      Leading(q[..n], q[n]);
      Leading(r[..n], r[n]);
      assert Times(q)[..|q|][..n] == Times(q)[..n] && Times(r)[..|r|][..n] == Times(r)[..n];
      TimesInjective(q[..n], r[..n]);
      assert Times(q)[n] == Times(q)[..|q|][n] && Times(r)[n] == Times(r)[..|r|][n];
    }
  }

  lemma Leading(q: seq<bool>, c: bool)
    ensures Times(q + [c])[..|q|] == Times(q)[..|q|] && Times(q + [c])[|q|] == (Times(q)[|q|] != c)
  {
    hide G, Times, Zeros, Xor;
    TimesSnoc(q, c);
    var shifted := Times(q) + [false];
    if c {
      XorLeading(shifted, |q|);
    }
    assert shifted[..|q|] == Times(q)[..|q|] && shifted[|q|] == Times(q)[|q|];
  }

  lemma XorLeading(s: seq<bool>, n: nat)
    requires |s| == n + 17
    ensures Xor(s, Zeros(n) + G())[..n] == s[..n] && Xor(s, Zeros(n) + G())[n] == !s[n]
  {
    hide G;
  }

  lemma DivisionUnique(p: seq<bool>, q1: seq<bool>, r1: seq<bool>, q2: seq<bool>, r2: seq<bool>)
    requires Divides(p, q1, r1) && Divides(p, q2, r2)
    ensures q1 == q2 && r1 == r2
  {
    hide Times;
    var n := |p|;
    Front(p, q1, r1);
    Front(p, q2, r2);
    TimesInjective(q1, q2);
    forall i | 0 <= i < 16 ensures r1[i] == r2[i] {
      assert (Zeros(16) + p)[n + i] == (Times(q1)[n + i] != (Zeros(n) + r1)[n + i]);
      assert (Zeros(16) + p)[n + i] == (Times(q2)[n + i] != (Zeros(n) + r2)[n + i]);
      assert (Zeros(n) + r1)[n + i] == r1[i] && (Zeros(n) + r2)[n + i] == r2[i];
    }
  }

  lemma Front(p: seq<bool>, q: seq<bool>, r: seq<bool>)
    requires Divides(p, q, r)
    ensures Times(q)[..|q|] == (Zeros(16) + p)[..|p|]
  {
    hide Times;
    forall i | 0 <= i < |p| ensures Times(q)[i] == (Zeros(16) + p)[i] {
      assert (Zeros(|p|) + r)[i] == false;
      assert Xor(Times(q), Zeros(|p|) + r)[i] == (Times(q)[i] != false);
    }
  }

  // ---------- the register ----------

  /** One bit is shifted into 16 bits; a one that leaves them is folded back. */
  function Step(r: seq<bool>, b: bool): (s: seq<bool>)
    requires |r| == 16
    ensures |s| == 16
  {
    var shifted := r[1..] + [b];
    if r[0] then Xor(shifted, G16()) else shifted
  }

  function Register(p: seq<bool>): (r: seq<bool>)
    ensures |r| == 16
    decreases |p|
  {
    if p == [] then Zeros(16) else Step(Register(p[..|p| - 1]), p[|p| - 1])
  }

  lemma RegisterSnoc(p: seq<bool>, b: bool)
    ensures Register(p + [b]) == Step(Register(p), b)
  {
    assert (p + [b])[..|p|] == p;
  }

  /** A step takes a multiple of the generator away, shifted to where the division has come to. */
  lemma StepDivides(n: nat, r: seq<bool>, b: bool)
    requires |r| == 16
    ensures Zeros(n) + r + [b]
         == if r[0] then Xor(Zeros(n) + G(), Zeros(n + 1) + Step(r, b)) else Zeros(n + 1) + Step(r, b)
  {
    var before, after := Zeros(n) + r + [b], Zeros(n + 1) + Step(r, b);
    forall i | 0 <= i < n + 17
      ensures before[i] == (if r[0] then (Zeros(n) + G())[i] != after[i] else after[i])
    {
      if i >= n + 1 {
        assert after[i] == Step(r, b)[i - n - 1];
      }
    }
  }

  lemma XorSnoc(a: seq<bool>, b: seq<bool>, c: bool)
    requires |a| == |b|
    ensures Xor(a, b) + [c] == Xor(a + [false], b + [c])
  {
  }

  lemma XorAssoc(a: seq<bool>, b: seq<bool>, c: seq<bool>)
    requires |a| == |b| == |c|
    ensures Xor(Xor(a, b), c) == Xor(a, Xor(b, c))
  {
  }

  /** After any bits, the register is the remainder of those bits divided by the generator. */
  lemma {:induction false} RegisterDivides(p: seq<bool>) returns (q: seq<bool>)
    ensures Divides(p, q, Register(p))
    decreases |p|
  {
    if p == [] {
      q := [];
      assert Zeros(16) + p == Xor(Zeros(16), Zeros(0) + Zeros(16));
    } else {
      var n := |p| - 1;
      q := RegisterDivides(p[..n]);
      RegisterSnoc(p[..n], p[n]);
      assert p[..n] + [p[n]] == p;
      ExtendDivision(p[..n], q, Register(p[..n]), p[n]);
      q := q + [Register(p[..n])[0]];
    }
  }

  lemma ExtendDivision(p: seq<bool>, q: seq<bool>, r: seq<bool>, b: bool)
    requires Divides(p, q, r)
    ensures Divides(p + [b], q + [r[0]], Step(r, b))
  {
    hide Times, Xor, Zeros, G, Step;
    var n := |p|;
    var low := Zeros(n) + r;
    assert |low| == |Times(q)| by { XorSizes(p, q, r); }
    XorSnoc(Times(q), low, b);
    StepDivides(n, r, b);
    TimesSnoc(q, r[0]);
    assert Zeros(16) + (p + [b]) == (Zeros(16) + p) + [b];
    ZerosCounted(n);
    ZerosCounted(n + 1);
    if r[0] {
      XorAssoc(Times(q) + [false], Zeros(n) + G(), Zeros(n + 1) + Step(r, b));
    }
  }

  lemma ZerosCounted(n: nat)
    ensures |Zeros(n)| == n
  {
  }

  lemma XorSizes(p: seq<bool>, q: seq<bool>, r: seq<bool>)
    requires Divides(p, q, r)
    ensures |Zeros(|p|) + r| == |Times(q)|
  {
  }

  /** The register is the only remainder there is: it is determined by the division alone. */
  lemma RegisterIsRemainder(p: seq<bool>, q: seq<bool>, r: seq<bool>)
    ensures Divides(p, q, r) ==> r == Register(p)
    ensures exists quotient :: Divides(p, quotient, Register(p))
  {
    hide Divides;
    var quotient := RegisterDivides(p);
    if Divides(p, q, r) {
      DivisionUnique(p, q, r, quotient, Register(p));
    }
  }

  // ---------- the direct form ----------

  /** A step of the usual CRC-16/XMODEM: the bit is compared with the one that leaves the register. */
  function DirectStep(s: seq<bool>, b: bool): (t: seq<bool>)
    requires |s| == 16
    ensures |t| == 16
  {
    var shifted := s[1..] + [false];
    if s[0] != b then Xor(shifted, G16()) else shifted
  }

  function Xmodem(p: seq<bool>): (r: seq<bool>)
    ensures |r| == 16
    decreases |p|
  {
    if p == [] then Zeros(16) else DirectStep(Xmodem(p[..|p| - 1]), p[|p| - 1])
  }

  /** Zeros shifted in. */
  function Flush(r: seq<bool>, n: nat): (s: seq<bool>)
    requires |r| == 16
    ensures |s| == 16
  {
    if n == 0 then r else Step(Flush(r, n - 1), false)
  }

  lemma {:induction false} RegisterFlushed(p: seq<bool>, n: nat)
    ensures Register(p + Zeros(n)) == Flush(Register(p), n)
  {
    hide Register, Step;
    if n == 0 {
      assert p + Zeros(0) == p;
    } else {
      RegisterFlushed(p, n - 1);
      assert p + Zeros(n) == p + Zeros(n - 1) + [false];
      RegisterSnoc(p + Zeros(n - 1), false);
    }
  }

  lemma StepLinear(r: seq<bool>, s: seq<bool>, b: bool, c: bool)
    requires |r| == |s| == 16
    ensures Step(Xor(r, s), b != c) == Xor(Step(r, b), Step(s, c))
  {
    var left, right := Step(Xor(r, s), b != c), Xor(Step(r, b), Step(s, c));
    forall i | 0 <= i < 16 ensures left[i] == right[i] {
      if i < 15 {
        assert Xor(r, s)[i + 1] == (r[i + 1] != s[i + 1]);
      }
    }
  }

  lemma {:induction false} FlushLinear(r: seq<bool>, s: seq<bool>, n: nat)
    requires |r| == |s| == 16
    ensures Flush(Xor(r, s), n) == Xor(Flush(r, n), Flush(s, n))
  {
    hide Step;
    if n > 0 {
      FlushLinear(r, s, n - 1);
      StepLinear(Flush(r, n - 1), Flush(s, n - 1), false, false);
    }
  }

  lemma {:induction false} FlushLater(r: seq<bool>, n: nat)
    requires |r| == 16
    ensures Flush(Step(r, false), n) == Step(Flush(r, n), false)
  {
    hide Step;
    if n > 0 {
      FlushLater(r, n - 1);
    }
  }

  /** The single coefficient x^k. */
  function Power(k: nat): (s: seq<bool>)
    requires k < 16
    ensures |s| == 16
  {
    Zeros(15 - k) + [true] + Zeros(k)
  }

  lemma {:induction false} FlushPower(k: nat)
    requires k < 16
    ensures Flush(Power(0), k) == Power(k)
  {
    if k == 0 {
    } else {
      FlushPower(k - 1);
      assert Step(Power(k - 1), false) == Power(k);
    }
  }

  /** x^16 leaves the lower coefficients of the generator. */
  lemma FlushOne()
    ensures Flush(Power(0), 16) == G16()
  {
    hide Flush;
    FlushPower(15);
    LastFlush(Power(0));
    assert Step(Power(15), false) == G16() by {
      var shifted := Power(15)[1..] + [false];
      assert shifted == Zeros(16);
      assert Xor(Zeros(16), G16()) == G16();
    }
  }

  lemma LastFlush(r: seq<bool>)
    requires |r| == 16
    ensures Flush(r, 16) == Step(Flush(r, 15), false)
  {
  }

  /** A bit is the sum of a shift and a lowest coefficient. */
  lemma StepSplits(r: seq<bool>)
    requires |r| == 16
    ensures Step(r, true) == Xor(Step(r, false), Power(0))
  {
    var one, zero := Step(r, true), Step(r, false);
    forall i | 0 <= i < 16 ensures one[i] == Xor(zero, Power(0))[i] {
    }
  }

  lemma DirectSplits(s: seq<bool>)
    requires |s| == 16
    ensures DirectStep(s, false) == Step(s, false)
    ensures DirectStep(s, true) == Xor(Step(s, false), G16())
  {
    var shifted := s[1..] + [false];
    assert s[0] ==> Xor(Xor(shifted, G16()), G16()) == shifted;
  }

  /** Appending sixteen zeros and dividing is the direct form without them. */
  lemma {:induction false} PaddedIsDirect(p: seq<bool>)
    ensures Register(p + Zeros(16)) == Xmodem(p)
    decreases |p|
  {
    hide Register, Step, Flush, DirectStep, Zeros, Xor, G16, Power;
    RegisterFlushed(p, 16);
    if p == [] {
      EmptyFlushed();
      assert [] + Zeros(16) == Zeros(16);
    } else {
      var n := |p| - 1;
      var r := Register(p[..n]);
      PaddedIsDirect(p[..n]);
      RegisterFlushed(p[..n], 16);
      RegisterSnoc(p[..n], p[n]);
      assert p[..n] + [p[n]] == p;
      FlushLater(r, 16);
      DirectSplits(Flush(r, 16));
      if p[n] {
        StepSplits(r);
        FlushLinear(Step(r, false), Power(0), 16);
        FlushOne();
      }
    }
  }

  lemma {:induction false} FlushZeros(n: nat)
    ensures Flush(Zeros(16), n) == Zeros(16)
  {
    if n > 0 {
      FlushZeros(n - 1);
      assert Step(Zeros(16), false) == Zeros(16);
    }
  }

  lemma EmptyFlushed()
    ensures Flush(Register([]), 16) == Zeros(16) == Xmodem([])
  {
    FlushZeros(16);
  }

  // ---------- linearity ----------

  /** The register of a sum is the sum of the registers. */
  lemma {:induction false} RegisterLinear(p: seq<bool>, q: seq<bool>)
    requires |p| == |q|
    ensures Register(Xor(p, q)) == Xor(Register(p), Register(q))
    decreases |p|
  {
    hide Step;
    if p == [] {
      assert Xor(p, q) == [];
      assert Xor(Zeros(16), Zeros(16)) == Zeros(16);
    } else {
      var n := |p| - 1;
      RegisterLinear(p[..n], q[..n]);
      assert Xor(p, q)[..n] == Xor(p[..n], q[..n]);
      StepLinear(Register(p[..n]), Register(q[..n]), p[n], q[n]);
    }
  }
}
