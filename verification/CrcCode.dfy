/** The CRC loop on machine numbers, and the hash slot of a key. */
module CrcCode {
  import opened Definitions
  import opened Crc

  const SLOT_MASK: nat := 0x3FFF

  type Byte = x: int | 0 <= x < 256

  // ---------- numbers and their bits ----------

  function Pow2(n: nat): (p: nat)
    ensures p > 0
  {
    if n == 0 then 1 else 2 * Pow2(n - 1)
  }

  /** The number that bits stand for, the highest first. */
  function Value(s: seq<bool>): nat {
    if s == [] then 0 else 2 * Value(s[..|s| - 1]) + (if s[|s| - 1] then 1 else 0)
  }

  /** The bitwise exclusive or of two numbers. */
  function XorN(a: nat, b: nat): nat {
    if a == 0 && b == 0 then 0 else 2 * XorN(a / 2, b / 2) + (if a % 2 != b % 2 then 1 else 0)
  }

  lemma ValueSnoc(s: seq<bool>, b: bool)
    ensures Value(s + [b]) == 2 * Value(s) + (if b then 1 else 0)
  {
    assert (s + [b])[..|s|] == s;
  }

  lemma {:induction false} ValueBelow(s: seq<bool>)
    ensures Value(s) < Pow2(|s|)
    decreases |s|
  {
    if s != [] {
      ValueBelow(s[..|s| - 1]);
    }
  }

  lemma {:induction false} ValueCons(b: bool, s: seq<bool>)
    ensures Value([b] + s) == (if b then Pow2(|s|) else 0) + Value(s)
    decreases |s|
  {
    hide Value;
    if s == [] {
      ValueSnoc(s, b);
      assert s + [b] == [b] && [b] + s == [b];
      ZerosValue(0);
      assert s == Zeros(0);
    } else {
      var n := |s| - 1;
      ValueCons(b, s[..n]);
      assert [b] + s == ([b] + s[..n]) + [s[n]];
      ValueSnoc([b] + s[..n], s[n]);
      assert s == s[..n] + [s[n]];
      ValueSnoc(s[..n], s[n]);
    }
  }

  /** Bits of one length stand for different numbers. */
  lemma {:induction false} ValueInjective(s: seq<bool>, t: seq<bool>)
    requires |s| == |t| && Value(s) == Value(t)
    ensures s == t
    decreases |s|
  {
    if s != [] {
      var n := |s| - 1;
      ValueInjective(s[..n], t[..n]);
      assert s == s[..n] + [s[n]] && t == t[..n] + [t[n]];
    }
  }

  lemma {:induction false} XorValue(s: seq<bool>, t: seq<bool>)
    requires |s| == |t|
    ensures XorN(Value(s), Value(t)) == Value(Xor(s, t))
    decreases |s|
  {
    if s != [] {
      var n := |s| - 1;
      XorValue(s[..n], t[..n]);
      assert Xor(s, t)[..n] == Xor(s[..n], t[..n]);
      XorHalves(Value(s[..n]), s[n], Value(t[..n]), t[n]);
    }
  }

  lemma XorHalves(a: nat, c: bool, b: nat, d: bool)
    ensures XorN(2 * a + (if c then 1 else 0), 2 * b + (if d then 1 else 0)) == 2 * XorN(a, b) + (if c != d then 1 else 0)
  {
    var x, y := 2 * a + (if c then 1 else 0), 2 * b + (if d then 1 else 0);
    assert x / 2 == a && y / 2 == b;
    assert x % 2 == (if c then 1 else 0) && y % 2 == (if d then 1 else 0);
  }

  lemma Pow2Values()
    ensures Pow2(0) == 1 && Pow2(1) == 2 && Pow2(2) == 4 && Pow2(3) == 8 && Pow2(4) == 16
    ensures Pow2(5) == 32 && Pow2(6) == 64 && Pow2(7) == 128 && Pow2(8) == 256 && Pow2(16) == 0x10000
  {
    assert Pow2(10) == 4 * Pow2(8) && Pow2(12) == 4 * Pow2(10) && Pow2(14) == 4 * Pow2(12) && Pow2(16) == 4 * Pow2(14);
    assert Pow2(4) == 4 * Pow2(2) && Pow2(6) == 4 * Pow2(4) && Pow2(8) == 4 * Pow2(6);
  }

  lemma {:induction false} ZerosValue(n: nat)
    ensures Value(Zeros(n)) == 0
  {
    if n > 0 {
      ZerosValue(n - 1);
      assert Zeros(n)[..n - 1] == Zeros(n - 1);
    }
  }

  lemma {:induction false} ValuePadded(s: seq<bool>, n: nat)
    ensures Value(s + Zeros(n)) == Value(s) * Pow2(n)
  {
    hide Value;
    if n == 0 {
      assert s + Zeros(n) == s;
    } else {
      ValuePadded(s, n - 1);
      assert s + Zeros(n) == (s + Zeros(n - 1)) + [false];
      ValueSnoc(s + Zeros(n - 1), false);
    }
  }

  /** The polynomial constant of the loop. */
  lemma GeneratorValue()
    ensures Value(G16()) == 0x1021
  {
    hide Value, Pow2;
    Pow2Values();
    var a := Zeros(3) + [true];
    var b := a + Zeros(6) + [true];
    var c := b + Zeros(4) + [true];
    ZerosValue(3);
    ValueSnoc(Zeros(3), true);
    ValuePadded(a, 6);
    ValueSnoc(a + Zeros(6), true);
    ValuePadded(b, 4);
    ValueSnoc(b + Zeros(4), true);
    assert c == G16();
  }

  // ---------- the loop ----------

  function ByteBits(x: Byte): (s: seq<bool>)
    ensures |s| == 8
  {
    seq(8, k requires 0 <= k < 8 => (x / Pow2(7 - k)) % 2 == 1)
  }

  function MessageBits(m: seq<Byte>): seq<bool> {
    if m == [] then [] else MessageBits(m[..|m| - 1]) + ByteBits(m[|m| - 1])
  }

  function Low16(n: nat): nat {
    n % 0x10000
  }

  /** The step on numbers. */
  lemma StepValue(r: seq<bool>, b: bool)
    requires |r| == 16
    ensures var shifted := 2 * Value(r) + (if b then 1 else 0);
      Value(Step(r, b)) == if shifted > 0xffff then XorN(Low16(shifted), 0x1021) else shifted
  {
    hide Value, XorN, Pow2, G16, Xor, Low16;
    var tail := r[1..] + [b];
    var shifted := 2 * Value(r) + (if b then 1 else 0);
    ShiftValue(r, b);
    if r[0] {
      StepXors(r, b);
      Wrapped(Value(tail));
      assert shifted == 0x10000 + Value(tail);
    } else {
      assert Step(r, b) == tail;
    }
  }

  lemma StepXors(r: seq<bool>, b: bool)
    requires |r| == 16 && r[0]
    ensures Value(Step(r, b)) == XorN(Value(r[1..] + [b]), 0x1021)
  {
    hide Value, XorN, G16, Xor;
    GeneratorValue();
    XorValue(r[1..] + [b], G16());
  }

  lemma ShiftValue(r: seq<bool>, b: bool)
    requires |r| == 16
    ensures 2 * Value(r) + (if b then 1 else 0) == (if r[0] then 0x10000 else 0) + Value(r[1..] + [b])
    ensures Value(r[1..] + [b]) < 0x10000
  {
    hide Value, Pow2;
    var tail := r[1..] + [b];
    assert r + [b] == [r[0]] + tail;
    ValueSnoc(r, b);
    ValueCons(r[0], tail);
    TailBelow(tail);
  }

  lemma Wrapped(v: nat)
    requires v < 0x10000
    ensures Low16(0x10000 + v) == v
  {
  }

  lemma TailBelow(s: seq<bool>)
    requires |s| == 16
    ensures Value(s) < 0x10000 == Pow2(|s|)
  {
    ValueBelow(s);
    Pow2Values();
  }

  /** One byte, bit by bit from the highest, is shifted into the register. */
  method ShiftByte(byte: Byte, before: nat, ghost done: seq<bool>) returns (remain: nat)
    requires before == Value(Register(done))
    ensures remain == Value(Register(done + ByteBits(byte)))
  {
    hide Value, XorN, Register, Pow2, ByteBits, Low16;
    remain := before;
    var mask := 0x80;
    ghost var k := 0;
    assert done + ByteBits(byte)[..0] == done;
    Pow2Values();
    while mask > 0
      invariant 0 <= k <= 8 && mask == (if k == 8 then 0 else Pow2(7 - k))
      invariant remain == Value(Register(done + ByteBits(byte)[..k]))
      decreases mask
    {
      ghost var bit := (byte / mask) % 2 == 1;
      BitAt(byte, k);
      StepValue(Register(done + ByteBits(byte)[..k]), bit);
      RegisterSnoc(done + ByteBits(byte)[..k], bit);
      assert done + ByteBits(byte)[..k] + [bit] == done + ByteBits(byte)[..k + 1];
      remain := remain * 2;
      if (byte / mask) % 2 == 1 {
        remain := remain + 1;
      }
      mask := mask / 2;
      if remain > 0xffff {
        remain := Low16(remain);
        remain := XorN(remain, 0x1021);
      }
      Halved(k);
      k := k + 1;
    }
    assert ByteBits(byte)[..8] == ByteBits(byte);
  }

  /** A key's remainder, or the code of a missing, empty or overlong key. */
  method CrcRemainder(message: seq<Byte>, missing: bool) returns (rc: int)
    ensures missing || message == [] ==> rc == 0 - EINVAL
    ensures !missing && |message| > MAX_KEY ==> rc == 0 - ENAMETOOLONG
    ensures !missing && 0 < |message| <= MAX_KEY ==> rc == Value(Register(MessageBits(message) + Zeros(16))) < 0x10000
  {
    hide Value, XorN, Register, Pow2, ByteBits;
    if missing || |message| == 0 {
      return 0 - EINVAL;
    }
    if |message| > MAX_KEY {
      return 0 - ENAMETOOLONG;
    }
    var padded: seq<Byte> := message + [0, 0];
    var remain: nat := 0;
    EmptyRegister();
    var i := 0;
    while i < |padded|
      invariant i <= |padded|
      invariant remain == Value(Register(MessageBits(padded[..i])))
    {
      remain := ShiftByte(padded[i], remain, MessageBits(padded[..i]));
      assert padded[..i + 1][..i] == padded[..i];
      i := i + 1;
    }
    assert padded[..i] == padded;
    PaddedBits(message);
    ValueBelow(Register(MessageBits(padded)));
    Pow2Values();
    rc := remain;
  }

  lemma EmptyRegister()
    ensures Value(Register([])) == 0
  {
    ZerosValue(16);
  }

  lemma BitAt(x: Byte, k: nat)
    requires k < 8
    ensures ByteBits(x)[k] == ((x / Pow2(7 - k)) % 2 == 1)
  {
  }

  lemma Halved(k: nat)
    requires k < 8
    ensures Pow2(7 - k) / 2 == (if k + 1 == 8 then 0 else Pow2(7 - (k + 1)))
  {
  }

  lemma PaddedBits(m: seq<Byte>)
    ensures MessageBits(m + [0, 0]) == MessageBits(m) + Zeros(16)
  {
    hide ByteBits;
    var p: seq<Byte> := m + [0];
    assert p[..|m|] == m;
    assert (m + [0, 0])[..|m| + 1] == p;
    ZeroByte();
    assert Zeros(16) == Zeros(8) + Zeros(8);
  }

  lemma ZeroByte()
    ensures ByteBits(0) == Zeros(8)
  {
    Pow2Values();
  }

  // ---------- what the remainder means ----------

  /** The eight bits of a byte stand for it. */
  lemma ByteValue(x: Byte)
    ensures Value(ByteBits(x)) == x
  {
    hide ByteBits, Value;
    Pow2Values();
    PrefixValue(x, 8);
    assert ByteBits(x)[..8] == ByteBits(x);
  }

  lemma {:induction false} PrefixValue(x: Byte, k: nat)
    requires k <= 8
    ensures Value(ByteBits(x)[..k]) == x / Pow2(8 - k)
  {
    hide ByteBits, Value;
    Pow2Values();
    if k == 0 {
      assert ByteBits(x)[..0] == Zeros(0);
      ZerosValue(0);
    } else {
      PrefixValue(x, k - 1);
      BitAt(x, k - 1);
      var b := ByteBits(x)[k - 1];
      assert ByteBits(x)[..k] == ByteBits(x)[..k - 1] + [b];
      ValueSnoc(ByteBits(x)[..k - 1], b);
      Halves(x, Pow2(8 - k));
      assert Pow2(8 - (k - 1)) == 2 * Pow2(8 - k);
    }
  }

  lemma Halves(x: nat, p: nat)
    requires p in {1, 2, 4, 8, 16, 32, 64, 128}
    ensures x / p == 2 * (x / (2 * p)) + (x / p) % 2
  {
  }

  function CrcOf(m: seq<Byte>): nat {
    Value(Register(MessageBits(m) + Zeros(16)))
  }

  /** The remainder of a key is that of the direct CRC-16/XMODEM. */
  lemma CrcIsXmodem(m: seq<Byte>)
    ensures CrcOf(m) == Value(Xmodem(MessageBits(m)))
  {
    PaddedIsDirect(MessageBits(m));
  }

  lemma {:induction false} BitsCounted(m: seq<Byte>)
    ensures |MessageBits(m)| == 8 * |m|
    decreases |m|
  {
    if m != [] {
      BitsCounted(m[..|m| - 1]);
    }
  }

  lemma {:induction false} XorBelow(a: nat, b: nat, n: nat)
    requires a < Pow2(n) && b < Pow2(n)
    ensures XorN(a, b) < Pow2(n)
    decreases n
  {
    if n > 0 {
      XorBelow(a / 2, b / 2, n - 1);
    }
  }

  function XorByte(a: Byte, b: Byte): Byte {
    XorBelow(a, b, 8);
    Pow2Values();
    XorN(a, b)
  }

  function XorBytes(m: seq<Byte>, n: seq<Byte>): seq<Byte>
    requires |m| == |n|
  {
    seq(|m|, i requires 0 <= i < |m| => XorByte(m[i], n[i]))
  }

  lemma XorByteBits(a: Byte, b: Byte)
    ensures ByteBits(XorByte(a, b)) == Xor(ByteBits(a), ByteBits(b))
  {
    hide ByteBits, Value, XorN;
    ByteValue(a);
    ByteValue(b);
    ByteValue(XorByte(a, b));
    XorValue(ByteBits(a), ByteBits(b));
    ValueInjective(ByteBits(XorByte(a, b)), Xor(ByteBits(a), ByteBits(b)));
  }

  lemma {:induction false} XorMessageBits(m: seq<Byte>, n: seq<Byte>)
    requires |m| == |n|
    ensures |MessageBits(m)| == |MessageBits(n)|
    ensures MessageBits(XorBytes(m, n)) == Xor(MessageBits(m), MessageBits(n))
    decreases |m|
  {
    hide ByteBits, XorByte;
    BitsCounted(m);
    BitsCounted(n);
    if m == [] {
      assert XorBytes(m, n) == [];
    } else {
      var k := |m| - 1;
      XorMessageBits(m[..k], n[..k]);
      assert XorBytes(m, n)[..k] == XorBytes(m[..k], n[..k]);
      XorByteBits(m[k], n[k]);
      XorAppend(MessageBits(m[..k]), ByteBits(m[k]), MessageBits(n[..k]), ByteBits(n[k]));
    }
  }

  lemma XorAppend(a: seq<bool>, b: seq<bool>, c: seq<bool>, d: seq<bool>)
    requires |a| == |c| && |b| == |d|
    ensures Xor(a + b, c + d) == Xor(a, c) + Xor(b, d)
  {
  }

  /** The remainder of the bitwise sum of two keys of one length is the sum of their remainders. */
  lemma CrcLinear(m: seq<Byte>, n: seq<Byte>)
    requires |m| == |n|
    ensures CrcOf(XorBytes(m, n)) == XorN(CrcOf(m), CrcOf(n))
  {
    hide MessageBits, Value, XorN, Register, XorBytes;
    XorMessageBits(m, n);
    var a, b := MessageBits(m), MessageBits(n);
    assert Xor(Zeros(16), Zeros(16)) == Zeros(16);
    XorAppend(a, Zeros(16), b, Zeros(16));
    RegisterLinear(a + Zeros(16), b + Zeros(16));
    XorValue(Register(a + Zeros(16)), Register(b + Zeros(16)));
  }

  /** The unsigned 16-bit value of an int. */
  function ToUint16(n: int): nat {
    n % 0x10000
  }

  /** x & 0x3FFF. */
  function LowBits(n: nat): nat {
    n % (SLOT_MASK + 1)
  }

  /** The slot of a key. An error code is hashed like a remainder: a missing or empty key has slot 16362. */
  method Hash(key: seq<Byte>, missing: bool) returns (slot: nat)
    ensures slot < 16384
    ensures !missing && 0 < |key| <= MAX_KEY ==> slot == Value(Xmodem(MessageBits(key))) % 16384
    ensures missing || key == [] ==> slot == 16362
    ensures !missing && |key| > MAX_KEY ==> slot == 16348
  {
    hide Value, Xmodem, MessageBits, Register;
    var rc := CrcRemainder(key, missing);
    CrcIsXmodem(key);
    slot := LowBits(ToUint16(rc));
  }
}
