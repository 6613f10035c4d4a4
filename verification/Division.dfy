/**
 What the checksum is: the remainder of the message, as a polynomial over the integers
 modulo two, on division by x^16 + x^15 + x^2 + 1. Coefficients are written highest first.
 */
module Division {
  import opened Basics
  import Crc

  type Poly = seq<bool>

  const DEGREE: nat := 16

  /** x^16 + x^15 + x^2 + 1: the coefficient of x^k is at place 16 - k. */
  function Generator(): (g: Poly)
    ensures |g| == DEGREE + 1
  {
    seq(DEGREE + 1, i => i == 16 - 16 || i == 16 - 15 || i == 16 - 2 || i == 16 - 0)
  }

  function Zeros(n: nat): Poly {
    seq(n, _ => false)
  }

  /** Addition, which is subtraction. */
  function Add(p: Poly, q: Poly): (r: Poly)
    requires |p| == |q|
    ensures |r| == |p|
  {
    seq(|p|, i requires 0 <= i < |p| => p[i] != q[i])
  }

  /** The generator times `b x^n`. */
  function Shifted(b: bool, n: nat): (p: Poly)
    ensures |p| == DEGREE + 1 + n
  {
    if b then Generator() + Zeros(n) else Zeros(DEGREE + 1 + n)
  }

  /** `q` times the generator. */
  function Times(q: Poly): (p: Poly)
    ensures |p| == |q| + DEGREE
  {
    if q == [] then Zeros(DEGREE) else Add(Shifted(q[0], |q| - 1), [false] + Times(q[1..]))
  }

  /** The generator, shifted up to cancel the leading coefficient of `p`. */
  function Lead(p: Poly): (l: Poly)
    requires |p| > DEGREE
    ensures |l| == |p|
  {
    Shifted(p[0], |p| - DEGREE - 1)
  }

  /** Long division, one coefficient of the quotient at a time. */
  function Remainder(p: Poly): (r: Poly)
    requires |p| >= DEGREE
    ensures |r| == DEGREE
    decreases |p|
  {
    if |p| == DEGREE then p else Remainder(Add(p, Lead(p))[1..])
  }

  function Quotient(p: Poly): (q: Poly)
    requires |p| >= DEGREE
    ensures |q| == |p| - DEGREE
    decreases |p|
  {
    if |p| == DEGREE then [] else [p[0]] + Quotient(Add(p, Lead(p))[1..])
  }

  // ----- Long division finds the remainder -----

  /** `p` is `q` times the generator, plus `r`. */
  ghost predicate Divides(p: Poly, q: Poly, r: Poly) {
    |r| == DEGREE && |p| == |q| + DEGREE && p == Add(Times(q), Zeros(|q|) + r)
  }

  lemma TimesMore(b: bool, q: Poly)
    ensures Times([b] + q) == Add(Shifted(b, |q|), [false] + Times(q))
  {
    var more := [b] + q;
    assert more != [] && more[0] == b && more[1..] == q && |more| - 1 == |q|;
  }

  /** Adding `lead` cancels the leading coefficient, and nothing else is lost. */
  lemma Cancels(p: Poly, lead: Poly, times: Poly, low: Poly)
    requires |p| == |lead| == |times| + 1 && |times| == |low|
    ensures p == Add(Add(lead, [false] + times), [false] + low) <==>
      p[0] == lead[0] && Add(p, lead)[1..] == Add(times, low)
  {
    var sum := Add(Add(lead, [false] + times), [false] + low);
    if p == sum {
      assert p[0] == lead[0];
      forall i | 0 <= i < |times| ensures Add(p, lead)[1..][i] == Add(times, low)[i] {
        assert p[i + 1] == sum[i + 1];
      }
    }
    if p[0] == lead[0] && Add(p, lead)[1..] == Add(times, low) {
      forall i | 0 <= i < |p| ensures p[i] == sum[i] {
        if i > 0 {
          assert Add(p, lead)[1..][i - 1] == Add(times, low)[i - 1];
        }
      }
    }
  }

  lemma ZerosMore(n: nat, r: Poly)
    ensures Zeros(n + 1) + r == [false] + (Zeros(n) + r)
  {
  }

  lemma LeadsWith(b: bool, n: nat)
    ensures Shifted(b, n)[0] == b
  {
  }

  /** One step of long division, done and undone. */
  lemma DivisionStep(p: Poly, b: bool, q: Poly, r: Poly)
    requires |p| > DEGREE && |p| == |q| + 1 + DEGREE && |r| == DEGREE
    ensures Divides(p, [b] + q, r) <==> b == p[0] && Divides(Add(p, Lead(p))[1..], q, r)
  {
    TimesMore(b, q);
    ZerosMore(|q|, r);
    LeadsWith(b, |q|);
    Cancels(p, Shifted(b, |q|), Times(q), Zeros(|q|) + r);
  }

  lemma {:induction false} DivisionIsExact(p: Poly)
    requires |p| >= DEGREE
    ensures Divides(p, Quotient(p), Remainder(p))
    decreases |p|
  {
    if |p| > DEGREE {
      var rest := Add(p, Lead(p))[1..];
      DivisionIsExact(rest);
      DivisionStep(p, p[0], Quotient(rest), Remainder(rest));
    } else {
      assert p == Add(Times([]), Zeros(0) + p);
    }
  }

  /** A remainder is unique: no nonzero multiple of the generator has a degree below its own. */
  lemma {:induction false} RemainderIsUnique(p: Poly, q: Poly, r: Poly)
    requires Divides(p, q, r)
    ensures r == Remainder(p)
    decreases |p|
  {
    if q == [] {
      assert Add(Times([]), Zeros(0) + r) == r;
    } else {
      assert q == [q[0]] + q[1..];
      DivisionStep(p, q[0], q[1..], r);
      RemainderIsUnique(Add(p, Lead(p))[1..], q[1..], r);
    }
  }

  /** `Remainder` is the remainder: it is what is left, below the generator's degree, of a multiple of it. */
  lemma RemainderExactly(p: Poly, r: Poly)
    requires |p| >= DEGREE
    ensures r == Remainder(p) <==> exists q :: Divides(p, q, r)
  {
    DivisionIsExact(p);
    if q :| Divides(p, q, r) {
      RemainderIsUnique(p, q, r);
    }
  }

  // ----- Laws of remainders -----

  lemma {:induction false} RemainderAdds(p: Poly, q: Poly)
    requires |p| == |q| >= DEGREE
    ensures Remainder(Add(p, q)) == Add(Remainder(p), Remainder(q))
    decreases |p|
  {
    if |p| > DEGREE {
      var s := Add(p, q);
      var t, u := Add(p, Lead(p))[1..], Add(q, Lead(q))[1..];
      assert Add(s, Lead(s))[1..] == Add(t, u);
      RemainderAdds(t, u);
    }
  }

  lemma {:induction false} RemainderOfZeros(n: nat, p: Poly)
    requires |p| >= DEGREE
    ensures Remainder(Zeros(n) + p) == Remainder(p)
  {
    if n == 0 {
      assert Zeros(0) + p == p;
    } else {
      var s := Zeros(n) + p;
      assert Add(s, Lead(s))[1..] == Zeros(n - 1) + p;
      RemainderOfZeros(n - 1, p);
    }
  }

  /** What comes after may as well be divided later. */
  lemma {:induction false} RemainderLater(p: Poly, t: Poly)
    requires |p| >= DEGREE
    ensures Remainder(p + t) == Remainder(Remainder(p) + t)
    decreases |p|
  {
    if |p| > DEGREE {
      var rest := Add(p, Lead(p))[1..];
      var s := p + t;
      assert Add(s, Lead(s))[1..] == rest + t;
      RemainderLater(rest, t);
    }
  }

  // ----- Registers and messages as polynomials -----

  /** Bit `k` of the register. */
  predicate Bit(c: bv16, k: nat) {
    Crc.LowBit(Crc.Iterate(Crc.Half, c, k))
  }

  /** The register, reflected: its lowest bit is the highest coefficient. */
  function Register(c: bv16): (p: Poly)
    ensures |p| == DEGREE
  {
    seq(DEGREE, k requires 0 <= k < DEGREE => Bit(c, k))
  }

  /** The byte, reflected. */
  function Octet(b: Byte): (p: Poly)
    ensures |p| == 8
  {
    Register(b as bv16)[..8]
  }

  /** The message, each byte reflected, in the order of transmission. */
  function Message(data: seq<Byte>): Poly {
    if data == [] then [] else Message(data[..|data| - 1]) + Octet(data[|data| - 1])
  }

  // ----- The checksum is the remainder -----

  lemma NoHighBits(c: bv16, k: nat, n: nat)
    requires n == 8 && k >= n + n
    ensures Crc.Iterate(Crc.Half, c, k) == 0
  {
    Crc.HalvesToZero(c, n);
    ZeroHalves(k - (n + n));
    Crc.IterateSplit(Crc.Half, c, n + n, k - (n + n));
  }

  lemma {:induction false} ZeroHalves(n: nat)
    ensures Crc.Iterate(Crc.Half, 0, n) == 0
  {
    if n > 0 {
      ZeroHalves(n - 1);
    }
  }

  lemma ShiftedRegister(c: bv16)
    ensures Register(Crc.Half(c)) == Register(c)[1..] + Zeros(1)
  {
    forall k: nat | k < DEGREE ensures Bit(Crc.Half(c), k) == (Register(c)[1..] + Zeros(1))[k] {
      Crc.IterateFirst(Crc.Half, c, k);
      assert Bit(Crc.Half(c), k) == Bit(c, k + 1);
      if k == DEGREE - 1 {
        NoHighBits(c, k + 1, 8);
      }
    }
  }

  lemma LowBitXor(c: bv16, d: bv16)
    ensures Crc.LowBit(c ^ d) == (Crc.LowBit(c) != Crc.LowBit(d))
  {
  }

  lemma HalfXor(c: bv16, d: bv16)
    ensures Crc.Half(c ^ d) == Crc.Half(c) ^ Crc.Half(d)
  {
  }

  lemma XoredBit(c: bv16, d: bv16, k: nat)
    ensures Bit(Crc.Plus(c, d), k) == (Bit(c, k) != Bit(d, k))
  {
    forall x, y ensures Crc.Half(Crc.Plus(x, y)) == Crc.Plus(Crc.Half(x), Crc.Half(y)) {
      HalfXor(x, y);
    }
    Crc.IterateHomomorphism(Crc.Half, Crc.Plus, c, d, k);
    LowBitXor(Crc.Iterate(Crc.Half, c, k), Crc.Iterate(Crc.Half, d, k));
  }

  lemma XoredRegister(c: bv16, d: bv16)
    ensures Register(Crc.Plus(c, d)) == Add(Register(c), Register(d))
  {
    forall k: nat | k < DEGREE ensures Bit(Crc.Plus(c, d), k) == (Bit(c, k) != Bit(d, k)) {
      XoredBit(c, d, k);
    }
  }

  lemma ConstantHalves(n: nat)
    requires n == 1
    ensures Crc.Iterate(Crc.Half, 0xA001, n) == 0x5000 && Crc.Iterate(Crc.Half, 0xA001, n + 1) == 0x2800
    ensures Crc.Iterate(Crc.Half, 0xA001, n + 2) == 0x1400 && Crc.Iterate(Crc.Half, 0xA001, n + 3) == 0xA00
    ensures Crc.Iterate(Crc.Half, 0xA001, n + 4) == 0x500 && Crc.Iterate(Crc.Half, 0xA001, n + 5) == 0x280
    ensures Crc.Iterate(Crc.Half, 0xA001, n + 6) == 0x140 && Crc.Iterate(Crc.Half, 0xA001, n + 7) == 0xA0
    ensures Crc.Iterate(Crc.Half, 0xA001, n + 8) == 0x50 && Crc.Iterate(Crc.Half, 0xA001, n + 9) == 0x28
    ensures Crc.Iterate(Crc.Half, 0xA001, n + 10) == 0x14 && Crc.Iterate(Crc.Half, 0xA001, n + 11) == 0xA
    ensures Crc.Iterate(Crc.Half, 0xA001, n + 12) == 0x5 && Crc.Iterate(Crc.Half, 0xA001, n + 13) == 0x2
    ensures Crc.Iterate(Crc.Half, 0xA001, n + 14) == 0x1
  {
    assert Crc.Iterate(Crc.Half, 0xA001, n - 1) == 0xA001;
  }

  lemma SetBit(c: bv16, k: nat, x: bv16)
    requires Crc.Iterate(Crc.Half, c, k) == x
    ensures Bit(c, k) <==> Crc.LowBit(x)
  {
  }

  lemma LowBitsOfHalves()
    ensures Crc.LowBit(0xA001) && Crc.LowBit(0x5) && Crc.LowBit(0x1)
    ensures !Crc.LowBit(0x5000) && !Crc.LowBit(0x2800) && !Crc.LowBit(0x1400) && !Crc.LowBit(0xA00)
    ensures !Crc.LowBit(0x280) && !Crc.LowBit(0x140) && !Crc.LowBit(0xA0)
    ensures !Crc.LowBit(0x50) && !Crc.LowBit(0x28) && !Crc.LowBit(0x14) && !Crc.LowBit(0xA) && !Crc.LowBit(0x2)
    ensures !Crc.LowBit(0x500)
  {
  }

  lemma ConstantBits()
    ensures forall k: nat :: k < DEGREE ==> (Bit(0xA001, k) <==> k == 0 || k == 13 || k == 15)
  {
    ConstantHalves(1);
    LowBitsOfHalves();
    SetBit(0xA001, 0, 0xA001);
    SetBit(0xA001, 1, 0x5000);
    SetBit(0xA001, 2, 0x2800);
    SetBit(0xA001, 3, 0x1400);
    SetBit(0xA001, 4, 0xA00);
    SetBit(0xA001, 5, 0x500);
    SetBit(0xA001, 6, 0x280);
    SetBit(0xA001, 7, 0x140);
    SetBit(0xA001, 8, 0xA0);
    SetBit(0xA001, 9, 0x50);
    SetBit(0xA001, 10, 0x28);
    SetBit(0xA001, 11, 0x14);
    SetBit(0xA001, 12, 0xA);
    SetBit(0xA001, 13, 0x5);
    SetBit(0xA001, 14, 0x2);
    SetBit(0xA001, 15, 0x1);
  }

  /** The constant that a shift subtracts is the generator without its leading term, reflected. */
  lemma ReflectedGenerator()
    ensures Register(0xA001) == Generator()[1..]
  {
    ConstantBits();
    forall k: nat | k < DEGREE ensures Register(0xA001)[k] == Generator()[1..][k] {
      assert Register(0xA001)[k] == Bit(0xA001, k);
    }
  }

  /** One shift of the register is one step of the division. */
  lemma ShiftDivides(c: bv16)
    ensures Register(Crc.ShiftBit(c)) == Remainder(Register(c) + Zeros(1))
  {
    var p := Register(c) + Zeros(1);
    ShiftedRegister(c);
    assert p[1..] == Register(c)[1..] + Zeros(1);
    XoredRegister(Crc.Half(c), 0xA001);
    ReflectedGenerator();
    LeadSubtracted(p);
    ShiftChooses(c);
    assert p[0] == Bit(c, 0);
  }

  lemma LeadSubtracted(p: Poly)
    requires |p| == DEGREE + 1
    ensures Remainder(p) == if p[0] then Add(p[1..], Generator()[1..]) else p[1..]
  {
    assert Add(p, Lead(p))[1..] == if p[0] then Add(p[1..], Generator()[1..]) else p[1..];
  }

  lemma ShiftChooses(c: bv16)
    ensures Crc.ShiftBit(c) == if Bit(c, 0) then Crc.Plus(Crc.Half(c), 0xA001) else Crc.Half(c)
  {
    assert Bit(c, 0) == Crc.LowBit(c);
    LowBitSet(c);
  }

  lemma LowBitSet(c: bv16)
    ensures Crc.LowBit(c) <==> c & 1 != 0
  {
  }

  lemma {:induction false} ShiftsDivide(c: bv16, n: nat)
    ensures Register(Crc.Iterate(Crc.ShiftBit, c, n)) == Remainder(Register(c) + Zeros(n))
  {
    if n == 0 {
      assert Register(c) + Zeros(0) == Register(c);
    } else {
      var d := Crc.Iterate(Crc.ShiftBit, c, n - 1);
      ShiftsDivide(c, n - 1);
      ShiftDivides(d);
      assert Register(c) + Zeros(n) == (Register(c) + Zeros(n - 1)) + Zeros(1);
      RemainderLater(Register(c) + Zeros(n - 1), Zeros(1));
    }
  }

  lemma ByteHasEight(b: Byte)
    ensures (b as bv16) >> 8 == 0
  {
  }

  lemma HighOctet(b: Byte, k: nat, n: nat)
    requires n == 8 && k >= n
    ensures !Bit(b as bv16, k)
  {
    Crc.IterateSplit(Crc.Half, b as bv16, n, k - n);
    Crc.IterateEight(Crc.Half, b as bv16, n);
    Crc.HalfEight(b as bv16);
    ByteHasEight(b);
    ZeroHalves(k - n);
    LowBitSet(0);
  }

  lemma ByteBits(c: bv16, b: Byte)
    ensures Register(Crc.Plus(c, b as bv16)) == Add(Register(c), Octet(b) + Zeros(8))
  {
    forall k: nat | k < DEGREE ensures Register(b as bv16)[k] == (Octet(b) + Zeros(8))[k] {
      if k >= 8 {
        HighOctet(b, k, 8);
      }
    }
    assert Register(b as bv16) == Octet(b) + Zeros(8);
    XoredRegister(c, b as bv16);
  }

  /** The message followed by as many zeros as the checksum has bits. */
  function Augmented(data: seq<Byte>): (p: Poly)
    ensures |p| >= DEGREE
  {
    Message(data) + Zeros(DEGREE)
  }

  /** One more byte of the message. */
  lemma ByteDivides(m: Poly, bits: Poly)
    requires |bits| == 8
    ensures Remainder(m + bits + Zeros(DEGREE)) ==
      Remainder(Add(Remainder(m + Zeros(DEGREE)), bits + Zeros(8)) + Zeros(8))
  {
    var r, high := Remainder(m + Zeros(DEGREE)), bits + Zeros(8);
    var before := m + Zeros(DEGREE) + Zeros(8);
    assert m + bits + Zeros(DEGREE) == Add(before, Zeros(|m|) + (high + Zeros(8)));
    RemainderAdds(before, Zeros(|m|) + (high + Zeros(8)));
    RemainderOfZeros(|m|, high + Zeros(8));
    RemainderLater(m + Zeros(DEGREE), Zeros(8));
    RemainderAdds(r + Zeros(8), high + Zeros(8));
    assert Add(r + Zeros(8), high + Zeros(8)) == Add(r, high) + Zeros(8);
  }

  /** Feeding a byte to the register continues the division. */
  lemma FeedDivides(c: bv16, b: Byte, n: nat)
    requires n == 8
    ensures Register(Crc.FeedBits(c, b, n)) == Remainder(Add(Register(c), Octet(b) + Zeros(8)) + Zeros(n))
  {
    ByteBits(c, b);
    ShiftsDivide(Crc.Plus(c, b as bv16), n);
  }

  lemma AugmentedMore(body: seq<Byte>, b: Byte)
    ensures Augmented(body + [b]) == Message(body) + Octet(b) + Zeros(DEGREE)
  {
    assert (body + [b])[..|body|] == body;
  }

  lemma EmptyRegister()
    ensures Register(0) == Zeros(DEGREE)
  {
    forall k: nat | k < DEGREE ensures !Bit(0, k) {
      ZeroHalves(k);
      LowBitSet(0);
    }
  }

  /**
   The checksum, reflected, is the remainder of the reflected message times x^16 on division
   by x^16 + x^15 + x^2 + 1.
   */
  lemma {:induction false} ChecksumIsRemainder(data: seq<Byte>)
    ensures Register(Crc.Crc16(data)) == Remainder(Augmented(data))
  {
    if data == [] {
      EmptyRegister();
      assert Augmented(data) == Zeros(DEGREE);
    } else {
      var body, b := data[..|data| - 1], data[|data| - 1];
      ChecksumIsRemainder(body);
      assert data == body + [b];
      Crc.Crc16Append(body, b);
      AugmentedMore(body, b);
      ByteDivides(Message(body), Octet(b));
      FeedDivides(Crc.Crc16(body), b, Crc.BITS);
    }
  }

  /** The checksum is the one register with that remainder. */
  lemma ChecksumExactly(data: seq<Byte>, c: bv16)
    ensures c == Crc.Crc16(data) <==> exists q :: Divides(Augmented(data), q, Register(c))
  {
    ChecksumIsRemainder(data);
    RemainderExactly(Augmented(data), Register(c));
    if Register(c) == Register(Crc.Crc16(data)) {
      RegisterInjective(c, Crc.Crc16(data));
    }
  }

  lemma HalfIsZero(c: bv16)
    requires Crc.Half(c) == 0 && !Crc.LowBit(c)
    ensures c == 0
  {
  }

  /** A register whose bits from `k` on are clear has been shifted out after `k` steps. */
  lemma {:induction false} ClearFrom(c: bv16, k: nat)
    requires k <= DEGREE && forall j: nat :: k <= j < DEGREE ==> !Bit(c, j)
    ensures Crc.Iterate(Crc.Half, c, k) == 0
    decreases DEGREE - k
  {
    if k == DEGREE {
      NoHighBits(c, k, 8);
    } else {
      ClearFrom(c, k + 1);
      assert !Bit(c, k);
      HalfIsZero(Crc.Iterate(Crc.Half, c, k));
    }
  }

  lemma XorIsZero(c: bv16, d: bv16)
    requires Crc.Plus(c, d) == 0
    ensures c == d
  {
  }

  lemma RegisterInjective(c: bv16, d: bv16)
    requires Register(c) == Register(d)
    ensures c == d
  {
    var e := Crc.Plus(c, d);
    forall j: nat | j < DEGREE ensures !Bit(e, j) {
      XoredBit(c, d, j);
      assert Register(c)[j] == Register(d)[j];
    }
    ClearFrom(e, 0);
    XorIsZero(c, d);
  }

  // ----- Check values -----

  function EightShifts(c: bv16): bv16 {
    Crc.ShiftBit(Crc.ShiftBit(Crc.ShiftBit(Crc.ShiftBit(
      Crc.ShiftBit(Crc.ShiftBit(Crc.ShiftBit(Crc.ShiftBit(c))))))))
  }

  lemma FeedOf(c: bv16, b: Byte, n: nat)
    requires n == 8
    ensures Crc.FeedBits(c, b, n) == EightShifts(c ^ (b as bv16))
  {
    Crc.IterateEight(Crc.ShiftBit, c ^ (b as bv16), n);
  }

  lemma OneMore(message: seq<Byte>, body: seq<Byte>, b: Byte, c: bv16, d: bv16)
    requires message == body + [b] && Crc.Crc16(body) == c && EightShifts(c ^ (b as bv16)) == d
    ensures Crc.Crc16(message) == d
  {
    Crc.Crc16Append(body, b);
    FeedOf(c, b, Crc.BITS);
  }

  lemma CheckShifts()
    ensures EightShifts(0x0000 ^ 0x31) == 0xD4C1 && EightShifts(0xD4C1 ^ 0x32) == 0x4594
    ensures EightShifts(0x4594 ^ 0x33) == 0xBA04 && EightShifts(0xBA04 ^ 0x34) == 0x14BA
    ensures EightShifts(0x14BA ^ 0x35) == 0xA455 && EightShifts(0xA455 ^ 0x36) == 0x29E4
    ensures EightShifts(0x29E4 ^ 0x37) == 0x9D68 && EightShifts(0x9D68 ^ 0x38) == 0x3C9D
    ensures EightShifts(0x3C9D ^ 0x39) == 0xBB3D
  {
  }

  /** The published check value of CRC-16/ARC: "123456789" gives 0xBB3D. */
  lemma CheckValue()
    ensures Crc.Crc16([0x31, 0x32, 0x33, 0x34, 0x35, 0x36, 0x37, 0x38, 0x39]) == 0xBB3D
  {
    CheckShifts();
    var m: seq<Byte> := [0x31, 0x32, 0x33, 0x34, 0x35, 0x36, 0x37, 0x38, 0x39];
    OneMore(m[..1], m[..0], 0x31, 0x0000, 0xD4C1);
    OneMore(m[..2], m[..1], 0x32, 0xD4C1, 0x4594);
    OneMore(m[..3], m[..2], 0x33, 0x4594, 0xBA04);
    OneMore(m[..4], m[..3], 0x34, 0xBA04, 0x14BA);
    OneMore(m[..5], m[..4], 0x35, 0x14BA, 0xA455);
    OneMore(m[..6], m[..5], 0x36, 0xA455, 0x29E4);
    OneMore(m[..7], m[..6], 0x37, 0x29E4, 0x9D68);
    OneMore(m[..8], m[..7], 0x38, 0x9D68, 0x3C9D);
    OneMore(m, m[..8], 0x39, 0x3C9D, 0xBB3D);
  }
}
