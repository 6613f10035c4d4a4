/**
 CRC-16/ARC as bus/frame.go computes it, and the error-detection laws that make
 it worth carrying on the wire.
 */
module Crc {
  import opened Basics

  // ----- Specification -----

  /** One bit of the reflected polynomial division (0xA001 is 0x8005 reversed). */
  function ShiftBit(crc: bv16): bv16 {
    if crc & 1 != 0 then (crc >> 1) ^ 0xA001 else crc >> 1
  }

  /** `n` applications of `f`. */
  function Iterate<T>(f: T -> T, x: T, n: nat): T {
    if n == 0 then x else f(Iterate(f, x, n - 1))
  }

  function FeedBits(crc: bv16, b: Byte, n: nat): bv16 {
    Iterate(ShiftBit, crc ^ (b as bv16), n)
  }

  /** A byte is fed as this many single-bit shifts. */
  const BITS: nat := 8

  /** The register after one more byte. */
  function Feed(crc: bv16, b: Byte): bv16 {
    FeedBits(crc, b, BITS)
  }

  /** The state after all of `data`, when one element takes it through `step`. */
  function Fold<S, B>(step: (S, B) -> S, s: S, data: seq<B>): S {
    if data == [] then s else step(Fold(step, s, data[..|data| - 1]), data[|data| - 1])
  }

  function Crc16(data: seq<Byte>): bv16 {
    Fold(Feed, 0, data)
  }

  // ----- Implementation -----

  method Crc16Arc(data: seq<Byte>) returns (crc: bv16)
    ensures crc == Crc16(data)
  {
    crc := 0;
    for k := 0 to |data|
      invariant crc == Crc16(data[..k])
    {
      crc := FeedByte(crc, data[k]);
      assert data[..k + 1][..k] == data[..k];
    }
    assert data[..|data|] == data;
  }

  /** The inner loop of `crc16ARC`. */
  method FeedByte(register: bv16, b: Byte) returns (crc: bv16)
    ensures crc == Feed(register, b)
  {
    crc := register ^ (b as bv16);
    for i := 0 to BITS
      invariant crc == FeedBits(register, b, i)
    {
      if crc & 1 != 0 {
        crc := (crc >> 1) ^ 0xA001;
      } else {
        crc := crc >> 1;
      }
    }
  }

  // ----- Linearity -----

  ghost predicate Homomorphism<T(!new)>(f: T -> T, op: (T, T) -> T) {
    forall x, y {:trigger f(op(x, y))} :: f(op(x, y)) == op(f(x), f(y))
  }

  lemma {:induction false} IterateHomomorphism<T(!new)>(f: T -> T, op: (T, T) -> T, a: T, b: T, n: nat)
    requires Homomorphism(f, op)
    ensures Iterate(f, op(a, b), n) == op(Iterate(f, a, n), Iterate(f, b, n))
  {
    if n > 0 {
      IterateHomomorphism(f, op, a, b, n - 1);
    }
  }

  function ZipWith<B>(op: (B, B) -> B, a: seq<B>, b: seq<B>): (r: seq<B>)
    requires |a| == |b|
    ensures |r| == |a|
  {
    seq(|a|, i requires 0 <= i < |a| => op(a[i], b[i]))
  }

  ghost predicate StepHomomorphism<S(!new), B(!new)>(step: (S, B) -> S, opS: (S, S) -> S, opB: (B, B) -> B) {
    forall p, q, x, y {:trigger step(opS(p, q), opB(x, y))} ::
      step(opS(p, q), opB(x, y)) == opS(step(p, x), step(q, y))
  }

  lemma {:induction false} FoldHomomorphism<S(!new), B(!new)>(
    step: (S, B) -> S, opS: (S, S) -> S, opB: (B, B) -> B, c: S, d: S, a: seq<B>, b: seq<B>)
    requires |a| == |b|
    requires StepHomomorphism(step, opS, opB)
    ensures Fold(step, opS(c, d), ZipWith(opB, a, b)) == opS(Fold(step, c, a), Fold(step, d, b))
  {
    if a != [] {
      var n := |a| - 1;
      FoldHomomorphism(step, opS, opB, c, d, a[..n], b[..n]);
      assert ZipWith(opB, a, b)[..n] == ZipWith(opB, a[..n], b[..n]);
    }
  }

  function Plus(x: bv16, y: bv16): bv16 { x ^ y }

  function PlusByte(x: Byte, y: Byte): Byte { x ^ y }

  /** Bytewise exclusive or: `Xor(buf, e)` is `buf` with the bits set in `e` flipped. */
  function Xor(a: seq<Byte>, b: seq<Byte>): (r: seq<Byte>)
    requires |a| == |b|
    ensures |r| == |a|
  {
    ZipWith(PlusByte, a, b)
  }

  lemma XorRegroup(x: bv16, y: bv16, k: bv16)
    ensures x ^ y == (x ^ k) ^ (y ^ k)
    ensures (x ^ y) ^ k == (x ^ k) ^ y == x ^ (y ^ k)
  {
  }

  lemma XorBits(a: bv16, b: bv16)
    ensures (a ^ b) >> 1 == (a >> 1) ^ (b >> 1)
    ensures (a ^ b) & 1 == (a & 1) ^ (b & 1)
    ensures a & 1 == 0 || a & 1 == 1
  {
  }

  lemma XorBytes(c: bv16, d: bv16, x: Byte, y: Byte)
    ensures (c ^ d) ^ ((x ^ y) as bv16) == (c ^ (x as bv16)) ^ (d ^ (y as bv16))
  {
  }

  lemma ShiftBitLinear(a: bv16, b: bv16)
    ensures ShiftBit(a ^ b) == ShiftBit(a) ^ ShiftBit(b)
  {
    XorBits(a, b);
    XorBits(b, a);
    XorRegroup(a >> 1, b >> 1, 0xA001);
  }

  lemma FeedBitsLinear(c: bv16, d: bv16, x: Byte, y: Byte, n: nat)
    ensures FeedBits(Plus(c, d), PlusByte(x, y), n) == Plus(FeedBits(c, x, n), FeedBits(d, y, n))
  {
    forall p, q ensures ShiftBit(Plus(p, q)) == Plus(ShiftBit(p), ShiftBit(q)) {
      ShiftBitLinear(p, q);
    }
    XorBytes(c, d, x, y);
    IterateHomomorphism(ShiftBit, Plus, c ^ (x as bv16), d ^ (y as bv16), n);
  }

  /** The checksum is XOR-linear on strings of equal length. */
  lemma Crc16Linear(a: seq<Byte>, b: seq<Byte>)
    requires |a| == |b|
    ensures Crc16(Xor(a, b)) == Crc16(a) ^ Crc16(b)
  {
    forall p, q, x, y ensures Feed(Plus(p, q), PlusByte(x, y)) == Plus(Feed(p, x), Feed(q, y)) {
      FeedBitsLinear(p, q, x, y, BITS);
    }
    FoldHomomorphism(Feed, Plus, PlusByte, 0, 0, a, b);
  }

  // ----- Feeding a byte loses nothing -----

  ghost predicate Injective<T(!new)>(f: T -> T) {
    forall x, y :: f(x) == f(y) ==> x == y
  }

  lemma {:induction false} IterateInjective<T(!new)>(f: T -> T, a: T, b: T, n: nat)
    requires Injective(f)
    requires Iterate(f, a, n) == Iterate(f, b, n)
    ensures a == b
  {
    if n > 0 {
      IterateInjective(f, a, b, n - 1);
    }
  }

  lemma IterateHitsOnce<T(!new)>(f: T -> T, a: T, b: T, y: T, n: nat)
    requires Injective(f) && Iterate(f, b, n) == y
    ensures Iterate(f, a, n) == y <==> a == b
  {
    if Iterate(f, a, n) == y {
      IterateInjective(f, a, b, n);
    }
  }

  lemma ShiftBitInjective(a: bv16, b: bv16)
    requires ShiftBit(a) == ShiftBit(b)
    ensures a == b
  {
  }

  lemma ShiftBitsInjective()
    ensures Injective(ShiftBit)
  {
    forall p, q | ShiftBit(p) == ShiftBit(q) ensures p == q {
      ShiftBitInjective(p, q);
    }
  }

  /** A register from its two bytes. */
  function Word(lo: Byte, hi: Byte): bv16 {
    ((hi as bv16) << 8) ^ (lo as bv16)
  }

  /** The two halves do not overlap, so the wire's `lo | hi << 8` is the same word. */
  lemma WordAsOr(lo: Byte, hi: Byte)
    ensures (lo as bv16) | ((hi as bv16) << 8) == Word(lo, hi)
  {
  }

  lemma IterateEight<T>(f: T -> T, x: T, n: nat)
    requires n == 8
    ensures Iterate(f, x, n) == f(f(f(f(f(f(f(f(x))))))))
  {
    assert Iterate(f, x, n - 7) == f(x);
    assert Iterate(f, x, n - 5) == f(f(f(x)));
    assert Iterate(f, x, n - 3) == f(f(f(f(f(x)))));
    assert Iterate(f, x, n - 1) == f(f(f(f(f(f(f(x)))))));
  }

  lemma ShiftHighByte(hi: Byte)
    ensures ShiftBit(ShiftBit(ShiftBit(ShiftBit(ShiftBit(ShiftBit(ShiftBit(ShiftBit((hi as bv16) << 8))))))))
         == hi as bv16
  {
  }

  /** Eight shifts of a word with an empty low byte move its high byte down. */
  lemma IterateHighByte(hi: Byte, n: nat)
    requires n == 8
    ensures Iterate(ShiftBit, (hi as bv16) << 8, n) == hi as bv16
  {
    IterateEight(ShiftBit, (hi as bv16) << 8, n);
    ShiftHighByte(hi);
  }

  lemma WordXorLow(c: bv16, lo: Byte, hi: Byte)
    ensures c ^ (lo as bv16) == (hi as bv16) << 8 <==> c == ((hi as bv16) << 8) ^ (lo as bv16)
  {
  }

  lemma FeedBitsLow(crc: bv16, lo: Byte, hi: Byte, n: nat)
    requires Iterate(ShiftBit, (hi as bv16) << 8, n) == hi as bv16
    ensures FeedBits(crc, lo, n) == (hi as bv16) <==> crc ^ (lo as bv16) == (hi as bv16) << 8
  {
    ShiftBitsInjective();
    IterateHitsOnce(ShiftBit, crc ^ (lo as bv16), (hi as bv16) << 8, hi as bv16, n);
  }

  /** Feeding a byte yields `hi` exactly when the register was `Word` of the two. */
  lemma FeedLow(crc: bv16, lo: Byte, hi: Byte)
    ensures Feed(crc, lo) == (hi as bv16) <==> crc == Word(lo, hi)
  {
    IterateHighByte(hi, BITS);
    FeedBitsLow(crc, lo, hi, BITS);
    WordXorLow(crc, lo, hi);
  }

  lemma WordZero(lo: Byte, hi: Byte)
    ensures Word(lo, 0) == lo as bv16
    ensures Word(lo, hi) == 0 ==> lo == 0 && hi == 0
  {
  }

  lemma FeedTwoToZero(crc: bv16, lo: Byte, hi: Byte)
    ensures Feed(Feed(crc, lo), hi) == 0 <==> crc == Word(lo, hi)
  {
    WordZero(hi, 0);
    FeedLow(Feed(crc, lo), hi, 0);
    FeedLow(crc, lo, hi);
  }

  lemma Crc16Append(body: seq<Byte>, b: Byte)
    ensures Crc16(body + [b]) == Feed(Crc16(body), b)
  {
    assert (body + [b])[..|body|] == body;
  }

  /**
   Comparing the transmitted checksum with the computed one is the same test as
   asking whether the checksum of the whole buffer, CRC bytes included, is zero.
   */
  lemma ResidueIsZero(body: seq<Byte>, lo: Byte, hi: Byte)
    ensures Crc16(body + [lo, hi]) == 0 <==> Crc16(body) == Word(lo, hi)
  {
    assert body + [lo, hi] == (body + [lo]) + [hi];
    Crc16Append(body, lo);
    Crc16Append(body + [lo], hi);
    FeedTwoToZero(Crc16(body), lo, hi);
  }

  // ----- Odd-weight errors -----

  predicate LowBit(c: bv16) { c & 1 == 1 }

  function Half(c: bv16): bv16 { c >> 1 }

  /** How many of the `n` lowest bits are set, given how to read and drop the lowest. */
  function CountBits<T>(low: T -> bool, half: T -> T, c: T, n: nat): nat {
    if n == 0 then 0 else (if low(c) then 1 else 0) + CountBits(low, half, half(c), n - 1)
  }

  predicate OddBits<T>(low: T -> bool, half: T -> T, c: T, n: nat) {
    n != 0 && low(c) != OddBits(low, half, half(c), n - 1)
  }

  /** How many bits of `b` are set. */
  function Weight(b: Byte): nat {
    CountBits(LowBit, Half, b as bv16, 16)
  }

  function SumOver<B>(f: B -> nat, data: seq<B>): nat {
    if data == [] then 0 else SumOver(f, data[..|data| - 1]) + f(data[|data| - 1])
  }

  /** How many bits of `data` are set. */
  function TotalWeight(data: seq<Byte>): nat {
    SumOver(Weight, data)
  }

  predicate Odd(c: bv16, n: nat) { OddBits(LowBit, Half, c, n) }

  lemma {:induction false} OddBitsMeansOddCount<T>(low: T -> bool, half: T -> T, c: T, n: nat)
    ensures OddBits(low, half, c, n) <==> CountBits(low, half, c, n) % 2 == 1
  {
    if n != 0 {
      OddBitsMeansOddCount(low, half, half(c), n - 1);
    }
  }

  lemma {:induction false} OddBitsXor<T(!new)>(
    low: T -> bool, half: T -> T, op: (T, T) -> T, c: T, d: T, n: nat)
    requires Homomorphism(half, op)
    requires forall x, y {:trigger low(op(x, y))} :: low(op(x, y)) == (low(x) != low(y))
    ensures OddBits(low, half, op(c, d), n) <==> OddBits(low, half, c, n) != OddBits(low, half, d, n)
  {
    if n != 0 {
      OddBitsXor(low, half, op, half(c), half(d), n - 1);
    }
  }

  lemma {:induction false} OddBitsOneMore<T>(low: T -> bool, half: T -> T, c: T, n: nat)
    ensures OddBits(low, half, c, n + 1) == (OddBits(low, half, c, n) != low(Iterate(half, c, n)))
  {
    if n != 0 {
      OddBitsOneMore(low, half, half(c), n - 1);
      IterateFirst(half, c, n - 1);
    }
  }

  lemma {:induction false} IterateFirst<T>(f: T -> T, x: T, n: nat)
    ensures Iterate(f, f(x), n) == f(Iterate(f, x, n))
  {
    if n != 0 {
      IterateFirst(f, x, n - 1);
    }
  }

  lemma OddXor(c: bv16, d: bv16, n: nat)
    ensures Odd(c ^ d, n) <==> Odd(c, n) != Odd(d, n)
  {
    OddBitsXor(LowBit, Half, Plus, c, d, n);
  }

  lemma {:induction false} IterateSplit<T>(f: T -> T, x: T, m: nat, n: nat)
    ensures Iterate(f, x, m + n) == Iterate(f, Iterate(f, x, m), n)
  {
    if n != 0 {
      IterateSplit(f, x, m, n - 1);
    }
  }

  lemma HalfEight(c: bv16)
    ensures Half(Half(Half(Half(Half(Half(Half(Half(c)))))))) == c >> 8
  {
  }

  lemma HalvesToZero(c: bv16, n: nat)
    requires n == 8
    ensures Iterate(Half, c, n + n) == 0
  {
    IterateSplit(Half, c, n, n);
    IterateEight(Half, c, n);
    HalfEight(c);
    IterateEight(Half, c >> 8, n);
    HalfEight(c >> 8);
  }

  /** Dropping the lowest bit changes the parity exactly when that bit was set. */
  lemma OddHalf(c: bv16, n: nat)
    requires n == 16
    ensures Odd(c, n) <==> LowBit(c) != Odd(Half(c), n)
  {
    HalvesToZero(c, 8);
    OddBitsOneMore(LowBit, Half, c, n);
  }

  lemma {:induction false} OddZero(n: nat)
    ensures !Odd(0, n)
  {
    if n != 0 {
      OddZero(n - 1);
    }
  }

  lemma OddPolynomial(n: nat)
    requires n == 16
    ensures Odd(0xA001, n)
  {
    OddZero(n - 16);
    assert Odd(0x1, n - 15);
    assert Odd(0x2, n - 14);
    assert !Odd(0x5, n - 13);
    assert !Odd(0xA, n - 12);
    assert !Odd(0x14, n - 11);
    assert !Odd(0x28, n - 10);
    assert !Odd(0x50, n - 9);
    assert !Odd(0xA0, n - 8);
    assert !Odd(0x140, n - 7);
    assert !Odd(0x280, n - 6);
    assert !Odd(0x500, n - 5);
    assert !Odd(0xA00, n - 4);
    assert !Odd(0x1400, n - 3);
    assert !Odd(0x2800, n - 2);
    assert !Odd(0x5000, n - 1);
  }

  /** The generator has an odd number of taps, so a shift preserves parity. */
  lemma ShiftBitParity(c: bv16, n: nat)
    requires n == 16
    ensures Odd(ShiftBit(c), n) <==> Odd(c, n)
  {
    OddPolynomial(n);
    OddHalf(c, n);
    OddXor(Half(c), 0xA001, n);
    XorBits(c, c);
  }

  lemma {:induction false} IterateKeeps<T(!new)>(f: T -> T, p: T -> bool, x: T, n: nat)
    requires forall y {:trigger f(y)} :: p(f(y)) == p(y)
    ensures p(Iterate(f, x, n)) == p(x)
  {
    if n > 0 {
      IterateKeeps(f, p, x, n - 1);
    }
  }

  lemma IterateParity(x: bv16, k: nat, n: nat)
    requires n == 16
    ensures Odd(Iterate(ShiftBit, x, k), n) == Odd(x, n)
  {
    var p := (y: bv16) => Odd(y, n);
    forall y ensures p(ShiftBit(y)) == p(y) {
      ShiftBitParity(y, n);
    }
    IterateKeeps(ShiftBit, p, x, k);
  }

  lemma FeedParity(c: bv16, b: Byte, k: nat, n: nat)
    requires n == 16
    ensures Odd(FeedBits(c, b, k), n) <==> Odd(c, n) != Odd(b as bv16, n)
  {
    IterateParity(c ^ (b as bv16), k, n);
    OddXor(c, b as bv16, n);
  }

  lemma {:induction false} FoldParity<S(!new), B(!new)>(
    step: (S, B) -> S, p: S -> bool, f: B -> nat, s: S, data: seq<B>)
    requires forall t, b {:trigger step(t, b)} :: p(step(t, b)) <==> p(t) != (f(b) % 2 == 1)
    requires !p(s)
    ensures p(Fold(step, s, data)) <==> SumOver(f, data) % 2 == 1
  {
    if data != [] {
      FoldParity(step, p, f, s, data[..|data| - 1]);
    }
  }

  /** The register has the parity of everything fed to it. */
  lemma Crc16Parity(data: seq<Byte>, n: nat)
    requires n == 16
    ensures Odd(Crc16(data), n) <==> TotalWeight(data) % 2 == 1
  {
    var p := (c: bv16) => Odd(c, n);
    OddZero(n);
    forall c, b ensures p(Feed(c, b)) <==> p(c) != (Weight(b) % 2 == 1) {
      FeedParity(c, b, BITS, n);
      OddBitsMeansOddCount(LowBit, Half, b as bv16, n);
    }
    FoldParity(Feed, p, Weight, 0, data);
  }

  // ----- Errors confined to two adjacent bytes -----

  /** Every set bit of `e` lies in byte `i` or byte `i + 1`, and there is one. */
  ghost predicate Burst(e: seq<Byte>, i: nat) {
    && i + 1 < |e|
    && (e[i] != 0 || e[i + 1] != 0)
    && forall k :: 0 <= k < |e| && k != i && k != i + 1 ==> e[k] == 0
  }

  lemma FeedZeroByte(crc: bv16)
    ensures Feed(crc, 0) == 0 <==> crc == 0
  {
    WordZero(0, 0);
    FeedLow(crc, 0, 0);
  }

  lemma FeedTwoNonzero(lo: Byte, hi: Byte)
    requires lo != 0 || hi != 0
    ensures Feed(Feed(0, lo), hi) != 0
  {
    FeedTwoToZero(0, lo, hi);
    WordZero(lo, hi);
  }

  /** Before the burst the register of a burst pattern is zero; after it, never again. */
  lemma {:induction false} BurstRegister(e: seq<Byte>, i: nat, k: nat)
    requires Burst(e, i)
    requires k <= |e|
    ensures k <= i ==> Crc16(e[..k]) == 0
    ensures i + 2 <= k ==> Crc16(e[..k]) != 0
  {
    if k > 0 {
      assert e[..k][..k - 1] == e[..k - 1];
      BurstRegister(e, i, k - 1);
      if k == i + 2 {
        BurstRegister(e, i, i);
        assert e[..i + 1][..i] == e[..i];
        FeedTwoNonzero(e[i], e[i + 1]);
      } else if k != i + 1 {
        FeedZeroByte(Crc16(e[..k - 1]));
      }
    }
  }

  // ----- The detection theorem -----

  /** Error patterns the checksum is guaranteed to expose. */
  ghost predicate Detectable(e: seq<Byte>) {
    TotalWeight(e) % 2 == 1 || exists i: nat :: Burst(e, i)
  }

  lemma XorZero(c: bv16)
    ensures 0 ^ c == c
  {
  }

  /** For every length, a detectable error turns a zero residue into a nonzero one. */
  lemma DetectableChangesResidue(buf: seq<Byte>, e: seq<Byte>)
    requires |buf| == |e| && Crc16(buf) == 0 && Detectable(e)
    ensures Crc16(Xor(buf, e)) != 0
  {
    Crc16Linear(buf, e);
    if TotalWeight(e) % 2 == 1 {
      Crc16Parity(e, 16);
      OddZero(16);
    } else {
      var i: nat :| Burst(e, i);
      BurstRegister(e, i, |e|);
      assert e[..|e|] == e;
    }
    XorZero(Crc16(e));
  }
}
