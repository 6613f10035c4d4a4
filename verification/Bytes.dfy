/** Conversions between a byte and the number it stands for. */
module Bytes {
  import opened Basics

  /** Go's `int(b)`: how often `b` can be decremented. */
  function ToInt(b: Byte): nat
    decreases b
  {
    if b == 0 then 0 else 1 + ToInt(b - 1)
  }

  /** Go's `byte(n)`: zero incremented `n` times, so it wraps past 255. */
  function FromInt(n: nat): Byte {
    if n == 0 then 0 else FromInt(n - 1) + 1
  }

  /** The binary value of a byte. */
  function Binary(b: Byte): nat {
    (if b & 1 != 0 then 1 else 0) + (if b & 2 != 0 then 2 else 0) +
    (if b & 4 != 0 then 4 else 0) + (if b & 8 != 0 then 8 else 0) +
    (if b & 16 != 0 then 16 else 0) + (if b & 32 != 0 then 32 else 0) +
    (if b & 64 != 0 then 64 else 0) + (if b & 128 != 0 then 128 else 0)
  }

  lemma BinaryPredecessor(b: Byte)
    requires b != 0
    ensures Binary(b) == 1 + Binary(b - 1)
  {
  }

  lemma {:induction false} ToIntIsBinary(b: Byte)
    ensures ToInt(b) == Binary(b)
    decreases b
  {
    if b != 0 {
      ToIntIsBinary(b - 1);
      BinaryPredecessor(b);
    }
  }

  lemma ToIntBound(b: Byte)
    ensures ToInt(b) < 256
    ensures b == 255 ==> ToInt(b) == 255
  {
    ToIntIsBinary(b);
  }

  lemma {:induction false} ToFromInt(n: nat)
    requires n < 256
    ensures ToInt(FromInt(n)) == n
  {
    if n != 0 {
      ToFromInt(n - 1);
      ToIntBound(FromInt(n - 1));
    }
  }

  lemma {:induction false} FromToInt(b: Byte)
    ensures FromInt(ToInt(b)) == b
    decreases b
  {
    if b != 0 {
      FromToInt(b - 1);
    }
  }
}
