/** Small shared vocabulary: optional values, bytes, and Go's notion of an instant. */
module Basics {

  datatype Option<+T> = None | Some(value: T)

  type Byte = bv8

  /** One second, in the nanoseconds that Go durations count. */
  const SECOND := 1_000_000_000

  /** A Go `time.Time`: either the zero value or a real clock reading in nanoseconds. */
  datatype Instant = Zero | At(t: int) {

    /** `this.Before(other)`: the zero instant precedes every clock reading. */
    predicate Before(other: Instant) {
      match (this, other)
      case (_, Zero) => false
      case (Zero, At(_)) => true
      case (At(a), At(b)) => a < b
    }
  }

  lemma ConcatAssociative<T>(a: seq<T>, b: seq<T>, c: seq<T>)
    ensures (a + b) + c == a + (b + c)
  {
  }

  lemma InConcat<T>(a: seq<T>, b: seq<T>, x: T)
    ensures x in a + b <==> x in a || x in b
  {
  }

  /** A nonempty set has a member, said in a form that lets one be picked. */
  lemma SomeMember(s: set<int>)
    ensures s != {} ==> exists x :: x in s
  {
    assert (forall x: int :: x !in s) ==> s == {};
  }
}
