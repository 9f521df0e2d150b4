/** Types and small facts shared by all modules. */
module Basics {

  /** A value, or its absence where the source throws or returns false. */
  datatype Option<+T> = None | Some(value: T)

  type Byte = b: nat | b < 256

  const TWO64: nat := 0x1_0000_0000_0000_0000

  function Reversed<T>(s: seq<T>): (r: seq<T>)
    ensures |r| == |s|
  {
    seq(|s|, i requires 0 <= i < |s| => s[|s| - 1 - i])
  }

  lemma SubsetSize<T>(a: set<T>, b: set<T>)
    requires a <= b
    ensures |a| <= |b| && (|a| == |b| ==> a == b)
  {
    assert b == a + (b - a);
    assert |b| == |a| + |b - a|;
  }
}
