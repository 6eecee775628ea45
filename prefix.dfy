/** Cumulative lengths along a path: the value the walk's running total
    `travelled` holds when it reaches each vertex. */
module PrefixSums {
  import opened Geo

  /** The sum of the first `i` segment lengths, added left to right. */
  function Prefix(lens: seq<real>, i: nat): real
    requires i <= |lens|
  {
    if i == 0 then 0.0 else Prefix(lens, i - 1) + lens[i - 1]
  }

  /** The length of the whole path. */
  function Total(lens: seq<real>): real
  {
    Prefix(lens, |lens|)
  }

  /** Dropping the first segment shifts every prefix by that segment's length. */
  lemma {:induction false} PrefixShift(lens: seq<real>, i: nat)
    requires 0 < i <= |lens|
    ensures Prefix(lens, i) == lens[0] + Prefix(lens[1..], i - 1)
  {
    if i > 1 {
      PrefixShift(lens, i - 1);
    }
  }

  lemma PrefixShiftAll(lens: seq<real>)
    requires 0 < |lens|
    ensures forall i :: 0 < i <= |lens| ==> Prefix(lens, i) == lens[0] + Prefix(lens[1..], i - 1)
  {
    forall i | 0 < i <= |lens|
      ensures Prefix(lens, i) == lens[0] + Prefix(lens[1..], i - 1)
    {
      PrefixShift(lens, i);
    }
  }

  /** With non-negative segment lengths the running total never decreases. */
  lemma {:induction false} PrefixMonotone(lens: seq<Length>, i: nat, j: nat)
    requires i <= j <= |lens|
    ensures Prefix(lens, i) <= Prefix(lens, j)
  {
    if i < j {
      PrefixMonotone(lens, i, j - 1);
    }
  }

  /** The first vertex index whose cumulative length reaches `target`, or
      `|lens|` when no vertex before the last one does. Defined by walking
      the suffix with a shrinking target, independently of any loop. */
  function FirstReached(lens: seq<real>, target: real): (i: nat)
    ensures i <= |lens|
    ensures forall j :: 0 <= j < i ==> Prefix(lens, j) < target
    ensures i < |lens| ==> target <= Prefix(lens, i)
    decreases |lens|
  {
    if |lens| == 0 || target <= 0.0 then 0
    else
      var rest := FirstReached(lens[1..], target - lens[0]);
      PrefixShiftAll(lens);
      1 + rest
  }
}
