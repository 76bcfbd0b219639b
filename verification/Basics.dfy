/** Values shared by the models: an optional value, bytes, and counting in boolean sequences. */
module Basics {
  datatype Option<+T> = None | Some(value: T)

  type Byte = x: int | 0 <= x < 256

  /** How many entries of `s` are true. */
  ghost function CountTrue(s: seq<bool>): nat {
    if s == [] then 0 else CountTrue(s[..|s| - 1]) + (if s[|s| - 1] then 1 else 0)
  }

  lemma {:induction false} CountTrueUpdate(s: seq<bool>, i: nat, b: bool)
    requires i < |s|
    ensures CountTrue(s[i := b]) == CountTrue(s) - (if s[i] then 1 else 0) + (if b then 1 else 0)
  {
    var last := |s| - 1;
    if i == last {
      assert s[i := b][..last] == s[..last];
    } else {
      assert s[i := b][..last] == s[..last][i := b];
      CountTrueUpdate(s[..last], i, b);
    }
  }

  lemma {:induction false} CountTrueBound(s: seq<bool>)
    ensures CountTrue(s) <= |s|
    ensures CountTrue(s) == |s| <==> forall i :: 0 <= i < |s| ==> s[i]
    ensures CountTrue(s) == 0 <==> forall i :: 0 <= i < |s| ==> !s[i]
  {
    if s != [] {
      CountTrueBound(s[..|s| - 1]);
      assert forall i :: 0 <= i < |s| - 1 ==> s[..|s| - 1][i] == s[i];
    }
  }

  /** Two sets that differ at most in `x`. */
  lemma SetChange<T>(before: set<T>, after: set<T>, x: T)
    requires forall y :: y in after && y != x ==> y in before
    requires forall y :: y in before && y != x ==> y in after
    ensures |after| == |before| - (if x in before then 1 else 0) + (if x in after then 1 else 0)
  {
    assert after - {x} == before - {x};
    assert |after - {x}| == |after| - (if x in after then 1 else 0);
    assert |before - {x}| == |before| - (if x in before then 1 else 0);
  }
}
