/** Set-overlap similarity between two normalised token sets (`jaccard` in
    chatbot_core.py). The score is an exact rational (`real`), not a float. */
module Similarity {

  function Max(x: int, y: int): int {
    if x < y then y else x
  }

  /** The intersection is part of the union, and it is as large as the union
      only when the two sets are equal. */
  lemma {:induction false} OverlapCardinality(a: set<string>, b: set<string>)
    ensures |a * b| <= |a + b|
    ensures |a * b| == |a + b| ==> a == b
  {
    assert a + b == (a - b) + (b - a) + (a * b);
    assert |(a - b) + (b - a)| == |a - b| + |b - a| by {
      assert (a - b) * (b - a) == {};
    }
    assert ((a - b) + (b - a)) * (a * b) == {};
    if |a * b| == |a + b| {
      assert |a - b| == 0 && |b - a| == 0;
      assert a - b == {} && b - a == {};
    }
  }

  /** A ratio of naturals with a positive denominator no smaller than the numerator. */
  lemma Ratio(n: nat, d: nat)
    requires 0 < d && n <= d
    ensures 0.0 <= n as real / d as real <= 1.0
    ensures n as real / d as real == 0.0 <==> n == 0
    ensures n as real / d as real == 1.0 <==> n == d
  {
    var q := n as real / d as real;
    assert q * d as real == n as real;
  }

  /** `jaccard`: the size of the intersection over the size of the union, and 0
      when both sets are empty. The score is in [0, 1]; it is 0 exactly when
      the sets share no element, and 1 exactly when they are equal and not
      empty. */
  function Jaccard(a: set<string>, b: set<string>): (r: real)
    ensures 0.0 <= r <= 1.0
    ensures r == 0.0 <==> a * b == {}
    ensures r == 1.0 <==> a == b && a != {}
  {
    if a == {} && b == {} then 0.0
    else
      OverlapCardinality(a, b);
      assert a + b != {} by { assert a <= a + b && b <= a + b; }
      assert a == b ==> a * b == a + b;
      Ratio(|a * b|, Max(1, |a + b|));
      |a * b| as real / Max(1, |a + b|) as real
  }

  /** The score does not depend on the order of its arguments. */
  lemma JaccardSymmetric(a: set<string>, b: set<string>)
    ensures Jaccard(a, b) == Jaccard(b, a)
  {
    assert a * b == b * a;
    assert a + b == b + a;
  }

  /** A non-empty set is perfectly similar to itself; the empty set scores 0
      against itself. */
  lemma JaccardReflexive(a: set<string>)
    ensures Jaccard(a, a) == if a == {} then 0.0 else 1.0
  {
  }
}
