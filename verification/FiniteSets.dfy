/** Cardinality of finite sets. */
module FiniteSets {
  lemma SubsetSize<T>(a: set<T>, b: set<T>)
    requires a <= b
    ensures |a| <= |b|
  {
    assert b == a + (b - a);
  }

  lemma SubsetOfSameSize<T>(a: set<T>, b: set<T>)
    requires a <= b
    ensures |a| == |b| ==> a == b
  {
    assert b == a + (b - a);
    if |b - a| == 0 {
      assert b - a == {};
    }
  }

  /** A set of numbers below n has at most n members. */
  lemma {:induction false} AtMost(numbers: set<nat>, n: nat)
    requires forall k :: k in numbers ==> k < n
    ensures |numbers| <= n
  {
    if n == 0 {
      assert numbers == {};
    } else {
      var rest := numbers - {n - 1};
      AtMost(rest, n - 1);
      assert numbers == rest || numbers == rest + {n - 1};
    }
  }

  /** A set that has every number below n has at least n members. */
  lemma {:induction false} AtLeast(numbers: set<nat>, n: nat)
    requires forall k: nat :: k < n ==> k in numbers
    ensures |numbers| >= n
  {
    if n == 0 {
    } else {
      AtLeast(numbers - {n - 1}, n - 1);
    }
  }

  /** As many numbers below n as n are all of them. */
  lemma AllBelow(numbers: set<nat>, n: nat)
    requires (forall k :: k in numbers ==> k < n) && |numbers| >= n
    ensures forall k: nat :: k < n ==> k in numbers
  {
    forall k: nat | k < n ensures k in numbers {
      AtMost(numbers + {k}, n);
    }
  }
}
