/** Comparing two vectors without regard to order. */
module UnorderedEquals {
  method CountRange<T(==)>(s: seq<T>, first: nat, last: nat, item: T) returns (cnt: nat)
    requires first <= last <= |s|
    ensures cnt == multiset(s[first..last])[item]
  {
    cnt := 0;
    for k := first to last
      invariant cnt == multiset(s[first..k])[item]
    {
      assert s[first..k + 1] == s[first..k] + [s[k]];
      if s[k] == item { cnt := cnt + 1; }
    }
  }

  method Contains<T(==)>(s: seq<T>, first: nat, last: nat, item: T) returns (found: bool)
    requires first <= last <= |s|
    ensures found <==> item in s[first..last]
  {
    for k := first to last
      invariant item !in s[first..k]
    {
      if s[k] == item { return true; }
      assert s[first..k + 1] == s[first..k] + [s[k]];
    }
    return false;
  }

  /** Equal counts of every element of a in both settle equality, the lengths being equal. */
  lemma {:induction false} CountsDecide<T>(a: seq<T>, b: seq<T>)
    requires |a| == |b| && forall x | x in a :: multiset(a)[x] == multiset(b)[x]
    ensures multiset(a) == multiset(b)
  {
    assert multiset(a) <= multiset(b) by {
      forall x ensures multiset(a)[x] <= multiset(b)[x] {
        if x !in a { assert multiset(a)[x] == 0; }
      }
    }
    assert |multiset(b) - multiset(a)| == 0;
    assert multiset(b) == multiset(a) + (multiset(b) - multiset(a));
  }

  lemma PrefixCancels<T>(a: seq<T>, b: seq<T>, k: nat)
    requires k <= |a| && k <= |b| && a[..k] == b[..k]
    ensures multiset(a) == multiset(b) <==> multiset(a[k..]) == multiset(b[k..])
  {
    assert a == a[..k] + a[k..] && b == b[..k] + b[k..];
    assert multiset(a[k..]) == multiset(a) - multiset(a[..k]);
    assert multiset(b[k..]) == multiset(b) - multiset(b[..k]);
  }

  /** The common prefix is cut, repeated items are skipped, and only the target's items are counted. */
  method Match<T(==)>(target: seq<T>, vec: seq<T>) returns (equal: bool)
    ensures equal <==> multiset(target) == multiset(vec)
  {
    if |target| != |vec| {
      assert |multiset(target)| != |multiset(vec)|;
      return false;
    }
    var first := 0;
    while first < |target| && target[first] == vec[first]
      invariant first <= |target| && target[..first] == vec[..first]
    {
      first := first + 1;
    }
    PrefixCancels(target, vec, first);
    if first == |target| {
      return true;
    }
    ghost var a, b := target[first..], vec[first..];
    for mid := first to |target|
      invariant forall k | first <= k < mid :: multiset(a)[target[k]] == multiset(b)[target[k]]
    {
      var counted := Contains(target, first, mid, target[mid]);
      if !counted {
        var numVec := CountRange(vec, first, |vec|, target[mid]);
        var numTarget := CountRange(target, first, |target|, target[mid]);
        assert target[first..|target|] == a && vec[first..|vec|] == b;
        if numVec == 0 || numTarget != numVec {
          assert target[mid] == a[mid - first];
          return false;
        }
      }
    }
    CountsDecide(a, b);
    return true;
  }
}
