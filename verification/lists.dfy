/** Position-based sequence edits shared by the list primitives. */
module Lists {

  /** `s` without position `i`. */
  function Without<T>(s: seq<T>, i: nat): (r: seq<T>)
    requires i < |s|
    ensures |r| == |s| - 1
    ensures forall k | 0 <= k < i :: r[k] == s[k]
    ensures forall k | i <= k < |r| :: r[k] == s[k + 1]
  {
    s[..i] + s[i + 1..]
  }

  /** `s` with `x` put in at position `i`. */
  function Within<T>(s: seq<T>, i: nat, x: T): (r: seq<T>)
    requires i <= |s|
    ensures |r| == |s| + 1 && r[i] == x
    ensures forall k | 0 <= k < i :: r[k] == s[k]
    ensures forall k | i < k < |r| :: r[k] == s[k - 1]
  {
    s[..i] + [x] + s[i..]
  }

  function Swap<T>(s: seq<T>, i: nat, j: nat): (r: seq<T>)
    requires i < |s| && j < |s|
    ensures |r| == |s| && r[i] == s[j] && r[j] == s[i]
    ensures forall k | 0 <= k < |s| && k != i && k != j :: r[k] == s[k]
  {
    s[i := s[j]][j := s[i]]
  }

  lemma WithoutMultiset<T>(s: seq<T>, i: nat)
    requires i < |s|
    ensures multiset(Without(s, i)) + multiset{s[i]} == multiset(s)
  {
    assert s == s[..i] + [s[i]] + s[i + 1..];
  }

  lemma WithinMultiset<T>(s: seq<T>, i: nat, x: T)
    requires i <= |s|
    ensures multiset(Within(s, i, x)) == multiset(s) + multiset{x}
  {
    assert s == s[..i] + s[i..];
  }

  lemma SwapMultiset<T>(s: seq<T>, i: nat, j: nat)
    requires i < |s| && j < |s|
    ensures multiset(Swap(s, i, j)) == multiset(s)
  {
  }

  lemma WithoutWithin<T>(s: seq<T>, i: nat, x: T)
    requires i <= |s|
    ensures Without(Within(s, i, x), i) == s
  {
  }

  lemma WithinWithout<T>(s: seq<T>, i: nat)
    requires i < |s|
    ensures Within(Without(s, i), i, s[i]) == s
  {
  }

  /** A sequence is determined by the element at one position and the rest. */
  lemma WithoutDetermines<T>(a: seq<T>, b: seq<T>, i: nat)
    requires i < |a| == |b| && a[i] == b[i]
    requires Without(a, i) == Without(b, i)
    ensures a == b
  {
    forall k | 0 <= k < |a|
      ensures a[k] == b[k]
    {
      if k < i {
        assert a[k] == Without(a, i)[k];
        assert b[k] == Without(b, i)[k];
      } else if k > i {
        assert a[k] == Without(a, i)[k - 1];
        assert b[k] == Without(b, i)[k - 1];
      }
    }
  }
}
