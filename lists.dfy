/**
  The two `ArrayList` operations the resolver applies to its list of ships still to move:
  `remove(Object)`, which drops the first occurrence, and the set difference it amounts to
  over a whole resolution.
*/
module Lists {

  predicate Distinct(s: seq<nat>)
  {
    forall i, j | 0 <= i < j < |s| :: s[i] != s[j]
  }

  /** `ArrayList.remove(Object)`: drop the first occurrence of `x`, if any. */
  function Remove(s: seq<nat>, x: nat): (r: seq<nat>)
    ensures x !in s ==> r == s
  {
    if s == [] then []
    else if s[0] == x then s[1..]
    else [s[0]] + Remove(s[1..], x)
  }

  /** `s` without every element of `r`, in the original order. */
  function Except(s: seq<nat>, r: seq<nat>): (q: seq<nat>)
    ensures forall j :: j in q <==> j in s && j !in r
    ensures |q| <= |s|
  {
    if s == [] then [] else (if s[0] in r then [] else [s[0]]) + Except(s[1..], r)
  }

  /** Removing the first occurrence from a list without duplicates removes every occurrence. */
  lemma {:induction false} RemoveDistinct(s: seq<nat>, x: nat)
    requires Distinct(s)
    ensures Remove(s, x) == Except(s, [x])
  {
    if s != [] {
      assert Distinct(s[1..]);
      RemoveDistinct(s[1..], x);
      if s[0] == x {
        assert x !in s[1..];
        ExceptNone(s[1..], [x]);
      }
    }
  }

  lemma {:induction false} ExceptNone(s: seq<nat>, r: seq<nat>)
    requires forall j :: j in s ==> j !in r
    ensures Except(s, r) == s
  {
    if s != [] {
      ExceptNone(s[1..], r);
    }
  }

  /** Filtering out `a` and then `b` filters out `a + b` at once. */
  lemma {:induction false} ExceptTwice(s: seq<nat>, a: seq<nat>, b: seq<nat>)
    ensures Except(Except(s, a), b) == Except(s, a + b)
  {
    if s != [] {
      ExceptTwice(s[1..], a, b);
      var tail := Except(s[1..], a);
      if s[0] in a {
        assert Except(s, a) == tail;
      } else {
        var e := [s[0]] + tail;
        assert Except(s, a) == e;
        assert e[0] == s[0] && e[1..] == tail;
        assert Except(e, b) == (if s[0] in b then [] else [s[0]]) + Except(tail, b);
      }
    }
  }

  /** Filtering keeps a list free of duplicates. */
  lemma {:induction false} ExceptDistinct(s: seq<nat>, r: seq<nat>)
    requires Distinct(s)
    ensures Distinct(Except(s, r))
  {
    if s != [] {
      assert Distinct(s[1..]);
      ExceptDistinct(s[1..], r);
      assert s[0] !in s[1..];
    }
  }

  /** Two duplicate-free lists with nothing in common concatenate to a duplicate-free list. */
  lemma {:induction false} DistinctConcat(a: seq<nat>, b: seq<nat>)
    requires Distinct(a) && Distinct(b)
    requires forall j | j in b :: j !in a
    ensures Distinct(a + b)
  {
    forall i, j | 0 <= i < j < |a + b| ensures (a + b)[i] != (a + b)[j] {
      if j < |a| {
        assert (a + b)[i] == a[i] && (a + b)[j] == a[j];
      } else if i >= |a| {
        assert (a + b)[i] == b[i - |a|] && (a + b)[j] == b[j - |a|];
      } else {
        assert (a + b)[j] == b[j - |a|] && b[j - |a|] in b;
        assert (a + b)[i] == a[i];
      }
    }
  }

  /** The halves of a duplicate-free list are duplicate-free and have nothing in common. */
  lemma {:induction false} DistinctSplit(a: seq<nat>, b: seq<nat>)
    requires Distinct(a + b)
    ensures Distinct(a) && Distinct(b)
    ensures forall j | j in b :: j !in a
  {
    assert forall i | 0 <= i < |a| :: (a + b)[i] == a[i];
    assert forall i | 0 <= i < |b| :: (a + b)[|a| + i] == b[i];
  }

  /** Extending a prefix of `b` by one element, after a fixed `a`. */
  lemma {:induction false} AppendNext(a: seq<nat>, b: seq<nat>, k: nat)
    requires k < |b|
    ensures a + b[..k + 1] == (a + b[..k]) + [b[k]]
  {
    assert b[..k + 1] == b[..k] + [b[k]];
  }
}
