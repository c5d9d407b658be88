/** `random_shuffle` of `native/mars/comm/shuffle.h`. */
module Shuffling {

  import opened Sequences

  function Swapped<T>(s: seq<T>, i: nat, j: nat): (r: seq<T>)
    requires i < |s| && j < |s|
    ensures |r| == |s|
  {
    s[i := s[j]][j := s[i]]
  }

  /** A pick for every place: one of the places up to it. */
  predicate ArePicks(p: seq<nat>, n: nat) {
    |p| == n && forall i :: 0 <= i < n ==> p[i] <= i
  }

  /** The swaps from place i down. */
  function SwappedFrom<T>(s: seq<T>, p: seq<nat>, i: nat): (r: seq<T>)
    requires ArePicks(p, |s|) && i <= |s|
    ensures |r| == |s|
    decreases i
  {
    if i <= 1 then s else SwappedFrom(Swapped(s, i - 1, p[i - 1]), p, i - 1)
  }

  function Shuffled<T>(s: seq<T>, p: seq<nat>): seq<T>
    requires ArePicks(p, |s|)
  {
    SwappedFrom(s, p, |s|)
  }

  /** The picks made from random numbers, the first of which is for the last place. */
  function Picks(seeds: seq<nat>): (p: seq<nat>)
    ensures ArePicks(p, |seeds| + 1)
  {
    seq(|seeds| + 1, i requires 0 <= i <= |seeds| => if i == 0 then 0 else seeds[|seeds| - i] % (i + 1))
  }

  method RandomShuffle<T>(a: array<T>, seeds: seq<nat>)
    requires |seeds| == if a.Length == 0 then 0 else a.Length - 1
    modifies a
    ensures a.Length > 0 ==> a[..] == Shuffled(old(a[..]), Picks(seeds))
  {
    var n := a.Length;
    var i := n - 1;
    while i > 0
      invariant n > 0 ==> 0 <= i < n
      invariant n > 0 ==> SwappedFrom(a[..], Picks(seeds), i + 1) == Shuffled(old(a[..]), Picks(seeds))
    {
      var seed := seeds[n - 1 - i];
      ghost var was := a[..];
      a[i], a[seed % (i + 1)] := a[seed % (i + 1)], a[i];
      assert a[..] == Swapped(was, i, Picks(seeds)[i]);
      i := i - 1;
    }
  }

  // ----- what a shuffle is -----

  lemma SwappedIsPermutation<T>(s: seq<T>, i: nat, j: nat)
    requires i < |s| && j < |s|
    ensures multiset(Swapped(s, i, j)) == multiset(s)
  {
    var u := s[i := s[j]];
    assert multiset(u) == multiset(s) - multiset{s[i]} + multiset{s[j]};
    assert multiset(Swapped(s, i, j)) == multiset(u) - multiset{u[j]} + multiset{s[i]};
  }

  lemma {:induction false} FromIsPermutation<T>(s: seq<T>, p: seq<nat>, i: nat)
    requires ArePicks(p, |s|) && i <= |s|
    ensures multiset(SwappedFrom(s, p, i)) == multiset(s)
    decreases i
  {
    if i > 1 {
      SwappedIsPermutation(s, i - 1, p[i - 1]);
      FromIsPermutation(Swapped(s, i - 1, p[i - 1]), p, i - 1);
    }
  }

  /** A shuffle only reorders. */
  lemma ShuffledIsPermutation<T>(s: seq<T>, p: seq<nat>)
    requires ArePicks(p, |s|)
    ensures multiset(Shuffled(s, p)) == multiset(s)
  {
    FromIsPermutation(s, p, |s|);
  }

  /** The swaps from place i down leave the places from i on alone. */
  lemma {:induction false} FromKeepsTail<T>(s: seq<T>, p: seq<nat>, i: nat)
    requires ArePicks(p, |s|) && i <= |s|
    ensures forall k :: i <= k < |s| ==> SwappedFrom(s, p, i)[k] == s[k]
    decreases i
  {
    if i > 1 {
      FromKeepsTail(Swapped(s, i - 1, p[i - 1]), p, i - 1);
    }
  }

  lemma {:induction false} PicksAreSeen<T>(s: seq<T>, p: seq<nat>, q: seq<nat>, i: nat)
    requires Distinct(s) && ArePicks(p, |s|) && ArePicks(q, |s|) && i <= |s|
    requires SwappedFrom(s, p, i) == SwappedFrom(s, q, i)
    ensures forall k :: 0 <= k < i ==> p[k] == q[k]
    decreases i
  {
    if i > 1 {
      var k := i - 1;
      FromKeepsTail(Swapped(s, k, p[k]), p, k);
      FromKeepsTail(Swapped(s, k, q[k]), q, k);
      assert s[p[k]] == SwappedFrom(s, p, i)[k] == SwappedFrom(s, q, i)[k] == s[q[k]];
      PicksAreSeen(Swapped(s, k, p[k]), p, q, k);
    }
  }

  /** Different picks shuffle distinct elements differently. */
  lemma ShuffleIsInjective<T>(s: seq<T>, p: seq<nat>, q: seq<nat>)
    requires Distinct(s) && ArePicks(p, |s|) && ArePicks(q, |s|) && Shuffled(s, p) == Shuffled(s, q)
    ensures p == q
  {
    PicksAreSeen(s, p, q, |s|);
  }

  lemma Cancel<T>(a: multiset<T>, b: multiset<T>, c: multiset<T>)
    requires a + b == c + b
    ensures a == c
  {
    assert a == a + b - b;
  }

  /** If only the places below i are out of order, the element for the last of them is among them. */
  lemma Wanted<T>(s: seq<T>, t: seq<T>, i: nat) returns (j: nat)
    requires |s| == |t| && 0 < i <= |s| && s[i..] == t[i..] && multiset(s) == multiset(t)
    ensures j < i && s[j] == t[i - 1]
  {
    assert s == s[..i] + s[i..] && t == t[..i] + t[i..];
    Cancel(multiset(s[..i]), multiset(s[i..]), multiset(t[..i]));
    assert t[..i][i - 1] in multiset(t[..i]);
    j :| 0 <= j < i && s[..i][j] == t[i - 1];
  }

  lemma SwappedTail<T>(s: seq<T>, t: seq<T>, k: nat, j: nat)
    requires |s| == |t| && j <= k < |s| && s[k + 1..] == t[k + 1..] && s[j] == t[k]
    ensures Swapped(s, k, j)[k..] == t[k..]
  {
    var next := Swapped(s, k, j);
    forall m | k <= m < |s|
      ensures next[m] == t[m]
    {
      assert m > k ==> s[m] == s[k + 1..][m - k - 1] && t[m] == t[k + 1..][m - k - 1];
    }
  }

  lemma {:induction false} FromReaches<T>(s: seq<T>, t: seq<T>, i: nat) returns (p: seq<nat>)
    requires |s| == |t| && i <= |s| && s[i..] == t[i..] && multiset(s) == multiset(t)
    ensures ArePicks(p, |s|) && SwappedFrom(s, p, i) == t
    decreases i
  {
    if i == 0 {
      p := seq(|s|, _ => 0);
      assert s == s[0..] && t == t[0..];
    } else {
      var k := i - 1;
      var j := Wanted(s, t, i);
      SwappedTail(s, t, k, j);
      var next := Swapped(s, k, j);
      SwappedIsPermutation(s, k, j);
      var q := FromReaches(next, t, k);
      p := q[k := j];
      PicksBelow(next, q, p, k);
      assert i == 1 ==> next == s;
    }
  }

  lemma {:induction false} PicksBelow<T>(s: seq<T>, p: seq<nat>, q: seq<nat>, i: nat)
    requires ArePicks(p, |s|) && ArePicks(q, |s|) && i <= |s| && forall k :: 0 <= k < i ==> p[k] == q[k]
    ensures SwappedFrom(s, p, i) == SwappedFrom(s, q, i)
    decreases i
  {
    if i > 1 {
      PicksBelow(Swapped(s, i - 1, p[i - 1]), p, q, i - 1);
    }
  }

  /** Every permutation of distinct elements comes from exactly one vector of picks. */
  lemma EveryPermutationOnce<T>(s: seq<T>, t: seq<T>) returns (p: seq<nat>)
    requires Distinct(s) && multiset(s) == multiset(t)
    ensures ArePicks(p, |s|) && Shuffled(s, p) == t
    ensures forall q :: ArePicks(q, |s|) && Shuffled(s, q) == t ==> q == p
  {
    assert |s| == |multiset(s)| == |multiset(t)| == |t|;
    p := FromReaches(s, t, |s|);
    forall q | ArePicks(q, |s|) && Shuffled(s, q) == t
      ensures q == p
    {
      ShuffleIsInjective(s, p, q);
    }
  }

  /** Every vector of picks comes from some random numbers. */
  lemma EveryPickOccurs(p: seq<nat>) returns (seeds: seq<nat>)
    requires p != [] && ArePicks(p, |p|)
    ensures |seeds| == |p| - 1 && Picks(seeds) == p
  {
    var n := |p| - 1;
    seeds := seq(n, k requires 0 <= k < n => p[n - k]);
    forall i | 0 <= i <= n
      ensures Picks(seeds)[i] == p[i]
    {
      if i > 0 {
        assert seeds[n - i] == p[i];
        SmallRemainder(p[i], i + 1);
      }
    }
  }

  lemma SmallRemainder(x: nat, m: nat)
    requires x < m
    ensures x % m == x
  {
  }
}
