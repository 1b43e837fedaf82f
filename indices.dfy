/**
 * Sequences of indices, and the helpers that relate them to the sequences
 * they index. Both single-pass partitioning algorithms of the anatomizer keep
 * a `visited` set of indices; `Unvisited` is the ordered list of indices such
 * a scan has not yet claimed.
 */
module Indices {

  /** `list(range(n))`. */
  function Range(n: nat): (r: seq<nat>)
    ensures |r| == n
    ensures forall i :: 0 <= i < n ==> r[i] == i
  {
    seq(n, i requires 0 <= i => i as nat)
  }

  lemma {:induction false} RangeMembers(n: nat, x: nat)
    ensures x in multiset(Range(n)) <==> x < n
  {
    if x < n {
      assert Range(n)[x] == x;
    }
  }

  /** Strictly increasing. */
  ghost predicate Increasing(s: seq<nat>)
  {
    forall a, b :: 0 <= a < b < |s| ==> s[a] < s[b]
  }

  lemma {:induction false} IncreasingSnoc(s: seq<nat>, y: nat)
    requires Increasing(s) && forall x :: x in s ==> x < y
    ensures Increasing(s + [y])
  {
    forall a, b | 0 <= a < b < |s + [y]| ensures (s + [y])[a] < (s + [y])[b] {
      if b == |s| {
        assert (s + [y])[a] == s[a] && s[a] in s;
      }
    }
  }

  lemma {:induction false} IncreasingCons(y: nat, s: seq<nat>)
    requires Increasing(s) && forall x :: x in s ==> y < x
    ensures Increasing([y] + s)
  {
    forall a, b | 0 <= a < b < |[y] + s| ensures ([y] + s)[a] < ([y] + s)[b] {
      assert ([y] + s)[b] == s[b - 1] && s[b - 1] in s;
      if a > 0 {
        assert ([y] + s)[a] == s[a - 1];
      }
    }
  }

  lemma {:induction false} IncreasingTail(s: seq<nat>)
    requires Increasing(s) && s != []
    ensures Increasing(s[1..]) && forall x :: x in s[1..] ==> s[0] < x
  {
    forall x | x in s[1..] ensures s[0] < x {
      var k :| 0 <= k < |s[1..]| && s[1..][k] == x;
      assert s[k + 1] == x;
    }
  }

  /** Every index is below `n`. */
  ghost predicate Below(s: seq<nat>, n: nat)
  {
    forall k :: 0 <= k < |s| ==> s[k] < n
  }

  /** No element occurs twice. */
  ghost predicate NoDup<T>(s: seq<T>)
  {
    forall a, b :: 0 <= a < b < |s| ==> s[a] != s[b]
  }

  /** The indices in `[lo, hi)` that are not in `visited`, in increasing order. */
  function Unvisited(lo: nat, hi: nat, visited: set<nat>): (r: seq<nat>)
    ensures forall k :: 0 <= k < |r| ==> lo <= r[k] < hi
    decreases hi
  {
    if hi <= lo then []
    else Unvisited(lo, hi - 1, visited) + (if hi - 1 in visited then [] else [hi - 1])
  }

  lemma {:induction false} UnvisitedMembers(lo: nat, hi: nat, visited: set<nat>)
    ensures forall x :: x in Unvisited(lo, hi, visited) <==> lo <= x < hi && x !in visited
    ensures Increasing(Unvisited(lo, hi, visited))
    ensures |Unvisited(lo, hi, visited)| <= if lo <= hi then hi - lo else 0
    decreases hi
  {
    if hi > lo {
      UnvisitedMembers(lo, hi - 1, visited);
      var u := Unvisited(lo, hi - 1, visited);
      forall k | 0 <= k < |u| ensures u[k] < hi - 1 {
        assert u[k] in u;
      }
    }
  }

  lemma {:induction false} UnvisitedSplit(lo: nat, mid: nat, hi: nat, visited: set<nat>)
    requires lo <= mid <= hi
    ensures Unvisited(lo, hi, visited) == Unvisited(lo, mid, visited) + Unvisited(mid, hi, visited)
    decreases hi
  {
    if hi > mid {
      UnvisitedSplit(lo, mid, hi - 1, visited);
    }
  }

  /** Marking indices outside `[lo, hi)` changes nothing. */
  lemma {:induction false} UnvisitedOutside(lo: nat, hi: nat, visited: set<nat>, more: set<nat>)
    requires forall x :: x in more ==> x < lo || hi <= x
    ensures Unvisited(lo, hi, visited + more) == Unvisited(lo, hi, visited)
    decreases hi
  {
    if hi > lo {
      UnvisitedOutside(lo, hi - 1, visited, more);
    }
  }

  /** A range that has been visited entirely contributes nothing. */
  lemma {:induction false} UnvisitedNone(lo: nat, hi: nat, visited: set<nat>)
    requires forall x :: lo <= x < hi ==> x in visited
    ensures Unvisited(lo, hi, visited) == []
    decreases hi
  {
    if hi > lo {
      UnvisitedNone(lo, hi - 1, visited);
    }
  }

  /** Unvisited indices from `lo` on: `lo` itself first when it is unvisited. */
  lemma {:induction false} UnvisitedFront(lo: nat, hi: nat, visited: set<nat>)
    requires lo < hi
    ensures Unvisited(lo, hi, visited) == (if lo in visited then [] else [lo]) + Unvisited(lo + 1, hi, visited)
  {
    UnvisitedSplit(lo, lo + 1, hi, visited);
  }

  /** A visited index at the front contributes nothing. */
  lemma {:induction false} UnvisitedSkip(lo: nat, hi: nat, visited: set<nat>)
    requires lo < hi && lo in visited
    ensures Unvisited(lo, hi, visited) == Unvisited(lo + 1, hi, visited)
  {
    UnvisitedFront(lo, hi, visited);
    assert [] + Unvisited(lo + 1, hi, visited) == Unvisited(lo + 1, hi, visited);
  }

  /** Two visited sets that leave the same indices of a range unvisited agree on its first index. */
  lemma {:induction false} UnvisitedSameFront(lo: nat, hi: nat, v1: set<nat>, v2: set<nat>)
    requires lo < hi && Unvisited(lo, hi, v1) == Unvisited(lo, hi, v2)
    ensures lo in v1 <==> lo in v2
  {
    UnvisitedFront(lo, hi, v1);
    UnvisitedFront(lo, hi, v2);
    var u1, u2 := Unvisited(lo + 1, hi, v1), Unvisited(lo + 1, hi, v2);
    assert |u1| > 0 ==> u1[0] > lo;
    assert |u2| > 0 ==> u2[0] > lo;
    assert lo !in v1 ==> Unvisited(lo, hi, v1)[0] == lo;
    assert lo !in v2 ==> Unvisited(lo, hi, v2)[0] == lo;
  }

  /** Visiting more keeps a fully visited range fully visited. */
  lemma {:induction false} UnvisitedMore(lo: nat, hi: nat, visited: set<nat>, more: set<nat>)
    requires Unvisited(lo, hi, visited) == [] && visited <= more
    ensures Unvisited(lo, hi, more) == []
    decreases hi
  {
    if hi > lo {
      UnvisitedMore(lo, hi - 1, visited, more);
    }
  }

  lemma {:induction false} UnvisitedAll(n: nat)
    ensures Unvisited(0, n, {}) == Range(n)
  {
    UnvisitedMembers(0, n, {});
    var u := Unvisited(0, n, {});
    if n > 0 {
      UnvisitedAll(n - 1);
      assert u == Range(n - 1) + [n - 1];
    }
  }

  /** `[s[i] for i in idx]`. */
  function Pick<T>(s: seq<T>, idx: seq<nat>): (r: seq<T>)
    requires Below(idx, |s|)
    ensures |r| == |idx|
  {
    if idx == [] then [] else [s[idx[0]]] + Pick(s, idx[1..])
  }

  lemma {:induction false} PickAt<T>(s: seq<T>, idx: seq<nat>, k: nat)
    requires Below(idx, |s|) && k < |idx|
    ensures Pick(s, idx)[k] == s[idx[k]]
  {
    if k > 0 {
      PickAt(s, idx[1..], k - 1);
    }
  }

  /** Flattening a list of lists. */
  function Concat<T>(ss: seq<seq<T>>): seq<T>
  {
    if ss == [] then [] else ss[0] + Concat(ss[1..])
  }

  lemma {:induction false} ConcatAppend<T>(a: seq<seq<T>>, b: seq<seq<T>>)
    ensures Concat(a + b) == Concat(a) + Concat(b)
  {
    if a == [] {
      assert a + b == b;
    } else {
      var c := a + b;
      assert c != [] && c[0] == a[0] && c[1..] == a[1..] + b;
      assert Concat(c) == a[0] + Concat(a[1..] + b);
      ConcatAppend(a[1..], b);
      assert a[0] + (Concat(a[1..]) + Concat(b)) == (a[0] + Concat(a[1..])) + Concat(b);
    }
  }

  lemma {:induction false} PickAppend<T>(s: seq<T>, a: seq<nat>, b: seq<nat>)
    requires Below(a, |s|) && Below(b, |s|)
    ensures Below(a + b, |s|) && Pick(s, a + b) == Pick(s, a) + Pick(s, b)
  {
    if a == [] {
      assert a + b == b;
    } else {
      assert (a + b)[1..] == a[1..] + b;
      PickAppend(s, a[1..], b);
    }
  }

  /** Removing the index at position `k` removes one occurrence of the element it picks. */
  lemma {:induction false} PickRemove<T>(s: seq<T>, q: seq<nat>, k: nat)
    requires Below(q, |s|) && k < |q|
    ensures Below(q[..k] + q[k + 1..], |s|)
    ensures multiset(Pick(s, q)) == multiset(Pick(s, q[..k] + q[k + 1..])) + multiset{s[q[k]]}
  {
    var q1, q2 := q[..k], q[k + 1..];
    assert q == q1 + [q[k]] + q2;
    PickAppend(s, q1, [q[k]]);
    PickAppend(s, q1 + [q[k]], q2);
    PickAppend(s, q1, q2);
    assert Pick(s, [q[k]]) == [s[q[k]]];
  }

  /** Removing the element at `k` removes one occurrence of it. */
  lemma {:induction false} RemoveAt<T>(q: seq<T>, k: nat)
    requires k < |q|
    ensures multiset(q[..k] + q[k + 1..]) == multiset(q) - multiset{q[k]}
  {
    assert q == q[..k] + [q[k]] + q[k + 1..];
  }

  lemma {:induction false} RemoveFirst<T>(p: seq<T>)
    requires p != []
    ensures multiset(p[1..]) == multiset(p) - multiset{p[0]}
  {
    assert p == [p[0]] + p[1..];
  }

  /** Dropping the head of `p` and its match in `q` keeps them permutations of each other. */
  lemma {:induction false} RemoveMatching<T>(p: seq<T>, q: seq<T>, k: nat)
    requires multiset(p) == multiset(q) && p != [] && k < |q| && q[k] == p[0]
    ensures multiset(p[1..]) == multiset(q[..k] + q[k + 1..])
  {
    RemoveAt(q, k);
    RemoveFirst(p);
  }

  lemma {:induction false} IndexOf<T>(q: seq<T>, x: T) returns (k: nat)
    requires x in multiset(q)
    ensures k < |q| && q[k] == x
  {
    k :| 0 <= k < |q| && q[k] == x;
  }

  /** Picking by two index lists with the same elements picks the same elements. */
  lemma {:induction false} PickMultiset<T>(s: seq<T>, p: seq<nat>, q: seq<nat>)
    requires Below(p, |s|) && Below(q, |s|)
    requires multiset(p) == multiset(q)
    ensures multiset(Pick(s, p)) == multiset(Pick(s, q))
    decreases |p|
  {
    if p == [] {
      assert |q| == |multiset(q)| == 0;
    } else {
      var x := p[0];
      assert x in multiset(p);
      var k := IndexOf(q, x);
      RemoveMatching(p, q, k);
      PickMultiset(s, p[1..], q[..k] + q[k + 1..]);
      PickRemove(s, q, k);
    }
  }

  /** A permutation of all indices picks a permutation of the sequence. */
  lemma {:induction false} PickPermutation<T>(s: seq<T>, p: seq<nat>)
    requires Below(p, |s|)
    requires multiset(p) == multiset(Range(|s|))
    ensures multiset(Pick(s, p)) == multiset(s)
  {
    PickMultiset(s, p, Range(|s|));
    forall k | 0 <= k < |s| ensures Pick(s, Range(|s|))[k] == s[k] {
      PickAt(s, Range(|s|), k);
    }
    assert Pick(s, Range(|s|)) == s;
  }

  /** Distinct indices into a duplicate-free sequence pick distinct elements. */
  lemma {:induction false} PickNoDup<T>(s: seq<T>, p: seq<nat>)
    requires Below(p, |s|) && NoDup(s) && NoDup(p)
    ensures NoDup(Pick(s, p))
  {
    forall a, b | 0 <= a < b < |p| ensures Pick(s, p)[a] != Pick(s, p)[b] {
      PickAt(s, p, a);
      PickAt(s, p, b);
    }
  }

  /** A duplicate-free sequence holds each value at most once. */
  lemma {:induction false} NoDupCount<T>(s: seq<T>, x: T)
    requires NoDup(s)
    ensures multiset(s)[x] <= 1
    decreases |s|
  {
    if s != [] {
      assert s == [s[0]] + s[1..];
      NoDupCount(s[1..], x);
      if s[0] == x {
        assert x !in s[1..];
      }
    }
  }

  /** Two sequences with the same elements are both free of duplicates, or neither is. */
  lemma {:induction false} NoDupMultiset<T>(s: seq<T>, t: seq<T>)
    requires NoDup(s) && multiset(s) == multiset(t)
    ensures NoDup(t)
  {
    forall a, b | 0 <= a < b < |t| ensures t[a] != t[b] {
      NoDupCount(s, t[a]);
      RepeatCount(t, a, b);
    }
  }

  lemma {:induction false} RepeatCount<T>(t: seq<T>, a: nat, b: nat)
    requires a < b < |t|
    ensures t[a] == t[b] ==> multiset(t)[t[a]] >= 2
  {
    assert t == t[..a] + [t[a]] + t[a + 1..b] + [t[b]] + t[b + 1..];
  }
}
