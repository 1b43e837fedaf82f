/**
 * `GeneAnatomy._merge_fragments` (anatomizer/new_anatomizer.py): single-pass
 * grouping of fragments, and the domain each group becomes.
 *
 * The grouping is specified by `Groups`, a function over the ordered list of
 * indices not yet claimed; `GroupFragments` is the source's loop with its
 * `visited` set, proved to compute it.
 */
module Clustering {
  import opened Wrappers
  import opened Indices
  import opened OverlapMetrics
  import opened Anatomy

  /** Python's `ipr in parents` for an id that may be `None`, over a chain of strings. */
  predicate ListedIn(ipr: Option<string>, parents: seq<string>)
  {
    match ipr
    case Some(id) => id in parents
    case None => false
  }

  /**
   * `are_parents`: any of three tests sets the answer: the same id (two
   * missing ids included), or either id in the other's ancestor chain. A
   * missing id is in no chain.
   */
  predicate AreParents(f1: Fragment, f2: Fragment): (r: bool)
    ensures r <==> (|| f1.iprId == f2.iprId
                    || (f1.iprId.Some? && f1.iprId.value in f2.iprParents)
                    || (f2.iprId.Some? && f2.iprId.value in f1.iprParents))
  {
    f1.iprId == f2.iprId || ListedIn(f1.iprId, f2.iprParents) || ListedIn(f2.iprId, f1.iprParents)
  }

  lemma {:induction false} AreParentsReflexive(f: Fragment)
    ensures AreParents(f, f)
  {
  }

  lemma {:induction false} AreParentsSymmetric(f1: Fragment, f2: Fragment)
    ensures AreParents(f1, f2) <==> AreParents(f2, f1)
  {
  }

  /** The overlap threshold grouping uses; the `overlap_threshold` argument is never read. */
  const IprOverlapThreshold: real := 0.1

  /** `f` may join a group through its member `member`. */
  predicate Linked(member: Fragment, f: Fragment)
  {
    AreParents(member, f) && MergeOverlap(member.AsSpan(), f.AsSpan()) >= IprOverlapThreshold
  }

  /** Some member of the group, as it stands, lets `f` join. */
  predicate Accepts(group: seq<Fragment>, f: Fragment)
  {
    exists m | 0 <= m < |group| :: Linked(group[m], f)
  }

  /**
   * One group grown from `group` by scanning the unclaimed indices `ys` once,
   * in order: each is tested against the members present when it is reached.
   * Returns the group and the indices left unclaimed, in order.
   */
  function Grow(fs: seq<Fragment>, group: seq<nat>, ys: seq<nat>): (r: (seq<nat>, seq<nat>))
    requires Below(group, |fs|) && Below(ys, |fs|)
    ensures Below(r.0, |fs|) && Below(r.1, |fs|)
    ensures |group| <= |r.0| && |r.1| <= |ys|
    decreases |ys|
  {
    if ys == [] then (group, [])
    else if Accepts(Pick(fs, group), fs[ys[0]]) then Grow(fs, group + [ys[0]], ys[1..])
    else
      var (g, left) := Grow(fs, group, ys[1..]);
      (g, [ys[0]] + left)
  }

  /** The groups formed from the unclaimed indices `rem`, each seeded by the first of them. */
  function Groups(fs: seq<Fragment>, rem: seq<nat>): (gs: seq<seq<nat>>)
    requires Below(rem, |fs|)
    ensures forall a :: 0 <= a < |gs| ==> gs[a] != [] && Below(gs[a], |fs|)
    decreases |rem|
  {
    if rem == [] then []
    else
      var (g, left) := Grow(fs, [rem[0]], rem[1..]);
      [g] + Groups(fs, left)
  }

  /** The fragments an index grouping stands for. */
  function PickGroups(fs: seq<Fragment>, gs: seq<seq<nat>>): (r: seq<seq<Fragment>>)
    requires forall a :: 0 <= a < |gs| ==> Below(gs[a], |fs|)
    ensures |r| == |gs|
    ensures forall a :: 0 <= a < |gs| ==> r[a] == Pick(fs, gs[a])
  {
    seq(|gs|, a requires 0 <= a < |gs| => Pick(fs, gs[a]))
  }

  lemma {:induction false} PickSnoc<T>(s: seq<T>, idx: seq<nat>, j: nat)
    requires Below(idx, |s|) && j < |s|
    ensures Below(idx + [j], |s|) && Pick(s, idx + [j]) == Pick(s, idx) + [s[j]]
  {
    PickAppend(s, idx, [j]);
  }

  /** One step of `Grow`: the scan reaches `j`. */
  lemma {:induction false} GrowStep(fs: seq<Fragment>, members: seq<nat>, j: nat, after: seq<nat>)
    requires Below(members, |fs|) && Below(after, |fs|) && j < |fs|
    ensures Below([j] + after, |fs|) && Below(members + [j], |fs|)
    ensures Grow(fs, members, [j] + after) ==
      if Accepts(Pick(fs, members), fs[j]) then Grow(fs, members + [j], after)
      else (Grow(fs, members, after).0, [j] + Grow(fs, members, after).1)
  {
    assert ([j] + after)[1..] == after;
  }

  /** The `for member in group` scan: does some member let `feature2` join? */
  method ScanMembers(group: seq<Fragment>, feature2: Fragment) returns (joined: bool)
    ensures joined <==> Accepts(group, feature2)
  {
    joined := false;
    var k := 0;
    while k < |group|
      invariant 0 <= k <= |group|
      invariant forall m :: 0 <= m < k ==> !Linked(group[m], feature2)
    {
      var member := group[k];
      var overlap := MergeOverlap(member.AsSpan(), feature2.AsSpan());
      var condition := AreParents(member, feature2);
      if condition && overlap >= IprOverlapThreshold {
        joined := true;
        break;
      }
      k := k + 1;
    }
  }

  /**
   * Where the scan for the group seeded by `i` stands before index `j`: the
   * group so far is `members`, the indices rejected so far are `left`, and
   * growing on over the rest gives the outcome `target` of the whole scan.
   */
  ghost predicate ScanState(fs: seq<Fragment>, i: nat, j: nat, visited: set<nat>,
                            members: seq<nat>, left: seq<nat>, target: (seq<nat>, seq<nat>))
  {
    && i < j <= |fs|
    && Below(members, |fs|)
    && left == Unvisited(i + 1, j, visited)
    && target.0 == Grow(fs, members, Unvisited(j, |fs|, visited)).0
    && target.1 == left + Grow(fs, members, Unvisited(j, |fs|, visited)).1
  }

  lemma {:induction false} ScanSkip(fs: seq<Fragment>, i: nat, j: nat, visited: set<nat>,
                 members: seq<nat>, left: seq<nat>, target: (seq<nat>, seq<nat>))
    requires ScanState(fs, i, j, visited, members, left, target) && j < |fs| && j in visited
    ensures ScanState(fs, i, j + 1, visited, members, left, target)
  {
    UnvisitedSkip(j, |fs|, visited);
    assert Unvisited(i + 1, j + 1, visited) == Unvisited(i + 1, j, visited) + [];
  }

  lemma {:induction false} ScanJoin(fs: seq<Fragment>, i: nat, j: nat, visited: set<nat>,
                 members: seq<nat>, left: seq<nat>, target: (seq<nat>, seq<nat>))
    requires ScanState(fs, i, j, visited, members, left, target) && j < |fs| && j !in visited
    requires Accepts(Pick(fs, members), fs[j])
    ensures ScanState(fs, i, j + 1, visited + {j}, members + [j], left, target)
  {
    var n := |fs|;
    var v2 := visited + {j};
    var after := Unvisited(j + 1, n, visited);
    assert Unvisited(j, n, visited) == [j] + after by {
      UnvisitedFront(j, n, visited);
    }
    assert Below(members + [j], n) && Grow(fs, members, [j] + after) == Grow(fs, members + [j], after) by {
      GrowStep(fs, members, j, after);
    }
    assert Unvisited(j + 1, n, v2) == after by {
      UnvisitedOutside(j + 1, n, visited, {j});
    }
    assert Unvisited(i + 1, j + 1, v2) == left by {
      UnvisitedOutside(i + 1, j, visited, {j});
      assert Unvisited(i + 1, j + 1, v2) == Unvisited(i + 1, j, v2);
    }
  }

  lemma {:induction false} ScanReject(fs: seq<Fragment>, i: nat, j: nat, visited: set<nat>,
                   members: seq<nat>, left: seq<nat>, target: (seq<nat>, seq<nat>))
    requires ScanState(fs, i, j, visited, members, left, target) && j < |fs| && j !in visited
    requires !Accepts(Pick(fs, members), fs[j])
    ensures ScanState(fs, i, j + 1, visited, members, left + [j], target)
  {
    var n := |fs|;
    UnvisitedFront(j, n, visited);
    var after := Unvisited(j + 1, n, visited);
    GrowStep(fs, members, j, after);
    assert Unvisited(i + 1, j + 1, visited) == left + [j];
    assert target.1 == left + ([j] + Grow(fs, members, after).1);
    assert left + ([j] + Grow(fs, members, after).1) == (left + [j]) + Grow(fs, members, after).1;
  }

  /**
   * The `for j in range(i + 1, nfeatures)` loop: grows the group seeded by
   * `i`, marking each index that joins as visited.
   */
  method GrowGroup(fragments: seq<Fragment>, i: nat, visited: set<nat>)
    returns (group: seq<Fragment>, visited': set<nat>)
    requires i < |fragments|
    ensures var r := Grow(fragments, [i], Unvisited(i + 1, |fragments|, visited));
      && group == Pick(fragments, r.0)
      && Unvisited(i + 1, |fragments|, visited') == r.1
  {
    var n := |fragments|;
    group := [fragments[i]];
    visited' := visited + {i};
    ghost var target := Grow(fragments, [i], Unvisited(i + 1, n, visited));
    ghost var members: seq<nat> := [i];
    ghost var left: seq<nat> := [];
    ScanStart(fragments, i, visited);
    for j := i + 1 to n
      invariant ScanState(fragments, i, j, visited', members, left, target)
      invariant group == Pick(fragments, members)
    {
      if j in visited' {
        ScanSkip(fragments, i, j, visited', members, left, target);
      } else {
        var feature2 := fragments[j];
        var joined := ScanMembers(group, feature2);
        if joined {
          ScanJoin(fragments, i, j, visited', members, left, target);
          PickSnoc(fragments, members, j);
          group := group + [feature2];
          visited' := visited' + {j};
          members := members + [j];
        } else {
          ScanReject(fragments, i, j, visited', members, left, target);
          left := left + [j];
        }
      }
    }
    ScanEnd(fragments, i, visited', members, left, target);
  }

  /** Before the scan: the group is the seed `i`, which is marked visited, and nothing is rejected yet. */
  lemma {:induction false} ScanStart(fs: seq<Fragment>, i: nat, visited: set<nat>)
    requires i < |fs|
    ensures ScanState(fs, i, i + 1, visited + {i}, [i], [], Grow(fs, [i], Unvisited(i + 1, |fs|, visited)))
  {
    UnvisitedOutside(i + 1, |fs|, visited, {i});
    assert Unvisited(i + 1, i + 1, visited + {i}) == [];
  }

  /** After the scan: the group is complete and the rejected indices are the unvisited ones after `i`. */
  lemma {:induction false} ScanEnd(fs: seq<Fragment>, i: nat, visited: set<nat>,
                members: seq<nat>, left: seq<nat>, target: (seq<nat>, seq<nat>))
    requires ScanState(fs, i, |fs|, visited, members, left, target)
    ensures target == (members, Unvisited(i + 1, |fs|, visited))
  {
    assert Unvisited(|fs|, |fs|, visited) == [];
    assert left + [] == left;
  }

  /**
   * Starting a group at the unvisited index `i`: it is the first group of
   * what is left, and what it rejects is what is left after it.
   */
  lemma {:induction false} GroupsStep(fs: seq<Fragment>, i: nat, visited: set<nat>, visited': set<nat>,
                   done: seq<seq<Fragment>>, all: seq<seq<Fragment>>)
    requires i < |fs| && i !in visited
    requires done + PickGroups(fs, Groups(fs, Unvisited(i, |fs|, visited))) == all
    requires Unvisited(i + 1, |fs|, visited') == Grow(fs, [i], Unvisited(i + 1, |fs|, visited)).1
    ensures (done + [Pick(fs, Grow(fs, [i], Unvisited(i + 1, |fs|, visited)).0)])
      + PickGroups(fs, Groups(fs, Unvisited(i + 1, |fs|, visited'))) == all
  {
    var rest := Unvisited(i + 1, |fs|, visited);
    var r := Grow(fs, [i], rest);
    var tail := Groups(fs, r.1);
    assert Groups(fs, Unvisited(i, |fs|, visited)) == [r.0] + tail by {
      UnvisitedFront(i, |fs|, visited);
      assert ([i] + rest)[1..] == rest;
    }
    assert PickGroups(fs, [r.0] + tail) == [Pick(fs, r.0)] + PickGroups(fs, tail) by {
      PickGroupsCons(fs, r.0, tail);
    }
    assert done + ([Pick(fs, r.0)] + PickGroups(fs, tail)) == (done + [Pick(fs, r.0)]) + PickGroups(fs, tail);
  }

  lemma {:induction false} PickGroupsCons(fs: seq<Fragment>, g: seq<nat>, gs: seq<seq<nat>>)
    requires Below(g, |fs|) && forall a :: 0 <= a < |gs| ==> Below(gs[a], |fs|)
    ensures forall a :: 0 <= a < |[g] + gs| ==> Below(([g] + gs)[a], |fs|)
    ensures PickGroups(fs, [g] + gs) == [Pick(fs, g)] + PickGroups(fs, gs)
  {
    assert forall a :: 0 < a < |[g] + gs| ==> ([g] + gs)[a] == gs[a - 1];
  }

  /** The grouping loop of `_merge_fragments`. */
  method GroupFragments(fragments: seq<Fragment>) returns (groups: seq<seq<Fragment>>)
    ensures groups == PickGroups(fragments, Groups(fragments, Range(|fragments|)))
  {
    var n := |fragments|;
    var visited: set<nat> := {};
    groups := [];
    UnvisitedAll(n);
    ghost var all := PickGroups(fragments, Groups(fragments, Range(n)));
    for i := 0 to n
      invariant groups + PickGroups(fragments, Groups(fragments, Unvisited(i, n, visited))) == all
    {
      var feature1 := fragments[i];
      if i !in visited {
        ghost var before := visited;
        var group;
        group, visited := GrowGroup(fragments, i, visited);
        GroupsStep(fragments, i, before, visited, groups, all);
        groups := groups + [group];
      } else {
        UnvisitedSkip(i, n, visited);
      }
    }
    assert Unvisited(n, n, visited) == [];
  }

  // Properties of the grouping.

  /** Every element of `a` is below every element of `b`. */
  ghost predicate Precedes(a: seq<nat>, b: seq<nat>)
  {
    forall x, y :: x in a && y in b ==> x < y
  }

  /** Growing splits the seed and the scanned indices between the group and the rest. */
  lemma {:induction false} GrowPartition(fs: seq<Fragment>, group: seq<nat>, ys: seq<nat>)
    requires Below(group, |fs|) && Below(ys, |fs|)
    ensures var r := Grow(fs, group, ys);
      multiset(r.0) + multiset(r.1) == multiset(group) + multiset(ys)
    decreases |ys|
  {
    if ys != [] {
      var y := ys[0];
      var rest := ys[1..];
      assert ys == [y] + rest;
      if Accepts(Pick(fs, group), fs[y]) {
        GrowPartition(fs, group + [y], rest);
      } else {
        GrowPartition(fs, group, rest);
        var r := Grow(fs, group, rest);
        assert Grow(fs, group, ys) == (r.0, [y] + r.1);
        forall x ensures (multiset(r.0) + multiset([y] + r.1))[x] == (multiset(group) + multiset(ys))[x] {
          assert (multiset(r.0) + multiset(r.1))[x] == (multiset(group) + multiset(rest))[x];
        }
      }
    }
  }

  /** Growing only appends to the seed. */
  lemma {:induction false} GrowPrefix(fs: seq<Fragment>, group: seq<nat>, ys: seq<nat>)
    requires Below(group, |fs|) && Below(ys, |fs|)
    ensures |group| <= |Grow(fs, group, ys).0| && Grow(fs, group, ys).0[..|group|] == group
    decreases |ys|
  {
    if ys != [] {
      var y := ys[0];
      if Accepts(Pick(fs, group), fs[y]) {
        GrowPrefix(fs, group + [y], ys[1..]);
        var g := Grow(fs, group + [y], ys[1..]).0;
        assert g[..|group|] == g[..|group| + 1][..|group|];
        assert (group + [y])[..|group|] == group;
      } else {
        GrowPrefix(fs, group, ys[1..]);
      }
    }
  }

  /**
   * When the seed and the scanned indices are increasing and the seed comes
   * first, the group and the rejected indices are increasing.
   */
  lemma {:induction false} GrowOrdered(fs: seq<Fragment>, group: seq<nat>, ys: seq<nat>)
    requires Below(group, |fs|) && Below(ys, |fs|)
    requires Increasing(group) && Increasing(ys) && Precedes(group, ys)
    ensures Increasing(Grow(fs, group, ys).0) && Increasing(Grow(fs, group, ys).1)
    decreases |ys|
  {
    if ys != [] {
      var y := ys[0];
      var rest := ys[1..];
      assert y in ys;
      assert Increasing(rest) && forall x :: x in rest ==> y < x by {
        IncreasingTail(ys);
      }
      assert Precedes(group, rest) by {
        forall x, z | x in group && z in rest ensures x < z {
          assert z in ys;
        }
      }
      if Accepts(Pick(fs, group), fs[y]) {
        assert Increasing(group + [y]) by {
          IncreasingSnoc(group, y);
        }
        assert Precedes(group + [y], rest) by {
          forall x, z | x in group + [y] && z in rest ensures x < z {
            if x != y {
              assert x in group;
            }
          }
        }
        GrowOrdered(fs, group + [y], rest);
      } else {
        GrowOrdered(fs, group, rest);
        var r := Grow(fs, group, rest);
        assert Grow(fs, group, ys) == (r.0, [y] + r.1);
        assert Increasing([y] + r.1) by {
          forall x | x in r.1 ensures y < x {
            GrowPartition(fs, group, rest);
            GrowPrefix(fs, group, rest);
            assert r.0 == group + r.0[|group|..];
            assert (multiset(r.0) + multiset(r.1))[x] == (multiset(group) + multiset(rest))[x];
            assert x in multiset(r.1);
            assert x in rest;
          }
          IncreasingCons(y, r.1);
        }
      }
    }
  }

  /** Every member of `g` from position `from` on is linked to some member listed before it. */
  ghost predicate JoinedByEarlier(fs: seq<Fragment>, g: seq<nat>, from: nat)
    requires Below(g, |fs|)
  {
    forall k :: from <= k < |g| ==> exists m :: 0 <= m < k && Linked(fs[g[m]], fs[g[k]])
  }

  /** Each index the scan adds was accepted by a member already in the group. */
  lemma {:induction false} GrowAccepted(fs: seq<Fragment>, group: seq<nat>, ys: seq<nat>)
    requires Below(group, |fs|) && Below(ys, |fs|)
    ensures JoinedByEarlier(fs, Grow(fs, group, ys).0, |group|)
    decreases |ys|
  {
    if ys != [] {
      var y := ys[0];
      if Accepts(Pick(fs, group), fs[y]) {
        GrowAccepted(fs, group + [y], ys[1..]);
        GrowPrefix(fs, group + [y], ys[1..]);
        var g := Grow(fs, group + [y], ys[1..]).0;
        JoinedAt(fs, group, y, g);
      } else {
        GrowAccepted(fs, group, ys[1..]);
        assert Grow(fs, group, ys).0 == Grow(fs, group, ys[1..]).0;
      }
    }
  }

  /** The index a group accepts is linked to a member that was in the group before it. */
  lemma {:induction false} JoinedAt(fs: seq<Fragment>, group: seq<nat>, y: nat, g: seq<nat>)
    requires Below(group, |fs|) && y < |fs| && Below(g, |fs|) && Accepts(Pick(fs, group), fs[y])
    requires |group| + 1 <= |g| && g[..|group| + 1] == group + [y]
    ensures exists m :: 0 <= m < |group| && Linked(fs[g[m]], fs[g[|group|]])
  {
    var m :| 0 <= m < |group| && Linked(Pick(fs, group)[m], fs[y]);
    PickAt(fs, group, m);
    assert g[m] == g[..|group| + 1][m] == group[m];
    assert g[|group|] == g[..|group| + 1][|group|] == y;
  }

  /**
   * An index the scan rejects is never retested: no member that was already
   * in the group when it was reached lets it in, and members that join later
   * are not tried against it.
   */
  lemma {:induction false} GrowRejected(fs: seq<Fragment>, group: seq<nat>, ys: seq<nat>)
    requires Below(group, |fs|) && Below(ys, |fs|) && Increasing(ys)
    ensures var r := Grow(fs, group, ys);
      forall y, m :: y in r.1 && m in r.0 && m < y ==> !Linked(fs[m], fs[y])
    decreases |ys|
  {
    if ys != [] {
      var y0 := ys[0];
      var rest := ys[1..];
      assert Increasing(rest) && forall x :: x in rest ==> y0 < x by {
        IncreasingTail(ys);
      }
      if Accepts(Pick(fs, group), fs[y0]) {
        GrowRejected(fs, group + [y0], rest);
      } else {
        GrowRejected(fs, group, rest);
        var r := Grow(fs, group, rest);
        assert Grow(fs, group, ys) == (r.0, [y0] + r.1);
        forall m | m in r.0 && m < y0 ensures !Linked(fs[m], fs[y0]) {
          GrowPartition(fs, group, rest);
          GrowPrefix(fs, group, rest);
          var extra := r.0[|group|..];
          assert r.0 == group + extra;
          forall x | x in extra ensures x in rest {
            assert (multiset(r.0) + multiset(r.1))[x] == (multiset(group) + multiset(rest))[x];
            assert x in multiset(rest);
          }
          assert m in group;
          var k :| 0 <= k < |group| && group[k] == m;
          PickAt(fs, group, k);
        }
      }
    }
  }

  /** The first group and what is left for the others. */
  lemma {:induction false} GroupsUnfold(fs: seq<Fragment>, rem: seq<nat>)
    requires Below(rem, |fs|) && rem != []
    ensures var r := Grow(fs, [rem[0]], rem[1..]);
      Groups(fs, rem) == [r.0] + Groups(fs, r.1)
  {
  }

  /** Every index in a group is one of the indices the grouping started from. */
  lemma {:induction false} GroupsMembers(fs: seq<Fragment>, rem: seq<nat>)
    requires Below(rem, |fs|)
    ensures var gs := Groups(fs, rem);
      forall a, x :: 0 <= a < |gs| && x in gs[a] ==> x in rem
    decreases |rem|
  {
    if rem != [] {
      var r := Grow(fs, [rem[0]], rem[1..]);
      GroupsUnfold(fs, rem);
      GroupsMembers(fs, r.1);
      GrowPartition(fs, [rem[0]], rem[1..]);
      var gs := Groups(fs, rem);
      forall a, x | 0 <= a < |gs| && x in gs[a] ensures x in rem {
        if a == 0 {
          assert (multiset(r.0) + multiset(r.1))[x] == (multiset([rem[0]]) + multiset(rem[1..]))[x];
          assert x in multiset([rem[0]]) || x in multiset(rem[1..]);
          assert rem == [rem[0]] + rem[1..];
        } else {
          assert gs[a] == Groups(fs, r.1)[a - 1];
          assert x in r.1;
          assert x in multiset(r.1);
          assert (multiset(r.0) + multiset(r.1))[x] == (multiset([rem[0]]) + multiset(rem[1..]))[x];
          assert x in multiset([rem[0]]) || x in multiset(rem[1..]);
          assert rem == [rem[0]] + rem[1..];
        }
      }
    }
  }

  /** The groups, laid end to end, hold every starting index exactly as often as it occurs. */
  lemma {:induction false} GroupsPartition(fs: seq<Fragment>, rem: seq<nat>)
    requires Below(rem, |fs|)
    ensures multiset(Concat(Groups(fs, rem))) == multiset(rem)
    decreases |rem|
  {
    if rem != [] {
      var r := Grow(fs, [rem[0]], rem[1..]);
      var gs := Groups(fs, rem);
      GroupsUnfold(fs, rem);
      GroupsPartition(fs, r.1);
      GrowPartition(fs, [rem[0]], rem[1..]);
      assert Concat(gs) == r.0 + Concat(Groups(fs, r.1)) by {
        assert gs[0] == r.0 && gs[1..] == Groups(fs, r.1);
      }
      assert rem == [rem[0]] + rem[1..];
      forall x ensures multiset(Concat(gs))[x] == multiset(rem)[x] {
        assert (multiset(r.0) + multiset(r.1))[x] == (multiset([rem[0]]) + multiset(rem[1..]))[x];
      }
    }
  }

  /** Each group is non-empty and lists its members in increasing index order. */
  lemma {:induction false} GroupsIncreasing(fs: seq<Fragment>, rem: seq<nat>)
    requires Below(rem, |fs|) && Increasing(rem)
    ensures var gs := Groups(fs, rem);
      forall a :: 0 <= a < |gs| ==> gs[a] != [] && Increasing(gs[a])
    decreases |rem|
  {
    if rem != [] {
      var r := Grow(fs, [rem[0]], rem[1..]);
      var gs := Groups(fs, rem);
      GroupsUnfold(fs, rem);
      assert Increasing(rem[1..]) && forall x :: x in rem[1..] ==> rem[0] < x by {
        IncreasingTail(rem);
      }
      GrowOrdered(fs, [rem[0]], rem[1..]);
      GrowPrefix(fs, [rem[0]], rem[1..]);
      GroupsIncreasing(fs, r.1);
      forall a | 0 <= a < |gs| ensures gs[a] != [] && Increasing(gs[a]) {
        if a > 0 {
          assert gs[a] == Groups(fs, r.1)[a - 1];
        }
      }
    }
  }

  /** The indices a group rejects all come after its first index. */
  lemma {:induction false} GrowLeftAfterSeed(fs: seq<Fragment>, rem: seq<nat>)
    requires Below(rem, |fs|) && Increasing(rem) && rem != []
    ensures forall x :: x in Grow(fs, [rem[0]], rem[1..]).1 ==> rem[0] < x
  {
    var r := Grow(fs, [rem[0]], rem[1..]);
    assert forall x :: x in rem[1..] ==> rem[0] < x by {
      IncreasingTail(rem);
    }
    GrowPartition(fs, [rem[0]], rem[1..]);
    GrowPrefix(fs, [rem[0]], rem[1..]);
    forall x | x in r.1 ensures rem[0] < x {
      assert r.0 == [rem[0]] + r.0[1..];
      assert (multiset(r.0) + multiset(r.1))[x] == (multiset([rem[0]]) + multiset(rem[1..]))[x];
      assert x in multiset(rem[1..]);
    }
  }

  /**
   * Each group starts with the smallest index not claimed by an earlier
   * group: its first index is below every index of every later group.
   */
  lemma {:induction false} GroupsHeads(fs: seq<Fragment>, rem: seq<nat>)
    requires Below(rem, |fs|) && Increasing(rem)
    ensures var gs := Groups(fs, rem);
      forall a, b, x :: 0 <= a < b < |gs| && x in gs[b] ==> gs[a][0] < x
    decreases |rem|
  {
    if rem != [] {
      var r := Grow(fs, [rem[0]], rem[1..]);
      var gs := Groups(fs, rem);
      GroupsUnfold(fs, rem);
      assert Increasing(rem[1..]) by {
        IncreasingTail(rem);
      }
      GrowOrdered(fs, [rem[0]], rem[1..]);
      GrowPrefix(fs, [rem[0]], rem[1..]);
      GrowLeftAfterSeed(fs, rem);
      GroupsHeads(fs, r.1);
      GroupsMembers(fs, r.1);
      assert gs[0] == r.0 && r.0[0] == rem[0];
      forall a, b, x | 0 <= a < b < |gs| && x in gs[b] ensures gs[a][0] < x {
        assert gs[b] == Groups(fs, r.1)[b - 1];
        if a > 0 {
          assert gs[a] == Groups(fs, r.1)[a - 1];
        } else {
          assert x in r.1;
        }
      }
    }
  }

  /** Every member after the first joined because a member listed before it links to it. */
  lemma {:induction false} GroupsAccepted(fs: seq<Fragment>, rem: seq<nat>)
    requires Below(rem, |fs|)
    ensures var gs := Groups(fs, rem);
      forall a :: 0 <= a < |gs| ==> JoinedByEarlier(fs, gs[a], 1)
    decreases |rem|
  {
    if rem != [] {
      var r := Grow(fs, [rem[0]], rem[1..]);
      var gs := Groups(fs, rem);
      var h := Groups(fs, r.1);
      GroupsUnfold(fs, rem);
      GroupsAccepted(fs, r.1);
      GrowAccepted(fs, [rem[0]], rem[1..]);
      forall a | 0 <= a < |gs| ensures JoinedByEarlier(fs, gs[a], 1) {
        if a > 0 {
          assert gs[a] == h[a - 1];
        }
      }
    }
  }

  /**
   * Grouping is not a closure under the link relation: an index that ends in
   * a later group is linked to no member of an earlier group that comes
   * before it in index order, since it was tested against exactly those.
   */
  lemma {:induction false} GroupsRejected(fs: seq<Fragment>, rem: seq<nat>)
    requires Below(rem, |fs|) && Increasing(rem)
    ensures var gs := Groups(fs, rem);
      forall a, b, m, y :: 0 <= a < b < |gs| && m in gs[a] && y in gs[b] && m < y ==> !Linked(fs[m], fs[y])
    decreases |rem|
  {
    if rem != [] {
      var r := Grow(fs, [rem[0]], rem[1..]);
      var gs := Groups(fs, rem);
      GroupsUnfold(fs, rem);
      assert Increasing(rem[1..]) by {
        IncreasingTail(rem);
      }
      GrowOrdered(fs, [rem[0]], rem[1..]);
      GrowRejected(fs, [rem[0]], rem[1..]);
      GroupsRejected(fs, r.1);
      GroupsMembers(fs, r.1);
      forall a, b, m, y | 0 <= a < b < |gs| && m in gs[a] && y in gs[b] && m < y
        ensures !Linked(fs[m], fs[y])
      {
        assert gs[b] == Groups(fs, r.1)[b - 1];
        if a > 0 {
          assert gs[a] == Groups(fs, r.1)[a - 1];
        } else {
          assert y in r.1;
        }
      }
    }
  }

  lemma {:induction false} ConcatBelow(gs: seq<seq<nat>>, n: nat)
    requires forall a :: 0 <= a < |gs| ==> Below(gs[a], n)
    ensures Below(Concat(gs), n)
  {
    if gs != [] {
      ConcatBelow(gs[1..], n);
      assert forall a :: 0 <= a < |gs[1..]| ==> gs[1..][a] == gs[a + 1];
    }
  }

  /** Laying the fragment groups end to end picks the concatenated index groups. */
  lemma {:induction false} ConcatPickGroups(fs: seq<Fragment>, gs: seq<seq<nat>>)
    requires forall a :: 0 <= a < |gs| ==> Below(gs[a], |fs|)
    ensures Below(Concat(gs), |fs|)
    ensures Concat(PickGroups(fs, gs)) == Pick(fs, Concat(gs))
  {
    ConcatBelow(gs, |fs|);
    if gs != [] {
      PickGroupsCons(fs, gs[0], gs[1..]);
      assert gs == [gs[0]] + gs[1..];
      ConcatPickGroups(fs, gs[1..]);
      ConcatBelow(gs[1..], |fs|);
      PickAppend(fs, gs[0], Concat(gs[1..]));
    }
  }

  /**
   * The grouping `_merge_fragments` performs is a partition: every fragment
   * index lands in exactly one group, exactly once, and the groups laid end
   * to end are a reordering of the fragments.
   */
  lemma {:induction false} GroupingPartition(fs: seq<Fragment>)
    ensures var gs := Groups(fs, Range(|fs|));
      && NoDup(Concat(gs))
      && (forall x: int :: x in Concat(gs) <==> 0 <= x < |fs|)
      && multiset(Concat(PickGroups(fs, gs))) == multiset(fs)
  {
    var n := |fs|;
    var gs := Groups(fs, Range(n));
    GroupsPartition(fs, Range(n));
    NoDupMultiset(Range(n), Concat(gs));
    forall x: int ensures x in Concat(gs) <==> 0 <= x < n {
      assert x in Concat(gs) <==> x in multiset(Range(n));
      if 0 <= x {
        RangeMembers(n, x);
      }
    }
    ConcatPickGroups(fs, gs);
    PickPermutation(fs, Concat(gs));
  }

  /**
   * Groups come out in order of their first index, which is the smallest index
   * no earlier group claimed; each lists its members in increasing index
   * order; every non-first member was admitted by a member listed before it;
   * and no member of an earlier group links to a later-indexed member of a
   * later group.
   */
  lemma {:induction false} GroupingOrder(fs: seq<Fragment>)
    ensures var gs := Groups(fs, Range(|fs|));
      && (forall a :: 0 <= a < |gs| ==> gs[a] != [] && Increasing(gs[a]) && JoinedByEarlier(fs, gs[a], 1))
      && (forall a, b, x :: 0 <= a < b < |gs| && x in gs[b] ==> gs[a][0] < x)
      && (forall a, b, m, y :: 0 <= a < b < |gs| && m in gs[a] && y in gs[b] && m < y ==> !Linked(fs[m], fs[y]))
  {
    var n := |fs|;
    assert Increasing(Range(n));
    GroupsIncreasing(fs, Range(n));
    GroupsAccepted(fs, Range(n));
    GroupsHeads(fs, Range(n));
    GroupsRejected(fs, Range(n));
  }

  /**
   * Not a closure: with the fragments in the order A, C, B, where A and C do
   * not overlap and B overlaps both, A's group takes B after rejecting C, and
   * C is never retested against B, so C ends alone although B links to it.
   */
  lemma {:induction false} GroupingNotClosed()
    ensures var fs := [
        Fragment(0, None, None, None, 0, 10, 10, None, None, Some("IPR1"), None, []),
        Fragment(1, None, None, None, 20, 30, 10, None, None, Some("IPR1"), None, []),
        Fragment(2, None, None, None, 5, 25, 20, None, None, Some("IPR1"), None, [])];
      && Groups(fs, Range(3)) == [[0, 2], [1]]
      && Linked(fs[2], fs[1])
  {
    var fs := [
      Fragment(0, None, None, None, 0, 10, 10, None, None, Some("IPR1"), None, []),
      Fragment(1, None, None, None, 20, 30, 10, None, None, Some("IPR1"), None, []),
      Fragment(2, None, None, None, 5, 25, 20, None, None, Some("IPR1"), None, [])];
    assert !Linked(fs[0], fs[1]);
    assert Linked(fs[0], fs[2]);
    assert Linked(fs[2], fs[1]);
    assert Range(3) == [0, 1, 2];
    assert Pick(fs, [0]) == [fs[0]];
    assert !Accepts(Pick(fs, [0]), fs[1]);
    assert Accepts(Pick(fs, [0]), fs[2]);
    assert [2][1..] == [] && [0] + [2] == [0, 2];
    assert Grow(fs, [0, 2], []) == ([0, 2], []);
    assert Grow(fs, [0], [2]) == ([0, 2], []);
    assert [1, 2][1..] == [2] && [1, 2][0] == 1 && [1] + [] == [1];
    assert fs[[1, 2][0]] == fs[1];
    assert Grow(fs, [0], [1, 2]) == ([0, 2], [1]);
    assert Grow(fs, [1], []) == ([1], []);
    assert Groups(fs, [1]) == [[1]];
  }
}
