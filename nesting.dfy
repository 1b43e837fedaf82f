/**
 * `GeneAnatomy._nest_domains` (anatomizer/new_anatomizer.py): domains are
 * sorted longest first, each still unclaimed domain claims the later ones
 * whose nest ratio against it reaches the threshold, and the claimed domains
 * are nested one level down and appended to their owner's `subdomains`.
 *
 * The specification is functional: `SortByLength`, `Nests` (what
 * `_find_nests` returns) and `Forest` (the tree `_nest` builds). `FindNests`
 * and `Nest` are the source's loops and recursion, proved to compute them.
 */
module Nesting {
  import opened Wrappers
  import opened Indices
  import opened OverlapMetrics
  import opened Anatomy

  // Sorting by length, longest first.

  /** Longest first. */
  ghost predicate Descending(s: seq<DomainAnatomy>)
  {
    forall a, b :: 0 <= a < b < |s| ==> s[a].length >= s[b].length
  }

  /** Places `x` before the first element that is not longer than it. */
  function Insert(x: DomainAnatomy, s: seq<DomainAnatomy>): (r: seq<DomainAnatomy>)
    ensures multiset(r) == multiset(s) + multiset{x} && |r| == |s| + 1
  {
    if s == [] || s[0].length <= x.length then [x] + s
    else
      assert s == [s[0]] + s[1..];
      [s[0]] + Insert(x, s[1..])
  }

  /** No element longer than `len`. */
  ghost predicate AtMost(s: seq<DomainAnatomy>, len: int)
  {
    forall k :: 0 <= k < |s| ==> s[k].length <= len
  }

  lemma {:induction false} InsertAtMost(x: DomainAnatomy, s: seq<DomainAnatomy>, len: int)
    requires AtMost(s, len) && x.length <= len
    ensures AtMost(Insert(x, s), len)
  {
    if !(s == [] || s[0].length <= x.length) {
      InsertAtMost(x, s[1..], len);
    }
  }

  lemma {:induction false} InsertDescending(x: DomainAnatomy, s: seq<DomainAnatomy>)
    requires Descending(s)
    ensures Descending(Insert(x, s))
  {
    if !(s == [] || s[0].length <= x.length) {
      InsertDescending(x, s[1..]);
      InsertAtMost(x, s[1..], s[0].length);
    }
  }

  /**
   * `sorted(domains, key=lambda x: x.length, reverse=True)`: Python's sort is
   * stable also when reversed, so domains of equal length keep their order.
   */
  function SortByLength(ds: seq<DomainAnatomy>): (r: seq<DomainAnatomy>)
    ensures multiset(r) == multiset(ds) && |r| == |ds|
    ensures Descending(r)
  {
    if ds == [] then []
    else
      assert ds == [ds[0]] + ds[1..];
      InsertDescending(ds[0], SortByLength(ds[1..]));
      Insert(ds[0], SortByLength(ds[1..]))
  }

  /** The domains of length `len`, in order. */
  function OfLength(s: seq<DomainAnatomy>, len: int): (r: seq<DomainAnatomy>)
  {
    if s == [] then []
    else (if s[0].length == len then [s[0]] else []) + OfLength(s[1..], len)
  }

  /** `OfLength` of a sequence with one more element in front. */
  lemma {:induction false} OfLengthCons(y: DomainAnatomy, s: seq<DomainAnatomy>, len: int)
    ensures OfLength([y] + s, len) == (if y.length == len then [y] else []) + OfLength(s, len)
  {
    assert ([y] + s)[1..] == s;
  }

  lemma {:induction false} InsertOfLength(x: DomainAnatomy, s: seq<DomainAnatomy>, len: int)
    ensures OfLength(Insert(x, s), len) == (if x.length == len then [x] else []) + OfLength(s, len)
  {
    if s == [] || s[0].length <= x.length {
      OfLengthCons(x, s, len);
    } else {
      var front := if x.length == len then [x] else [];
      var head := if s[0].length == len then [s[0]] else [];
      InsertOfLength(x, s[1..], len);
      OfLengthCons(s[0], Insert(x, s[1..]), len);
      SwapFronts(head, front, OfLength(s[1..], len));
    }
  }

  /** Two fronts of which one is empty can be swapped. */
  lemma {:induction false} SwapFronts<T>(head: seq<T>, front: seq<T>, rest: seq<T>)
    requires head == [] || front == []
    ensures head + (front + rest) == front + (head + rest)
  {
    if head == [] {
      assert head + (front + rest) == front + rest;
    } else {
      assert head + (front + rest) == head + rest;
    }
  }

  /** Stability: among domains of one length, the sorted order is the input order. */
  lemma {:induction false} SortStable(ds: seq<DomainAnatomy>, len: int)
    ensures OfLength(SortByLength(ds), len) == OfLength(ds, len)
  {
    if ds != [] {
      SortStable(ds[1..], len);
      InsertOfLength(ds[0], SortByLength(ds[1..]), len);
    }
  }

  // Claiming: what `_find_nests` computes.

  /** Every domain's stored length is nonzero unless its span is empty, so no nest ratio divides by zero. */
  ghost predicate AllNestSafe(ds: seq<DomainAnatomy>)
  {
    forall k :: 0 <= k < |ds| ==> NestSafe(ds[k].AsSpan())
  }

  /** `_nest_overlap(owner, d) >= nest_threshold`. */
  predicate Claims(owner: DomainAnatomy, d: DomainAnatomy, t: real)
  {
    var r := NestOverlap(owner.AsSpan(), d.AsSpan());
    r.Some? && r.value >= t
  }

  /** One owner's claim over the unclaimed indices `ys`: the claimed ones and the rest, in order. */
  function Split(ds: seq<DomainAnatomy>, t: real, o: nat, ys: seq<nat>): (r: (seq<nat>, seq<nat>))
    requires o < |ds| && Below(ys, |ds|)
    ensures Below(r.0, |ds|) && Below(r.1, |ds|) && |r.0| + |r.1| == |ys|
  {
    if ys == [] then ([], [])
    else
      var (k, l) := Split(ds, t, o, ys[1..]);
      if Claims(ds[o], ds[ys[0]], t) then ([ys[0]] + k, l) else (k, [ys[0]] + l)
  }

  /** An owner and the indices it claimed. */
  datatype Nest = Nest(owner: nat, children: seq<nat>)

  /** The nests formed over the unclaimed indices `rem`, each owned by the first of them. */
  function Nests(ds: seq<DomainAnatomy>, t: real, rem: seq<nat>): (ns: seq<Nest>)
    requires Below(rem, |ds|)
    ensures forall a :: 0 <= a < |ns| ==>
      ns[a].owner < |ds| && Below(ns[a].children, |ds|) && |ns[a].children| < |rem|
    decreases |rem|
  {
    if rem == [] then []
    else
      var (k, l) := Split(ds, t, rem[0], rem[1..]);
      [Nest(rem[0], k)] + Nests(ds, t, l)
  }

  /** The inner scan of `_find_nests` has passed the indices below `j` for owner `i`. */
  ghost predicate NestScan(ds: seq<DomainAnatomy>, t: real, i: nat, j: nat,
                           before: set<nat>, visited: set<nat>, children: seq<nat>)
  {
    var n := |ds|;
    && i < n && j <= n && before <= visited
    && Below(Unvisited(0, n, before), n) && Below(Unvisited(j, n, before), n)
    && Unvisited(j, n, visited) == Unvisited(j, n, before)
    && var target := Split(ds, t, i, Unvisited(0, n, before));
      var rest := Split(ds, t, i, Unvisited(j, n, before));
      && target.0 == children + rest.0
      && target.1 == Unvisited(0, j, visited) + rest.1
  }

  lemma {:induction false} NestScanSkip(ds: seq<DomainAnatomy>, t: real, i: nat, j: nat,
                     before: set<nat>, visited: set<nat>, children: seq<nat>)
    requires NestScan(ds, t, i, j, before, visited, children) && j < |ds| && j in visited
    ensures NestScan(ds, t, i, j + 1, before, visited, children)
  {
    var n := |ds|;
    UnvisitedSameFront(j, n, visited, before);
    UnvisitedSkip(j, n, visited);
    UnvisitedSkip(j, n, before);
    assert Unvisited(0, j + 1, visited) == Unvisited(0, j, visited);
  }

  lemma {:induction false} NestScanClaim(ds: seq<DomainAnatomy>, t: real, i: nat, j: nat,
                      before: set<nat>, visited: set<nat>, children: seq<nat>)
    requires NestScan(ds, t, i, j, before, visited, children) && j < |ds| && j !in visited
    requires Claims(ds[i], ds[j], t)
    ensures NestScan(ds, t, i, j + 1, before, visited + {j}, children + [j])
  {
    var n := |ds|;
    UnvisitedFront(j, n, visited);
    UnvisitedFront(j, n, before);
    assert j !in before;
    var tail := Unvisited(j + 1, n, before);
    assert Unvisited(j, n, before) == [j] + tail;
    assert ([j] + tail)[1..] == tail;
    UnvisitedOutside(j + 1, n, visited, {j});
    UnvisitedOutside(0, j, visited, {j});
    assert Unvisited(0, j + 1, visited + {j}) == Unvisited(0, j, visited + {j});
  }

  lemma {:induction false} NestScanKeep(ds: seq<DomainAnatomy>, t: real, i: nat, j: nat,
                     before: set<nat>, visited: set<nat>, children: seq<nat>)
    requires NestScan(ds, t, i, j, before, visited, children) && j < |ds| && j !in visited
    requires !Claims(ds[i], ds[j], t)
    ensures NestScan(ds, t, i, j + 1, before, visited, children)
  {
    var n := |ds|;
    UnvisitedFront(j, n, visited);
    UnvisitedFront(j, n, before);
    assert j !in before;
    var tail := Unvisited(j + 1, n, before);
    assert Unvisited(j, n, before) == [j] + tail;
    assert ([j] + tail)[1..] == tail;
    assert Unvisited(0, j + 1, visited) == Unvisited(0, j, visited) + [j];
  }

  /** Owner `i` is reached unclaimed: its scan starts with nothing claimed. */
  lemma {:induction false} NestScanStart(ds: seq<DomainAnatomy>, t: real, i: nat, visited: set<nat>)
    requires i < |ds| && i !in visited && Unvisited(0, i, visited) == []
    ensures NestScan(ds, t, i, 0, visited + {i}, visited + {i}, [])
    ensures Unvisited(0, |ds|, visited + {i}) == Unvisited(i + 1, |ds|, visited)
  {
    var n := |ds|;
    var before := visited + {i};
    UnvisitedOutside(i + 1, n, visited, {i});
    assert Unvisited(0, i + 1, before) == [] by {
      UnvisitedMore(0, i, visited, before);
    }
    UnvisitedSplit(0, i + 1, n, before);
  }

  /** Owner `i`'s scan is over: everything up to `i` is visited, and it claimed `children` from the indices after it. */
  lemma {:induction false} NestScanFinished(ds: seq<DomainAnatomy>, t: real, i: nat, visited: set<nat>, visited': set<nat>,
                     children: seq<nat>)
    requires i < |ds| && i !in visited && Unvisited(0, i, visited) == []
    requires Unvisited(0, |ds|, visited + {i}) == Unvisited(i + 1, |ds|, visited)
    requires NestScan(ds, t, i, |ds|, visited + {i}, visited', children)
    ensures Unvisited(0, i + 1, visited') == []
    ensures Split(ds, t, i, Unvisited(i + 1, |ds|, visited)) == (children, Unvisited(i + 1, |ds|, visited'))
  {
    var before := visited + {i};
    UnvisitedMore(0, i, visited, before);
    UnvisitedMore(0, i + 1, before, visited');
    NestScanRest(ds, t, i, before, visited', children);
  }

  /** A finished scan of owner `i`: it claimed `children` and left the indices after `i` it did not visit. */
  lemma {:induction false} NestScanRest(ds: seq<DomainAnatomy>, t: real, i: nat, before: set<nat>, visited: set<nat>,
                     children: seq<nat>)
    requires NestScan(ds, t, i, |ds|, before, visited, children) && Unvisited(0, i + 1, visited) == []
    ensures Split(ds, t, i, Unvisited(0, |ds|, before)) == (children, Unvisited(i + 1, |ds|, visited))
  {
    var n := |ds|;
    assert Unvisited(n, n, before) == [];
    assert Split(ds, t, i, []) == ([], []);
    assert children + [] == children;
    UnvisitedSplit(0, i + 1, n, visited);
    var after := Unvisited(i + 1, n, visited);
    assert [] + after == after;
    assert Unvisited(0, n, visited) + [] == after;
  }

  /** Owner `i`'s nest is the next one the specification lists. */
  lemma {:induction false} NestScanDone(ds: seq<DomainAnatomy>, t: real, i: nat, visited: set<nat>, after: seq<nat>,
                     children: seq<nat>, done: seq<Nest>)
    requires i < |ds| && i !in visited && Split(ds, t, i, Unvisited(i + 1, |ds|, visited)) == (children, after)
    requires done + Nests(ds, t, Unvisited(i, |ds|, visited)) == Nests(ds, t, Range(|ds|))
    ensures Below(after, |ds|)
    ensures (done + [Nest(i, children)]) + Nests(ds, t, after) == Nests(ds, t, Range(|ds|))
  {
    NestsOfUnvisited(ds, t, i, visited);
    assert (done + [Nest(i, children)]) + Nests(ds, t, after) == done + ([Nest(i, children)] + Nests(ds, t, after));
  }

  /** An unvisited owner `i` heads the nests of the unvisited indices from `i` on. */
  lemma {:induction false} NestsOfUnvisited(ds: seq<DomainAnatomy>, t: real, i: nat, visited: set<nat>)
    requires i < |ds| && i !in visited
    ensures var rest := Unvisited(i + 1, |ds|, visited);
      Below(rest, |ds|) &&
      Nests(ds, t, Unvisited(i, |ds|, visited))
        == [Nest(i, Split(ds, t, i, rest).0)] + Nests(ds, t, Split(ds, t, i, rest).1)
  {
    var n := |ds|;
    var rest := Unvisited(i + 1, n, visited);
    UnvisitedFront(i, n, visited);
    UnvisitedMembers(i + 1, n, visited);
    assert Unvisited(i, n, visited) == [i] + rest;
    assert ([i] + rest)[0] == i && ([i] + rest)[1..] == rest;
  }

  /**
   * `_find_nests(list(range(len(domains))), domains)`. The result dict keeps
   * insertion order, so it is a list of nests in order of their owners.
   */
  method FindNests(domains: seq<DomainAnatomy>, t: real) returns (nests: seq<Nest>)
    requires AllNestSafe(domains)
    ensures nests == Nests(domains, t, Range(|domains|))
  {
    var n := |domains|;
    var visited: set<nat> := {};
    nests := [];
    UnvisitedAll(n);
    for i := 0 to n
      invariant Unvisited(0, i, visited) == []
      invariant nests + Nests(domains, t, Unvisited(i, n, visited)) == Nests(domains, t, Range(n))
    {
      if i !in visited {
        ghost var earlier := visited;
        NestScanStart(domains, t, i, visited);
        visited := visited + {i};
        var children: seq<nat> := [];
        for j := 0 to n
          invariant NestScan(domains, t, i, j, earlier + {i}, visited, children)
        {
          if j !in visited {
            NestOverlapDefined(domains[i].AsSpan(), domains[j].AsSpan());
            var overlap := NestOverlap(domains[i].AsSpan(), domains[j].AsSpan()).value;
            if overlap >= t {
              NestScanClaim(domains, t, i, j, earlier + {i}, visited, children);
              children := children + [j];
              visited := visited + {j};
            } else {
              NestScanKeep(domains, t, i, j, earlier + {i}, visited, children);
            }
          } else {
            NestScanSkip(domains, t, i, j, earlier + {i}, visited, children);
          }
        }
        NestScanFinished(domains, t, i, earlier, visited, children);
        NestScanDone(domains, t, i, earlier, Unvisited(i + 1, n, visited), children, nests);
        nests := nests + [Nest(i, children)];
      } else {
        UnvisitedFront(i, n, visited);
        assert [] + Unvisited(i + 1, n, visited) == Unvisited(i + 1, n, visited);
      }
    }
    assert Unvisited(n, n, visited) == [];
  }

  // Properties of the nests.

  /** Owner then children, nest after nest: every index the nests mention, in order. */
  function Members(ns: seq<Nest>): (r: seq<nat>)
  {
    if ns == [] then [] else [ns[0].owner] + ns[0].children + Members(ns[1..])
  }

  lemma {:induction false} MembersAppend(ns: seq<Nest>, ms: seq<Nest>)
    ensures Members(ns + ms) == Members(ns) + Members(ms)
  {
    if ns == [] {
      assert ns + ms == ms;
    } else {
      assert (ns + ms)[0] == ns[0] && (ns + ms)[1..] == ns[1..] + ms;
      MembersAppend(ns[1..], ms);
    }
  }

  lemma {:induction false} SplitPartition(ds: seq<DomainAnatomy>, t: real, o: nat, ys: seq<nat>)
    requires o < |ds| && Below(ys, |ds|)
    ensures var r := Split(ds, t, o, ys);
      multiset(r.0) + multiset(r.1) == multiset(ys)
  {
    if ys != [] {
      var y, rest := ys[0], ys[1..];
      var r := Split(ds, t, o, rest);
      SplitPartition(ds, t, o, rest);
      assert ys == [y] + rest;
      if Claims(ds[o], ds[y], t) {
        assert Split(ds, t, o, ys) == ([y] + r.0, r.1);
        assert multiset([y] + r.0) == multiset{y} + multiset(r.0);
      } else {
        assert Split(ds, t, o, ys) == (r.0, [y] + r.1);
        assert multiset([y] + r.1) == multiset{y} + multiset(r.1);
      }
    }
  }

  /** The owner claims exactly the indices it keeps, and every kept or left index comes from `ys`. */
  lemma {:induction false} SplitClaims(ds: seq<DomainAnatomy>, t: real, o: nat, ys: seq<nat>)
    requires o < |ds| && Below(ys, |ds|)
    ensures var r := Split(ds, t, o, ys);
      && (forall y :: y in r.0 ==> y in ys && Claims(ds[o], ds[y], t))
      && (forall y :: y in r.1 ==> y in ys && !Claims(ds[o], ds[y], t))
  {
    if ys != [] {
      SplitClaims(ds, t, o, ys[1..]);
    }
  }

  lemma {:induction false} SplitIncreasing(ds: seq<DomainAnatomy>, t: real, o: nat, ys: seq<nat>)
    requires o < |ds| && Below(ys, |ds|) && Increasing(ys)
    ensures Increasing(Split(ds, t, o, ys).0) && Increasing(Split(ds, t, o, ys).1)
  {
    if ys != [] {
      var y, rest := ys[0], ys[1..];
      IncreasingTail(ys);
      SplitIncreasing(ds, t, o, rest);
      SplitClaims(ds, t, o, rest);
      var r := Split(ds, t, o, rest);
      if Claims(ds[o], ds[y], t) {
        IncreasingCons(y, r.0);
      } else {
        IncreasingCons(y, r.1);
      }
    }
  }

  lemma {:induction false} NestsUnfold(ds: seq<DomainAnatomy>, t: real, rem: seq<nat>)
    requires Below(rem, |ds|) && rem != []
    ensures var r := Split(ds, t, rem[0], rem[1..]);
      Nests(ds, t, rem) == [Nest(rem[0], r.0)] + Nests(ds, t, r.1)
  {
  }

  /** The nest at position `k` of a non-empty list of indices: the first owner's, or one of the rest. */
  lemma {:induction false} NestsIndex(ds: seq<DomainAnatomy>, t: real, rem: seq<nat>, k: nat)
    requires Below(rem, |ds|) && k < |Nests(ds, t, rem)|
    ensures rem != []
    ensures var r := Split(ds, t, rem[0], rem[1..]);
      && |Nests(ds, t, rem)| == 1 + |Nests(ds, t, r.1)|
      && Nests(ds, t, rem)[k] == if k == 0 then Nest(rem[0], r.0) else Nests(ds, t, r.1)[k - 1]
  {
    NestsUnfold(ds, t, rem);
  }

  /** The nests partition `rem`: every index is an owner or a child, exactly once. */
  lemma {:induction false} NestsPartition(ds: seq<DomainAnatomy>, t: real, rem: seq<nat>)
    requires Below(rem, |ds|)
    ensures multiset(Members(Nests(ds, t, rem))) == multiset(rem)
    decreases |rem|
  {
    if rem != [] {
      var o, rest := rem[0], rem[1..];
      var r := Split(ds, t, o, rest);
      MembersUnfold(ds, t, rem);
      NestsPartition(ds, t, r.1);
      SplitPartition(ds, t, o, rest);
      PartitionStep(rem, r.0, Members(Nests(ds, t, r.1)), r.1);
    }
  }

  /** The members of the nests over `rem`: the first owner, what it claims, then the members of the rest. */
  lemma {:induction false} MembersUnfold(ds: seq<DomainAnatomy>, t: real, rem: seq<nat>)
    requires Below(rem, |ds|) && rem != []
    ensures var r := Split(ds, t, rem[0], rem[1..]);
      Members(Nests(ds, t, rem)) == [rem[0]] + r.0 + Members(Nests(ds, t, r.1))
  {
    var r := Split(ds, t, rem[0], rem[1..]);
    var ns, tail := Nests(ds, t, rem), Nests(ds, t, r.1);
    assert ns == [Nest(rem[0], r.0)] + tail;
    assert ns[0] == Nest(rem[0], r.0) && ns[1..] == tail;
  }

  /** Multiset bookkeeping for one nest: owner, children, then the members of the rest. */
  lemma {:induction false} PartitionStep(rem: seq<nat>, kept: seq<nat>, members: seq<nat>, left: seq<nat>)
    requires rem != []
    requires multiset(members) == multiset(left) && multiset(kept) + multiset(left) == multiset(rem[1..])
    ensures multiset([rem[0]] + kept + members) == multiset(rem)
  {
    assert rem == [rem[0]] + rem[1..];
  }

  /**
   * Over increasing indices, each nest's owner is one of them, and its
   * children come after it, in increasing order, each having passed the nest
   * threshold against the owner.
   */
  lemma {:induction false} NestsChildren(ds: seq<DomainAnatomy>, t: real, rem: seq<nat>)
    requires Below(rem, |ds|) && Increasing(rem)
    ensures var ns := Nests(ds, t, rem);
      && (forall a :: 0 <= a < |ns| ==> ns[a].owner in rem && Increasing(ns[a].children))
      && (forall a, y :: 0 <= a < |ns| && y in ns[a].children ==>
            y in rem && ns[a].owner < y && Claims(ds[ns[a].owner], ds[y], t))
  {
    var ns := Nests(ds, t, rem);
    forall a | 0 <= a < |ns|
      ensures ns[a].owner in rem && Increasing(ns[a].children)
      ensures forall y :: y in ns[a].children ==> y in rem && ns[a].owner < y && Claims(ds[ns[a].owner], ds[y], t)
    {
      NestAt(ds, t, rem, a);
    }
  }

  /** `NestsChildren` for the nest at position `a`. */
  lemma {:induction false} NestAt(ds: seq<DomainAnatomy>, t: real, rem: seq<nat>, a: nat)
    requires Below(rem, |ds|) && Increasing(rem) && a < |Nests(ds, t, rem)|
    ensures var n := Nests(ds, t, rem)[a];
      && n.owner in rem && Increasing(n.children)
      && forall y :: y in n.children ==> y in rem && n.owner < y && Claims(ds[n.owner], ds[y], t)
    decreases |rem|
  {
    var o, rest := rem[0], rem[1..];
    var r := Split(ds, t, o, rest);
    NestsUnfold(ds, t, rem);
    IncreasingTail(rem);
    SplitClaims(ds, t, o, rest);
    SplitIncreasing(ds, t, o, rest);
    if a > 0 {
      NestAt(ds, t, r.1, a - 1);
      assert Nests(ds, t, rem)[a] == Nests(ds, t, r.1)[a - 1];
    }
  }

  /**
   * Over increasing indices, owners come in increasing order, and no owner
   * claims a later owner.
   */
  lemma {:induction false} NestsOwners(ds: seq<DomainAnatomy>, t: real, rem: seq<nat>)
    requires Below(rem, |ds|) && Increasing(rem)
    ensures var ns := Nests(ds, t, rem);
      forall a, b :: 0 <= a < b < |ns| ==>
        ns[a].owner < ns[b].owner && !Claims(ds[ns[a].owner], ds[ns[b].owner], t)
  {
    var ns := Nests(ds, t, rem);
    forall a, b | 0 <= a < b < |ns|
      ensures ns[a].owner < ns[b].owner && !Claims(ds[ns[a].owner], ds[ns[b].owner], t)
    {
      OwnersAt(ds, t, rem, a, b);
    }
  }

  /** Split only distributes the indices it is given. */
  lemma {:induction false} SplitWithin(ds: seq<DomainAnatomy>, t: real, o: nat, ys: seq<nat>)
    requires o < |ds| && Below(ys, |ds|)
    ensures forall y :: y in Split(ds, t, o, ys).0 ==> y in ys
    ensures forall y :: y in Split(ds, t, o, ys).1 ==> y in ys
  {
    if ys != [] {
      SplitWithin(ds, t, o, ys[1..]);
    }
  }

  /** An index the owner leaves is one it does not claim. */
  lemma {:induction false} SplitLeft(ds: seq<DomainAnatomy>, t: real, o: nat, ys: seq<nat>, y: nat)
    requires o < |ds| && Below(ys, |ds|) && y in Split(ds, t, o, ys).1
    ensures y in ys && !Claims(ds[o], ds[y], t)
  {
    if ys[0] != y || Claims(ds[o], ds[y], t) {
      SplitLeft(ds, t, o, ys[1..], y);
    }
  }

  /** Each nest's owner and children are among the indices the nests are formed over. */
  lemma {:induction false} NestWithin(ds: seq<DomainAnatomy>, t: real, rem: seq<nat>, a: nat)
    requires Below(rem, |ds|) && a < |Nests(ds, t, rem)|
    ensures var n := Nests(ds, t, rem)[a];
      n.owner in rem && forall y :: y in n.children ==> y in rem
    decreases |rem|
  {
    var o, rest := rem[0], rem[1..];
    var r := Split(ds, t, o, rest);
    NestsUnfold(ds, t, rem);
    SplitWithin(ds, t, o, rest);
    if a > 0 {
      NestWithin(ds, t, r.1, a - 1);
      assert Nests(ds, t, rem)[a] == Nests(ds, t, r.1)[a - 1];
    }
  }

  /** `NestsOwners` for the nests at positions `a < b`. */
  lemma {:induction false} OwnersAt(ds: seq<DomainAnatomy>, t: real, rem: seq<nat>, a: nat, b: nat)
    requires Below(rem, |ds|) && Increasing(rem) && a < b < |Nests(ds, t, rem)|
    ensures var ns := Nests(ds, t, rem);
      ns[a].owner < ns[b].owner && !Claims(ds[ns[a].owner], ds[ns[b].owner], t)
    decreases |rem|
  {
    NestsIndex(ds, t, rem, a);
    NestsIndex(ds, t, rem, b);
    var o, rest := rem[0], rem[1..];
    var r := Split(ds, t, o, rest);
    var tail := Nests(ds, t, r.1);
    IncreasingTail(rem);
    if a == 0 {
      NestWithin(ds, t, r.1, b - 1);
      SplitLeft(ds, t, o, rest, tail[b - 1].owner);
    } else {
      SplitIncreasing(ds, t, o, rest);
      OwnersAt(ds, t, r.1, a - 1, b - 1);
    }
  }

  /**
   * Over increasing indices, no owner claims a child of a later nest: each
   * index is claimed by the first owner whose nest ratio against it reaches
   * the threshold.
   */
  lemma {:induction false} NestsFirstClaim(ds: seq<DomainAnatomy>, t: real, rem: seq<nat>)
    requires Below(rem, |ds|) && Increasing(rem)
    ensures var ns := Nests(ds, t, rem);
      forall a, b, y :: 0 <= a < b < |ns| && y in ns[b].children ==>
        ns[a].owner < y && !Claims(ds[ns[a].owner], ds[y], t)
  {
    var ns := Nests(ds, t, rem);
    forall a, b, y | 0 <= a < b < |ns| && y in ns[b].children
      ensures ns[a].owner < y && !Claims(ds[ns[a].owner], ds[y], t)
    {
      FirstClaimAt(ds, t, rem, a, b, y);
    }
  }

  /** `NestsFirstClaim` for the nests at positions `a < b` and a child `y` of the later one. */
  lemma {:induction false} FirstClaimAt(ds: seq<DomainAnatomy>, t: real, rem: seq<nat>, a: nat, b: nat, y: nat)
    requires Below(rem, |ds|) && Increasing(rem) && a < b < |Nests(ds, t, rem)|
    requires y in Nests(ds, t, rem)[b].children
    ensures var ns := Nests(ds, t, rem);
      ns[a].owner < y && !Claims(ds[ns[a].owner], ds[y], t)
    decreases |rem|
  {
    NestsIndex(ds, t, rem, a);
    NestsIndex(ds, t, rem, b);
    var o, rest := rem[0], rem[1..];
    var r := Split(ds, t, o, rest);
    var tail := Nests(ds, t, r.1);
    IncreasingTail(rem);
    if a == 0 {
      NestWithin(ds, t, r.1, b - 1);
      SplitLeft(ds, t, o, rest, y);
    } else {
      SplitIncreasing(ds, t, o, rest);
      FirstClaimAt(ds, t, r.1, a - 1, b - 1, y);
    }
  }
}
