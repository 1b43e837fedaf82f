/**
 * `_nest` inside `GeneAnatomy._nest_domains` (anatomizer/new_anatomizer.py):
 * the recursion that turns the nests of one level into a forest of domains,
 * appending each owner's nested children to its `subdomains` in place.
 *
 * `Forest` is the tree the recursion builds; `Nest` is the recursion itself,
 * proved to return the forest's roots and to append to each domain exactly
 * the roots of its subtrees.
 */
module DomainForest {
  import opened Wrappers
  import opened Indices
  import opened OverlapMetrics
  import opened Anatomy
  import opened Nesting

  /** A domain and the trees nested under it. */
  datatype Tree = Node(domain: DomainAnatomy, subtrees: seq<Tree>)

  function Roots(f: seq<Tree>): (r: seq<DomainAnatomy>)
    ensures |r| == |f| && forall a :: 0 <= a < |f| ==> r[a] == f[a].domain
  {
    seq(|f|, a requires 0 <= a < |f| => f[a].domain)
  }

  /** Trees with nothing nested: what `_nest` returns at `max_level`. */
  function Leaves(ds: seq<DomainAnatomy>): (f: seq<Tree>)
    ensures |f| == |ds| && forall a :: 0 <= a < |ds| ==> f[a] == Node(ds[a], [])
  {
    seq(|ds|, a requires 0 <= a < |ds| => Node(ds[a], []))
  }

  /** Every nest lies within `s` and holds fewer children than `s` has domains. */
  ghost predicate NestsWithin(s: seq<DomainAnatomy>, ns: seq<Nest>)
  {
    forall a :: 0 <= a < |ns| ==>
      ns[a].owner < |s| && Below(ns[a].children, |s|) && |ns[a].children| < |s|
  }

  /**
   * `_nest(ds, level)`: at `maxLevel` every domain stays as it is; otherwise
   * the domains are sorted, split into nests, and each nest's children are
   * nested one level further down. A nest never holds its own owner, so the
   * list shrinks on every call and the recursion ends whatever `maxLevel` is.
   */
  function Forest(ds: seq<DomainAnatomy>, level: int, maxLevel: int, t: real): (f: seq<Tree>)
    decreases |ds|, 1
  {
    if level == maxLevel then Leaves(ds)
    else
      var s := SortByLength(ds);
      Trees(s, Nests(s, t, Range(|s|)), level, maxLevel, t)
  }

  /** The trees of the nests `ns` over the sorted domains `s`, one per nest, in order. */
  function Trees(s: seq<DomainAnatomy>, ns: seq<Nest>, level: int, maxLevel: int, t: real): (f: seq<Tree>)
    requires NestsWithin(s, ns)
    ensures |f| == |ns|
    decreases |s|, 0, |ns|
  {
    if ns == [] then []
    else
      var last := ns[|ns| - 1];
      Trees(s, ns[..|ns| - 1], level, maxLevel, t)
        + [Node(s[last.owner], Forest(Pick(s, last.children), level + 1, maxLevel, t))]
  }

  /** Every domain of the forest, each node before its subtrees. */
  function Flatten(f: seq<Tree>): seq<DomainAnatomy>
    decreases f
  {
    if f == [] then []
    else
      var last := f[|f| - 1];
      Flatten(f[..|f| - 1]) + [last.domain] + Flatten(last.subtrees)
  }

  /** What the forest appends to `d.subdomains`: the roots of the subtrees of `d`'s node. */
  function KidsOf(f: seq<Tree>, d: DomainAnatomy): seq<DomainAnatomy>
    decreases f
  {
    if f == [] then []
    else
      var last := f[|f| - 1];
      KidsOf(f[..|f| - 1], d)
        + (if last.domain == d then Roots(last.subtrees) else [])
        + KidsOf(last.subtrees, d)
  }

  /** The longest path from a root, counted in domains. */
  function Depth(f: seq<Tree>): nat
    decreases f
  {
    if f == [] then 0
    else
      var last := f[|f| - 1];
      var here := Depth(last.subtrees) + 1;
      var before := Depth(f[..|f| - 1]);
      if here < before then before else here
  }

  /** Every node's subtrees are rooted at domains it claims. */
  ghost predicate ClaimsChildren(f: seq<Tree>, t: real)
    decreases f
  {
    forall a :: 0 <= a < |f| ==>
      && (forall k :: 0 <= k < |f[a].subtrees| ==> Claims(f[a].domain, f[a].subtrees[k].domain, t))
      && ClaimsChildren(f[a].subtrees, t)
  }

  // Unfolding lemmas.

  lemma {:induction false} TreesSnoc(s: seq<DomainAnatomy>, ns: seq<Nest>, level: int, maxLevel: int, t: real)
    requires NestsWithin(s, ns) && ns != []
    ensures NestsWithin(s, ns[..|ns| - 1])
    ensures var last := ns[|ns| - 1];
      Trees(s, ns, level, maxLevel, t) == Trees(s, ns[..|ns| - 1], level, maxLevel, t)
        + [Node(s[last.owner], Forest(Pick(s, last.children), level + 1, maxLevel, t))]
  {
  }

  /** The tree of nest `a` is rooted at its owner and holds the forest of its children. */
  lemma {:induction false} TreesAt(s: seq<DomainAnatomy>, ns: seq<Nest>, level: int, maxLevel: int, t: real, a: nat)
    requires NestsWithin(s, ns) && a < |ns|
    ensures Trees(s, ns, level, maxLevel, t)[a]
      == Node(s[ns[a].owner], Forest(Pick(s, ns[a].children), level + 1, maxLevel, t))
    decreases |ns|
  {
    TreesSnoc(s, ns, level, maxLevel, t);
    if a < |ns| - 1 {
      TreesAt(s, ns[..|ns| - 1], level, maxLevel, t, a);
    }
  }

  lemma {:induction false} FlattenSnoc(f: seq<Tree>, x: Tree)
    ensures Flatten(f + [x]) == Flatten(f) + [x.domain] + Flatten(x.subtrees)
  {
    assert (f + [x])[..|f|] == f;
  }

  lemma {:induction false} KidsOfSnoc(f: seq<Tree>, x: Tree, d: DomainAnatomy)
    ensures KidsOf(f + [x], d) == KidsOf(f, d)
      + (if x.domain == d then Roots(x.subtrees) else []) + KidsOf(x.subtrees, d)
  {
    assert (f + [x])[..|f|] == f;
  }

  lemma {:induction false} FlattenLeaves(ds: seq<DomainAnatomy>)
    ensures Flatten(Leaves(ds)) == ds
  {
    if ds != [] {
      var n := |ds| - 1;
      assert Leaves(ds) == Leaves(ds[..n]) + [Node(ds[n], [])];
      FlattenSnoc(Leaves(ds[..n]), Node(ds[n], []));
      FlattenLeaves(ds[..n]);
      assert ds == ds[..n] + [ds[n]];
    }
  }

  /** Nothing is appended anywhere when no tree has subtrees, as at `maxLevel`. */
  lemma {:induction false} KidsOfBare(f: seq<Tree>, d: DomainAnatomy)
    requires forall a :: 0 <= a < |f| ==> f[a].subtrees == []
    ensures KidsOf(f, d) == []
  {
    if f != [] {
      var n := |f| - 1;
      KidsOfSnoc(f[..n], f[n], d);
      assert f == f[..n] + [f[n]];
      KidsOfBare(f[..n], d);
    }
  }

  // Every domain appears exactly once.

  lemma {:induction false} MembersBelow(s: seq<DomainAnatomy>, ns: seq<Nest>)
    requires NestsWithin(s, ns)
    ensures Below(Members(ns), |s|)
  {
    if ns != [] {
      assert NestsWithin(s, ns[1..]) by {
        assert forall a :: 0 <= a < |ns[1..]| ==> ns[1..][a] == ns[a + 1];
      }
      MembersBelow(s, ns[1..]);
      PickAppend(s, [ns[0].owner], ns[0].children);
      PickAppend(s, [ns[0].owner] + ns[0].children, Members(ns[1..]));
    }
  }

  /** The forest holds exactly the input domains, each once. */
  lemma {:induction false} FlattenForest(ds: seq<DomainAnatomy>, level: int, maxLevel: int, t: real)
    ensures multiset(Flatten(Forest(ds, level, maxLevel, t))) == multiset(ds)
    decreases |ds|, 1
  {
    if level == maxLevel {
      FlattenLeaves(ds);
    } else {
      var s := SortByLength(ds);
      var n := |s|;
      var ns := Nests(s, t, Range(n));
      MembersBelow(s, ns);
      FlattenTrees(s, ns, level, maxLevel, t);
      NestsPartition(s, t, Range(n));
      PickPermutation(s, Members(ns));
    }
  }

  lemma {:induction false} FlattenTrees(s: seq<DomainAnatomy>, ns: seq<Nest>, level: int, maxLevel: int, t: real)
    requires NestsWithin(s, ns)
    ensures Below(Members(ns), |s|)
    ensures multiset(Flatten(Trees(s, ns, level, maxLevel, t))) == multiset(Pick(s, Members(ns)))
    decreases |s|, 0, |ns|
  {
    MembersBelow(s, ns);
    if ns != [] {
      var m := |ns| - 1;
      var init, last := ns[..m], ns[m];
      var kids := Pick(s, last.children);
      FlattenTreesSnoc(s, ns, level, maxLevel, t);
      MembersSnoc(s, ns);
      FlattenTrees(s, init, level, maxLevel, t);
      FlattenForest(kids, level + 1, maxLevel, t);
      SameMultisetAppend(Flatten(Trees(s, init, level, maxLevel, t)), Pick(s, Members(init)),
        [s[last.owner]], Flatten(Forest(kids, level + 1, maxLevel, t)), kids);
    }
  }

  /** Flattening the trees of one more nest appends its owner and its children's forest. */
  lemma {:induction false} FlattenTreesSnoc(s: seq<DomainAnatomy>, ns: seq<Nest>, level: int, maxLevel: int, t: real)
    requires NestsWithin(s, ns) && ns != []
    ensures NestsWithin(s, ns[..|ns| - 1]) && ns[|ns| - 1].owner < |s|
    ensures var last := ns[|ns| - 1];
      Flatten(Trees(s, ns, level, maxLevel, t))
        == Flatten(Trees(s, ns[..|ns| - 1], level, maxLevel, t)) + [s[last.owner]]
          + Flatten(Forest(Pick(s, last.children), level + 1, maxLevel, t))
  {
    var last := ns[|ns| - 1];
    TreesSnoc(s, ns, level, maxLevel, t);
    FlattenSnoc(Trees(s, ns[..|ns| - 1], level, maxLevel, t),
      Node(s[last.owner], Forest(Pick(s, last.children), level + 1, maxLevel, t)));
  }

  /** The members of one more nest: its owner, then its children. */
  lemma {:induction false} MembersSnoc(s: seq<DomainAnatomy>, ns: seq<Nest>)
    requires NestsWithin(s, ns) && ns != []
    ensures Below(Members(ns[..|ns| - 1]), |s|) && Below(Members(ns), |s|)
    ensures var last := ns[|ns| - 1];
      Pick(s, Members(ns)) == Pick(s, Members(ns[..|ns| - 1])) + [s[last.owner]] + Pick(s, last.children)
  {
    var m := |ns| - 1;
    var init, last := ns[..m], ns[m];
    assert NestsWithin(s, init);
    MembersBelow(s, init);
    MembersBelow(s, ns);
    assert ns == init + [last];
    MembersAppend(init, [last]);
    assert Members([last]) == [last.owner] + last.children;
    PickAppend(s, Members(init), [last.owner] + last.children);
    PickAppend(s, [last.owner], last.children);
    assert Pick(s, [last.owner]) == [s[last.owner]];
  }

  lemma {:induction false} SameMultisetAppend<T>(a: seq<T>, a': seq<T>, b: seq<T>, c: seq<T>, c': seq<T>)
    requires multiset(a) == multiset(a') && multiset(c) == multiset(c')
    ensures multiset(a + b + c) == multiset(a' + b + c')
  {
  }

  /** A domain that is not in the forest gets nothing appended. */
  lemma {:induction false} KidsOfAbsent(f: seq<Tree>, d: DomainAnatomy)
    requires d !in Flatten(f)
    ensures KidsOf(f, d) == []
    decreases f
  {
    if f != [] {
      var last := f[|f| - 1];
      KidsOfAbsent(f[..|f| - 1], d);
      KidsOfAbsent(last.subtrees, d);
    }
  }

  lemma {:induction false} KidsOfOutside(ds: seq<DomainAnatomy>, level: int, maxLevel: int, t: real, d: DomainAnatomy)
    requires d !in ds
    ensures KidsOf(Forest(ds, level, maxLevel, t), d) == []
  {
    FlattenForest(ds, level, maxLevel, t);
    assert d !in multiset(ds);
    KidsOfAbsent(Forest(ds, level, maxLevel, t), d);
  }

  // The recursion of `_nest`, in place.

  /** The sorted list holds the same distinct, nest-safe domains. */
  lemma {:induction false} SortedFacts(ds: seq<DomainAnatomy>)
    requires NoDup(ds) && AllNestSafe(ds)
    ensures var s := SortByLength(ds);
      NoDup(s) && AllNestSafe(s) && forall d :: d in s <==> d in ds
  {
    var s := SortByLength(ds);
    NoDupMultiset(ds, s);
    forall d ensures d in s <==> d in ds {
      assert d in s <==> d in multiset(s);
      assert d in ds <==> d in multiset(ds);
    }
    forall k | 0 <= k < |s| ensures NestSafe(s[k].AsSpan()) {
      assert s[k] in multiset(s);
      assert s[k] in ds;
      var j :| 0 <= j < |ds| && ds[j] == s[k];
    }
  }

  /** The children of a nest are distinct, nest-safe domains of `s` other than their owner. */
  lemma {:induction false} ChildFacts(s: seq<DomainAnatomy>, o: nat, children: seq<nat>)
    requires NoDup(s) && AllNestSafe(s) && o < |s| && Below(children, |s|)
    requires Increasing(children) && forall y :: y in children ==> o < y
    ensures var next := Pick(s, children);
      && NoDup(next) && AllNestSafe(next) && s[o] !in next
      && forall d :: d in next ==> d in s
  {
    var next := Pick(s, children);
    assert NoDup(children);
    PickNoDup(s, children);
    forall k | 0 <= k < |next| ensures next[k] == s[children[k]] && next[k] != s[o] {
      PickAt(s, children, k);
      assert children[k] in children;
    }
  }

  /** One more nest adds one root and the owner's subtrees' roots to its children. */
  lemma {:induction false} TreesStep(s: seq<DomainAnatomy>, ns: seq<Nest>, a: nat, level: int, maxLevel: int, t: real, d: DomainAnatomy)
    requires NestsWithin(s, ns) && a < |ns|
    ensures NestsWithin(s, ns[..a]) && NestsWithin(s, ns[..a + 1])
    ensures var owner := s[ns[a].owner];
      var sub := Forest(Pick(s, ns[a].children), level + 1, maxLevel, t);
      && Roots(Trees(s, ns[..a + 1], level, maxLevel, t)) == Roots(Trees(s, ns[..a], level, maxLevel, t)) + [owner]
      && KidsOf(Trees(s, ns[..a + 1], level, maxLevel, t), d)
        == KidsOf(Trees(s, ns[..a], level, maxLevel, t), d) + ((if owner == d then Roots(sub) else []) + KidsOf(sub, d))
  {
    assert ns[..a + 1][..a] == ns[..a];
    TreesSnoc(s, ns[..a + 1], level, maxLevel, t);
    var owner := s[ns[a].owner];
    var sub := Forest(Pick(s, ns[a].children), level + 1, maxLevel, t);
    var before := Trees(s, ns[..a], level, maxLevel, t);
    KidsOfSnoc(before, Node(owner, sub), d);
    SeqAssoc(KidsOf(before, d), if owner == d then Roots(sub) else [], KidsOf(sub, d));
  }

  /** The children of the `a`-th nest of a sorted list, as `Nest` passes them down. */
  lemma {:induction false} NestChildFacts(s: seq<DomainAnatomy>, t: real, a: nat)
    requires NoDup(s) && AllNestSafe(s) && a < |Nests(s, t, Range(|s|))|
    ensures var n := Nests(s, t, Range(|s|))[a];
      var next := Pick(s, n.children);
      && NoDup(next) && AllNestSafe(next) && s[n.owner] !in next
      && forall d :: d in next ==> d in s
  {
    assert Increasing(Range(|s|));
    NestsChildren(s, t, Range(|s|));
    var n := Nests(s, t, Range(|s|))[a];
    ChildFacts(s, n.owner, n.children);
  }

  lemma {:induction false} SeqAssoc<T>(x: seq<T>, y: seq<T>, z: seq<T>)
    ensures (x + y) + z == x + (y + z)
  {
  }

  /**
   * One domain's list across one pass of `Adopt`: what it gained is what the
   * owner's new subtree gives it.
   */
  lemma {:induction false} AdoptedKids(base: seq<DomainAnatomy>, prior: seq<DomainAnatomy>, atStart: seq<DomainAnatomy>,
                    now: seq<DomainAnatomy>, owner: DomainAnatomy, d: DomainAnatomy, next: seq<DomainAnatomy>,
                    level: int, maxLevel: int, t: real)
    requires atStart == base + prior
    requires d in next ==> d != owner && now == atStart + KidsOf(Forest(next, level, maxLevel, t), d)
    requires d !in next && d == owner ==> now == atStart + Roots(Forest(next, level, maxLevel, t))
    requires d !in next && d != owner ==> now == atStart
    ensures var sub := Forest(next, level, maxLevel, t);
      now == base + (prior + ((if owner == d then Roots(sub) else []) + KidsOf(sub, d)))
  {
    var sub := Forest(next, level, maxLevel, t);
    var kids := KidsOf(sub, d);
    if d in next {
      assert [] + kids == kids;
      SeqAssoc(base, prior, kids);
    } else {
      KidsOfOutside(next, level, maxLevel, t, d);
      if d == owner {
        assert Roots(sub) + kids == Roots(sub);
        SeqAssoc(base, prior, Roots(sub));
      } else {
        assert prior + ([] + kids) == prior;
      }
    }
  }

  /** The `for domain in nested_domains` loop: appends each nested domain to the owner's list. */
  method AppendSubdomains(owner: DomainAnatomy, nested: seq<DomainAnatomy>)
    modifies owner
    ensures owner.subdomains == old(owner.subdomains) + nested
  {
    for k := 0 to |nested|
      invariant owner.subdomains == old(owner.subdomains) + nested[..k]
    {
      owner.subdomains := owner.subdomains + [nested[k]];
      assert nested[..k + 1] == nested[..k] + [nested[k]];
    }
    assert nested[..|nested|] == nested;
  }

  /**
   * One pass of the loop over nests in `_nest`: nests the owner's children one
   * level down and appends the domains that come back to the owner.
   */
  method Adopt(owner: DomainAnatomy, next: seq<DomainAnatomy>, level: int, maxLevel: int, t: real)
    returns (nested: seq<DomainAnatomy>)
    requires NoDup(next) && AllNestSafe(next) && owner !in next
    modifies {owner} + set d | d in next
    ensures nested == Roots(Forest(next, level, maxLevel, t))
    ensures owner.subdomains == old(owner.subdomains) + Roots(Forest(next, level, maxLevel, t))
    ensures forall d :: d in next ==>
      d.subdomains == old(d.subdomains) + KidsOf(Forest(next, level, maxLevel, t), d)
    decreases |next|, 2
  {
    nested := NestLevel(next, level, maxLevel, t);
    AppendSubdomains(owner, nested);
  }

  /**
   * `_nest(domains, current_level)`: returns the roots of the forest and
   * appends to each domain exactly the roots of its subtrees; nothing else
   * changes. The domains must be distinct objects (as the ones
   * `_merge_fragments` creates are) and nest-safe.
   */
  method NestLevel(domains: seq<DomainAnatomy>, level: int, maxLevel: int, t: real)
    returns (result: seq<DomainAnatomy>)
    requires NoDup(domains) && AllNestSafe(domains)
    modifies set d | d in domains
    ensures result == Roots(Forest(domains, level, maxLevel, t))
    ensures forall d :: d in domains ==>
      d.subdomains == old(d.subdomains) + KidsOf(Forest(domains, level, maxLevel, t), d)
    decreases |domains|, 1
  {
    if level == maxLevel {
      forall d | d in domains ensures KidsOf(Leaves(domains), d) == [] {
        KidsOfBare(Leaves(domains), d);
      }
      return domains;
    }
    var sorted := SortByLength(domains);
    SortedFacts(domains);
    var nests := FindNests(sorted, t);
    result := NestEach(sorted, nests, level, maxLevel, t);
  }

  /** The loop over the nests in `_nest`, over the domains sorted longest first. */
  method NestEach(sorted: seq<DomainAnatomy>, nests: seq<Nest>, level: int, maxLevel: int, t: real)
    returns (result: seq<DomainAnatomy>)
    requires NoDup(sorted) && AllNestSafe(sorted) && nests == Nests(sorted, t, Range(|sorted|))
    modifies set d | d in sorted
    ensures NestsWithin(sorted, nests)
    ensures result == Roots(Trees(sorted, nests, level, maxLevel, t))
    ensures forall d :: d in sorted ==>
      d.subdomains == old(d.subdomains) + KidsOf(Trees(sorted, nests, level, maxLevel, t), d)
    decreases |sorted|, 0
  {
    assert NestsWithin(sorted, nests);
    result := [];
    for a := 0 to |nests|
      invariant NestsWithin(sorted, nests[..a])
      invariant result == Roots(Trees(sorted, nests[..a], level, maxLevel, t))
      invariant forall d :: d in sorted ==>
        d.subdomains == old(d.subdomains) + KidsOf(Trees(sorted, nests[..a], level, maxLevel, t), d)
    {
      var owner := sorted[nests[a].owner];
      var next := Pick(sorted, nests[a].children);
      NestChildFacts(sorted, t, a);
      ghost var sub := Forest(next, level + 1, maxLevel, t);
      label Start:
      var nested := Adopt(owner, next, level + 1, maxLevel, t);
      result := result + [owner];
      TreesStep(sorted, nests, a, level, maxLevel, t, owner);
      forall d | d in sorted
        ensures d.subdomains == old(d.subdomains) + KidsOf(Trees(sorted, nests[..a + 1], level, maxLevel, t), d)
      {
        AdoptedKids(old(d.subdomains), KidsOf(Trees(sorted, nests[..a], level, maxLevel, t), d),
                    old@Start(d.subdomains), d.subdomains, owner, d, next, level + 1, maxLevel, t);
        TreesStep(sorted, nests, a, level, maxLevel, t, d);
      }
    }
    assert nests[..|nests|] == nests;
  }

  // What the forest promises.

  /** Every root of a forest is one of its domains. */
  lemma {:induction false} RootsInFlatten(f: seq<Tree>)
    ensures forall k :: 0 <= k < |f| ==> f[k].domain in Flatten(f)
  {
    if f != [] {
      var m := |f| - 1;
      RootsInFlatten(f[..m]);
      assert f == f[..m] + [f[m]];
      FlattenSnoc(f[..m], f[m]);
      assert forall k :: 0 <= k < m ==> f[k] == f[..m][k];
    }
  }

  /** `_nest` returns some of the domains it was given. */
  lemma {:induction false} ForestRootsIn(ds: seq<DomainAnatomy>, level: int, maxLevel: int, t: real)
    ensures var f := Forest(ds, level, maxLevel, t);
      forall k :: 0 <= k < |f| ==> f[k].domain in ds
  {
    var f := Forest(ds, level, maxLevel, t);
    RootsInFlatten(f);
    FlattenForest(ds, level, maxLevel, t);
    forall k | 0 <= k < |f| ensures f[k].domain in ds {
      assert f[k].domain in multiset(Flatten(f));
    }
  }

  /** Every domain nested under another is one its owner claims, at every level. */
  lemma {:induction false} ForestClaims(ds: seq<DomainAnatomy>, level: int, maxLevel: int, t: real)
    ensures ClaimsChildren(Forest(ds, level, maxLevel, t), t)
    decreases |ds|, 1
  {
    var f := Forest(ds, level, maxLevel, t);
    if level != maxLevel {
      var s := SortByLength(ds);
      var ns := Nests(s, t, Range(|s|));
      forall a | 0 <= a < |f|
        ensures forall k :: 0 <= k < |f[a].subtrees| ==> Claims(f[a].domain, f[a].subtrees[k].domain, t)
        ensures ClaimsChildren(f[a].subtrees, t)
      {
        TreeClaims(s, t, level, maxLevel, a);
      }
    }
  }

  /** The tree of one nest: its subtrees are rooted at children the owner claims. */
  lemma {:induction false} TreeClaims(s: seq<DomainAnatomy>, t: real, level: int, maxLevel: int, a: nat)
    requires a < |Nests(s, t, Range(|s|))|
    ensures var ns := Nests(s, t, Range(|s|));
      var tree := Trees(s, ns, level, maxLevel, t)[a];
      && (forall k :: 0 <= k < |tree.subtrees| ==> Claims(tree.domain, tree.subtrees[k].domain, t))
      && ClaimsChildren(tree.subtrees, t)
    decreases |s|, 0
  {
    var ns := Nests(s, t, Range(|s|));
    var kids := Pick(s, ns[a].children);
    var tree := Trees(s, ns, level, maxLevel, t)[a];
    TreesAt(s, ns, level, maxLevel, t, a);
    assert Increasing(Range(|s|));
    NestsChildren(s, t, Range(|s|));
    ForestClaims(kids, level + 1, maxLevel, t);
    ForestRootsIn(kids, level + 1, maxLevel, t);
    forall k | 0 <= k < |tree.subtrees| ensures Claims(tree.domain, tree.subtrees[k].domain, t) {
      var j :| 0 <= j < |kids| && kids[j] == tree.subtrees[k].domain;
      PickAt(s, ns[a].children, j);
      assert ns[a].children[j] in ns[a].children;
    }
  }

  /** A forest whose trees are each at most `b` deep is at most `b` deep. */
  lemma {:induction false} DepthBound(f: seq<Tree>, b: nat)
    requires forall a :: 0 <= a < |f| ==> Depth(f[a].subtrees) + 1 <= b
    ensures Depth(f) <= b
  {
    if f != [] {
      DepthBound(f[..|f| - 1], b);
    }
  }

  /**
   * Nesting stops at `maxLevel`: starting from `level`, no path from a root
   * holds more than `maxLevel - level + 1` domains.
   */
  lemma {:induction false} ForestDepth(ds: seq<DomainAnatomy>, level: int, maxLevel: int, t: real)
    requires level <= maxLevel
    ensures Depth(Forest(ds, level, maxLevel, t)) <= maxLevel - level + 1
    decreases maxLevel - level, 1
  {
    var f := Forest(ds, level, maxLevel, t);
    if level == maxLevel {
      DepthBound(f, 1);
    } else {
      var s := SortByLength(ds);
      var ns := Nests(s, t, Range(|s|));
      assert f == Trees(s, ns, level, maxLevel, t);
      forall a | 0 <= a < |f| ensures Depth(f[a].subtrees) + 1 <= maxLevel - level + 1 {
        SubtreeDepth(s, ns, level, maxLevel, t, a);
      }
      DepthBound(f, maxLevel - level + 1);
    }
  }

  /** Below `maxLevel`, the subtrees of each tree are one level shallower. */
  lemma {:induction false} SubtreeDepth(s: seq<DomainAnatomy>, ns: seq<Nest>, level: int, maxLevel: int, t: real, a: nat)
    requires level < maxLevel && NestsWithin(s, ns) && a < |ns|
    ensures Depth(Trees(s, ns, level, maxLevel, t)[a].subtrees) <= maxLevel - level
    decreases maxLevel - level, 0
  {
    var kids := Pick(s, ns[a].children);
    TreesAt(s, ns, level, maxLevel, t, a);
    ForestDepth(kids, level + 1, maxLevel, t);
    assert Trees(s, ns, level, maxLevel, t)[a].subtrees == Forest(kids, level + 1, maxLevel, t);
  }

  /**
   * Below `maxLevel`, `_nest` returns the owners longest first, and no owner
   * claims one returned after it.
   */
  lemma {:induction false} ForestRootsOrdered(ds: seq<DomainAnatomy>, level: int, maxLevel: int, t: real)
    requires level != maxLevel
    ensures var r := Roots(Forest(ds, level, maxLevel, t));
      && Descending(r)
      && forall a, b :: 0 <= a < b < |r| ==> !Claims(r[a], r[b], t)
  {
    var f := Forest(ds, level, maxLevel, t);
    forall a, b | 0 <= a < b < |f|
      ensures f[a].domain.length >= f[b].domain.length && !Claims(f[a].domain, f[b].domain, t)
    {
      RootPair(SortByLength(ds), level, maxLevel, t, a, b);
    }
  }

  lemma {:induction false} RootPair(s: seq<DomainAnatomy>, level: int, maxLevel: int, t: real, a: nat, b: nat)
    requires Descending(s)
    requires a < b < |Nests(s, t, Range(|s|))|
    ensures var f := Trees(s, Nests(s, t, Range(|s|)), level, maxLevel, t);
      f[a].domain.length >= f[b].domain.length && !Claims(f[a].domain, f[b].domain, t)
  {
    var ns := Nests(s, t, Range(|s|));
    var f := Trees(s, ns, level, maxLevel, t);
    assert Increasing(Range(|s|));
    NestsOwners(s, t, Range(|s|));
    TreesAt(s, ns, level, maxLevel, t, a);
    TreesAt(s, ns, level, maxLevel, t, b);
    var oa, ob := ns[a].owner, ns[b].owner;
    assert f[a].domain == s[oa] && f[b].domain == s[ob];
    assert oa < ob < |s|;
    assert s[oa].length >= s[ob].length;
  }

  // With the lengths `_merge_fragments` stores, nothing nests.

  /** Every domain stores `start - end` as its length, as the merged domains do. */
  ghost predicate NegatedLengths(ds: seq<DomainAnatomy>)
  {
    forall k :: 0 <= k < |ds| ==> ds[k].length == ds[k].start - ds[k].end
  }

  /**
   * A positive ratio needs a positive stored length and a shared residue, and
   * a domain whose stored length is `start - end` cannot have both.
   */
  lemma {:induction false} NeverClaimed(owner: DomainAnatomy, d: DomainAnatomy, t: real)
    requires t > 0.0 && d.length == d.start - d.end
    ensures !Claims(owner, d, t)
  {
    NestOverlapCases(owner.AsSpan(), d.AsSpan());
  }

  lemma {:induction false} SplitNone(ds: seq<DomainAnatomy>, t: real, o: nat, ys: seq<nat>)
    requires o < |ds| && Below(ys, |ds|) && NegatedLengths(ds) && t > 0.0
    ensures Split(ds, t, o, ys) == ([], ys)
  {
    if ys != [] {
      SplitNone(ds, t, o, ys[1..]);
      NeverClaimed(ds[o], ds[ys[0]], t);
      assert ys == [ys[0]] + ys[1..];
    }
  }

  lemma {:induction false} NestsNone(ds: seq<DomainAnatomy>, t: real, rem: seq<nat>)
    requires Below(rem, |ds|) && NegatedLengths(ds) && t > 0.0
    ensures var ns := Nests(ds, t, rem);
      |ns| == |rem| && forall a :: 0 <= a < |rem| ==> ns[a] == Nest(rem[a], [])
    decreases |rem|
  {
    if rem != [] {
      SplitNone(ds, t, rem[0], rem[1..]);
      NestsNone(ds, t, rem[1..]);
      var ns := Nests(ds, t, rem);
      assert ns == [Nest(rem[0], [])] + Nests(ds, t, rem[1..]);
      forall a | 0 < a < |rem| ensures ns[a] == Nest(rem[a], []) {
        assert rem[a] == rem[1..][a - 1];
      }
    }
  }

  /**
   * With a positive threshold and lengths stored as `start - end`, `_nest`
   * appends nothing anywhere: below `maxLevel` it returns the domains sorted
   * longest first, at `maxLevel` as they came.
   */
  lemma {:induction false} NeverNests(ds: seq<DomainAnatomy>, level: int, maxLevel: int, t: real, d: DomainAnatomy)
    requires NegatedLengths(ds) && t > 0.0
    ensures Roots(Forest(ds, level, maxLevel, t)) == if level == maxLevel then ds else SortByLength(ds)
    ensures KidsOf(Forest(ds, level, maxLevel, t), d) == []
  {
    var f := Forest(ds, level, maxLevel, t);
    var s := if level == maxLevel then ds else SortByLength(ds);
    if level != maxLevel {
      SortedNegated(ds);
      BareForest(s, level, maxLevel, t);
    }
    assert f == Leaves(s);
    assert Roots(f) == s;
    KidsOfBare(f, d);
  }

  /** Sorting keeps every domain, so it keeps the stored lengths `start - end`. */
  lemma {:induction false} SortedNegated(ds: seq<DomainAnatomy>)
    requires NegatedLengths(ds)
    ensures NegatedLengths(SortByLength(ds))
  {
    var s := SortByLength(ds);
    forall k | 0 <= k < |s| ensures s[k].length == s[k].start - s[k].end {
      assert s[k] in multiset(ds);
      var j :| 0 <= j < |ds| && ds[j] == s[k];
    }
  }

  /** When nothing claims anything, every sorted domain becomes a tree of its own. */
  lemma {:induction false} BareForest(s: seq<DomainAnatomy>, level: int, maxLevel: int, t: real)
    requires NegatedLengths(s) && t > 0.0
    ensures NestsWithin(s, Nests(s, t, Range(|s|)))
    ensures Trees(s, Nests(s, t, Range(|s|)), level, maxLevel, t) == Leaves(s)
  {
    var ns := Nests(s, t, Range(|s|));
    NestsNone(s, t, Range(|s|));
    var f := Trees(s, ns, level, maxLevel, t);
    forall a | 0 <= a < |s| ensures f[a] == Leaves(s)[a] {
      BareTree(s, level, maxLevel, t, a);
    }
  }

  lemma {:induction false} BareTree(s: seq<DomainAnatomy>, level: int, maxLevel: int, t: real, a: nat)
    requires NegatedLengths(s) && t > 0.0 && a < |s|
    ensures var ns := Nests(s, t, Range(|s|));
      |ns| == |s| && Trees(s, ns, level, maxLevel, t)[a] == Node(s[a], [])
  {
    var ns := Nests(s, t, Range(|s|));
    NestsNone(s, t, Range(|s|));
    TreesAt(s, ns, level, maxLevel, t, a);
    assert Pick(s, ns[a].children) == [];
    assert Forest([], level + 1, maxLevel, t) == [];
  }
}
