/**
 * `parent_chain` (anatomizer/new_anatomizer.py): the ancestor chain of an
 * InterPro entry, built by looking up each parent's own parent in the
 * signature database until a lookup gives nothing. The XML database is
 * modelled as a finite map from entry id to the entry's `parent` attribute.
 */
module Ancestry {
  import opened Wrappers

  /** Entry id to its `parent` attribute; an id that is not a key has no entry. */
  type Ontology = map<string, Option<string>>

  /**
   * The parent the loop moves to: the entry's `parent` attribute, or `None`
   * when there is no entry (the exception from `None.get` is caught).
   */
  function Lookup(o: Ontology, id: string): Option<string>
  {
    if id in o then o[id] else None
  }

  /** The ids the loop holds in `parent`, starting from `start`, at most `fuel` of them. */
  function Walk(o: Ontology, start: Option<string>, fuel: nat): (w: seq<string>)
    decreases fuel
  {
    if start.None? || fuel == 0 then [] else [start.value] + Walk(o, Lookup(o, start.value), fuel - 1)
  }

  /** Starting from `start`, a lookup gives nothing within `fuel` steps. */
  predicate WalkEnds(o: Ontology, start: Option<string>, fuel: nat)
    decreases fuel
  {
    start.None? || (fuel > 0 && WalkEnds(o, Lookup(o, start.value), fuel - 1))
  }

  /** The ids of `w` except the literal string 'None', which the loop does not append. */
  function DropNoneString(w: seq<string>): (r: seq<string>)
    ensures "None" !in r
    ensures forall x :: x in r ==> x in w
  {
    if w == [] then []
    else (if w[0] == "None" then [] else [w[0]]) + DropNoneString(w[1..])
  }

  lemma {:induction false} DropNoneCons(x: string, w: seq<string>)
    ensures DropNoneString([x] + w) == (if x == "None" then [] else [x]) + DropNoneString(w)
  {
    assert ([x] + w)[1..] == w;
  }

  /** Once the walk has ended, more fuel changes nothing. */
  lemma {:induction false} WalkFuel(o: Ontology, start: Option<string>, n: nat, m: nat)
    requires WalkEnds(o, start, n) && n <= m
    ensures WalkEnds(o, start, m)
    ensures Walk(o, start, n) == Walk(o, start, m)
    decreases n
  {
    if start.Some? {
      WalkFuel(o, Lookup(o, start.value), n - 1, m - 1);
    }
  }

  /**
   * A walk that ends is the path of parents up to a root: it starts at
   * `start`, each id's entry names the next id as its parent, and the last
   * id has no entry or no parent.
   */
  lemma {:induction false} WalkIsParentPath(o: Ontology, start: Option<string>, fuel: nat)
    requires WalkEnds(o, start, fuel)
    ensures var w := Walk(o, start, fuel);
      && (w == [] <==> start.None?)
      && (start.Some? ==> w[0] == start.value)
      && (forall k :: 0 <= k < |w| - 1 ==> Lookup(o, w[k]) == Some(w[k + 1]))
      && (w != [] ==> Lookup(o, w[|w| - 1]) == None)
    decreases fuel
  {
    if start.Some? {
      var next := Lookup(o, start.value);
      WalkIsParentPath(o, next, fuel - 1);
      var w := Walk(o, start, fuel);
      assert w == [start.value] + Walk(o, next, fuel - 1);
    }
  }

  /**
   * There is no cycle guard: from an id on a cycle of the parent relation
   * (a set of ids whose entries all name a parent in the set), no amount of
   * fuel ends the walk, so `parent_chain` does not terminate.
   */
  lemma {:induction false} CycleNeverEnds(o: Ontology, cycle: set<string>, x: string, fuel: nat)
    requires forall y :: y in cycle ==> Lookup(o, y).Some? && Lookup(o, y).value in cycle
    requires x in cycle
    ensures !WalkEnds(o, Some(x), fuel)
    decreases fuel
  {
    if fuel > 0 {
      CycleNeverEnds(o, cycle, Lookup(o, x).value, fuel - 1);
    }
  }

  /**
   * `parent_chain(ipr, parent)`. The argument `ipr` is not used. The loop ends
   * only if some finite walk from `parent` reaches a root, which the source
   * does not check.
   */
  method ParentChain(o: Ontology, ipr: string, parent: Option<string>) returns (parchain: seq<string>)
    requires exists fuel: nat :: WalkEnds(o, parent, fuel)
    ensures forall fuel: nat :: WalkEnds(o, parent, fuel) ==> parchain == DropNoneString(Walk(o, parent, fuel))
    ensures "None" !in parchain
  {
    ghost var fuel0: nat :| WalkEnds(o, parent, fuel0);
    ghost var fuel := fuel0;
    parchain := [];
    var current := parent;
    while current.Some?
      invariant WalkEnds(o, current, fuel)
      invariant parchain + DropNoneString(Walk(o, current, fuel)) == DropNoneString(Walk(o, parent, fuel0))
      invariant "None" !in parchain
      decreases fuel
    {
      ChainStep(o, current.value, fuel, parchain, DropNoneString(Walk(o, parent, fuel0)));
      if current.value != "None" {
        parchain := parchain + [current.value];
      }
      current := Lookup(o, current.value);
      fuel := fuel - 1;
    }
    forall n: nat | WalkEnds(o, parent, n)
      ensures parchain == DropNoneString(Walk(o, parent, n))
    {
      WalkUnique(o, parent, n, fuel0);
    }
  }

  /** One pass of the loop: the id it visits is appended unless it is 'None', and the walk moves on. */
  lemma {:induction false} ChainStep(o: Ontology, current: string, fuel: nat, parchain: seq<string>, total: seq<string>)
    requires WalkEnds(o, Some(current), fuel)
    requires parchain + DropNoneString(Walk(o, Some(current), fuel)) == total
    ensures fuel > 0 && WalkEnds(o, Lookup(o, current), fuel - 1)
    ensures (if current == "None" then parchain else parchain + [current])
      + DropNoneString(Walk(o, Lookup(o, current), fuel - 1)) == total
  {
    var rest := Walk(o, Lookup(o, current), fuel - 1);
    assert Walk(o, Some(current), fuel) == [current] + rest;
    DropNoneCons(current, rest);
    assert parchain + ([current] + DropNoneString(rest)) == (parchain + [current]) + DropNoneString(rest);
    assert parchain + ([] + DropNoneString(rest)) == parchain + DropNoneString(rest);
  }

  /** Two amounts of fuel that both end the walk give the same walk. */
  lemma {:induction false} WalkUnique(o: Ontology, start: Option<string>, n: nat, m: nat)
    requires WalkEnds(o, start, n) && WalkEnds(o, start, m)
    ensures Walk(o, start, n) == Walk(o, start, m)
  {
    if n <= m {
      WalkFuel(o, start, n, m);
    } else {
      WalkFuel(o, start, m, n);
    }
  }

  /** When no visited id is the string 'None', the chain is the whole parent path. */
  lemma {:induction false} ChainIsWalk(w: seq<string>)
    requires "None" !in w
    ensures DropNoneString(w) == w
  {
    if w != [] {
      ChainIsWalk(w[1..]);
      assert w == [w[0]] + w[1..];
    }
  }
}
