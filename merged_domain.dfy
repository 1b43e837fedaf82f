/**
 * The domain `GeneAnatomy._merge_fragments` (anatomizer/new_anatomizer.py)
 * builds from one group of fragments: coordinates of a representative member,
 * name lists deduplicated in first-occurrence order, the first member's
 * feature type, and the group itself as `fragments`.
 */
module MergedDomain {
  import opened Wrappers
  import opened Indices
  import opened Anatomy

  /**
   * The member the domain takes its coordinates from. The source keys a dict
   * by `length` while enumerating the group, so a later member with the same
   * length overwrites an earlier one; the extreme key then names the LAST
   * member of minimum (`shortest`) or maximum length.
   */
  function Representative(group: seq<Fragment>, shortest: bool): (k: nat)
    requires group != []
    ensures k < |group|
    ensures forall m :: 0 <= m < |group| ==>
      if shortest then group[k].length <= group[m].length else group[m].length <= group[k].length
    ensures forall m :: k < m < |group| ==> group[m].length != group[k].length
    decreases |group|
  {
    var last := |group| - 1;
    if last == 0 then 0
    else
      var k := Representative(group[..last], shortest);
      if (shortest && group[last].length <= group[k].length)
        || (!shortest && group[last].length >= group[k].length)
      then last
      else k
  }

  /** The two properties above single out one member: the representative is the only index with both. */
  lemma {:induction false} RepresentativeUnique(group: seq<Fragment>, shortest: bool, j: nat)
    requires j < |group|
    requires forall m :: 0 <= m < |group| ==>
      if shortest then group[j].length <= group[m].length else group[m].length <= group[j].length
    requires forall m :: j < m < |group| ==> group[m].length != group[j].length
    ensures j == Representative(group, shortest)
  {
    var k := Representative(group, shortest);
    assert group[j].length == group[k].length;
  }

  /**
   * The position of the first occurrence of `x`: Python's `list.index`, which
   * the source only applies to members; `|s|` for a value that does not occur.
   */
  function FirstIndex<T(==)>(s: seq<T>, x: T): (k: nat)
    ensures k <= |s| && (k < |s| <==> x in s)
    ensures k < |s| ==> s[k] == x
    ensures forall i :: 0 <= i < k ==> s[i] != x
  {
    if s == [] then 0
    else if s[0] == x then 0
    else FirstIndex(s[1..], x) + 1
  }

  lemma {:induction false} FirstIndexAt<T>(s: seq<T>, k: nat)
    requires k < |s| && forall i :: 0 <= i < k ==> s[i] != s[k]
    ensures FirstIndex(s, s[k]) == k
  {
  }

  /**
   * `sorted(set(s), key=s.index)`: each distinct element once, ordered by
   * where it first occurs in `s`.
   */
  function Dedup(s: seq<string>): (r: seq<string>)
    ensures |r| <= |s|
    decreases |s|
  {
    if s == [] then []
    else
      var n := |s| - 1;
      var d := Dedup(s[..n]);
      if s[n] in d then d else d + [s[n]]
  }

  /** The deduplicated list holds each element of `s` once, ordered by first occurrence in `s`. */
  lemma {:induction false} DedupSpec(s: seq<string>)
    ensures var r := Dedup(s);
      && NoDup(r)
      && (forall x :: x in r <==> x in s)
      && (forall a, b :: 0 <= a < b < |r| ==> FirstIndex(s, r[a]) < FirstIndex(s, r[b]))
    decreases |s|
  {
    if s != [] {
      var n := |s| - 1;
      DedupSpec(s[..n]);
      DedupSnoc(s, Dedup(s[..n]));
    }
  }

  /** One step of `Dedup`: keep the last element only when the prefix does not hold it. */
  lemma {:induction false} DedupSnoc(s: seq<string>, d: seq<string>)
    requires s != []
    requires NoDup(d) && forall x :: x in d <==> x in s[..|s| - 1]
    requires forall a, b :: 0 <= a < b < |d| ==> FirstIndex(s[..|s| - 1], d[a]) < FirstIndex(s[..|s| - 1], d[b])
    ensures var r := if s[|s| - 1] in d then d else d + [s[|s| - 1]];
      && NoDup(r)
      && (forall x :: x in r <==> x in s)
      && (forall a, b :: 0 <= a < b < |r| ==> FirstIndex(s, r[a]) < FirstIndex(s, r[b]))
  {
    var n := |s| - 1;
    var p := s[..n];
    assert s == p + [s[n]];
    forall x | x in p ensures x in s && FirstIndex(s, x) == FirstIndex(p, x) {
      FirstIndexSnoc(p, s[n], x);
    }
    if s[n] !in d {
      FirstIndexNew(p, s[n]);
      var r := d + [s[n]];
      forall a, b | 0 <= a < b < |r| ensures FirstIndex(s, r[a]) < FirstIndex(s, r[b]) {
        assert r[a] == d[a] && d[a] in d;
        if b < |d| {
          assert r[b] == d[b] && d[b] in d;
        }
      }
    }
  }

  /** Appending to a list does not move the first occurrence of an element it already holds. */
  lemma {:induction false} FirstIndexSnoc(p: seq<string>, y: string, x: string)
    requires x in p
    ensures FirstIndex(p + [y], x) == FirstIndex(p, x)
  {
    var k := FirstIndex(p, x);
    assert forall i :: 0 <= i <= k ==> (p + [y])[i] == p[i];
    FirstIndexAt(p + [y], k);
  }

  /** An element appended to a list that does not hold it first occurs at the end. */
  lemma {:induction false} FirstIndexNew(p: seq<string>, y: string)
    requires y !in p
    ensures FirstIndex(p + [y], y) == |p|
  {
    assert forall i :: 0 <= i < |p| ==> (p + [y])[i] == p[i] && p[i] in p;
    FirstIndexAt(p + [y], |p|);
  }

  /** The deduplicated list is the only duplicate-free list with those elements in that order. */
  lemma {:induction false} DedupUnique(s: seq<string>, r: seq<string>)
    requires NoDup(r)
    requires forall x :: x in r <==> x in s
    requires forall a, b :: 0 <= a < b < |r| ==> FirstIndex(s, r[a]) < FirstIndex(s, r[b])
    ensures r == Dedup(s)
  {
    DedupSpec(s);
    SameOrderedEqual(s, r, Dedup(s));
  }

  /** Ordered by first occurrence in `s`, with the same elements. */
  ghost predicate SameOrdered(s: seq<string>, r: seq<string>, d: seq<string>)
  {
    && NoDup(r) && NoDup(d)
    && (forall x :: x in r ==> x in s)
    && (forall x :: x in r <==> x in d)
    && (forall a, b :: 0 <= a < b < |r| ==> FirstIndex(s, r[a]) < FirstIndex(s, r[b]))
    && (forall a, b :: 0 <= a < b < |d| ==> FirstIndex(s, d[a]) < FirstIndex(s, d[b]))
  }

  /** Both lists start with their element of least first index. */
  lemma {:induction false} SameOrderedHead(s: seq<string>, r: seq<string>, d: seq<string>)
    requires r != [] && d != [] && SameOrdered(s, r, d)
    ensures r[0] == d[0]
  {
    var x, y := r[0], d[0];
    assert y in d && x in r;
    var b :| 0 <= b < |r| && r[b] == y;
    var a :| 0 <= a < |d| && d[a] == x;
    assert b == 0 || FirstIndex(s, x) < FirstIndex(s, y);
    assert a == 0 || FirstIndex(s, y) < FirstIndex(s, x);
  }

  lemma {:induction false} SameOrderedTail(s: seq<string>, r: seq<string>, d: seq<string>)
    requires r != [] && d != [] && SameOrdered(s, r, d) && r[0] == d[0]
    ensures SameOrdered(s, r[1..], d[1..])
  {
    var r', d' := r[1..], d[1..];
    TailFacts(s, r);
    TailFacts(s, d);
    assert r == [r[0]] + r' && d == [d[0]] + d';
    forall z ensures z in r' <==> z in d' {
      if z in r' {
        assert z in r && z != r[0] && z in d;
      }
      if z in d' {
        assert z in d && z != d[0] && z in r;
      }
    }
  }

  /** Dropping the head of a duplicate-free ordered list keeps it so, and the head is not in the rest. */
  lemma {:induction false} TailFacts(s: seq<string>, r: seq<string>)
    requires r != [] && NoDup(r)
    requires forall a, b :: 0 <= a < b < |r| ==> FirstIndex(s, r[a]) < FirstIndex(s, r[b])
    ensures NoDup(r[1..]) && r[0] !in r[1..]
    ensures forall a, b :: 0 <= a < b < |r[1..]| ==> FirstIndex(s, r[1..][a]) < FirstIndex(s, r[1..][b])
  {
    var r' := r[1..];
    forall a, b | 0 <= a < b < |r'| ensures r'[a] != r'[b] && FirstIndex(s, r'[a]) < FirstIndex(s, r'[b]) {
      assert r'[a] == r[a + 1] && r'[b] == r[b + 1];
    }
  }

  /**
   * Two duplicate-free lists with the same elements, both ordered by first
   * occurrence in `s`, are equal.
   */
  lemma {:induction false} SameOrderedEqual(s: seq<string>, r: seq<string>, d: seq<string>)
    requires SameOrdered(s, r, d)
    ensures r == d
    decreases |r|
  {
    assert r == [] ==> d == [] by {
      assert d != [] ==> d[0] in r;
    }
    assert d == [] ==> r == [] by {
      assert r != [] ==> r[0] in d;
    }
    if r != [] {
      SameOrderedHead(s, r, d);
      SameOrderedTail(s, r, d);
      SameOrderedEqual(s, r[1..], d[1..]);
      assert r == [r[0]] + r[1..] && d == [d[0]] + d[1..];
    }
  }

  /** A value Python treats as true in `if x`: present and not the empty string. */
  predicate Truthy(o: Option<string>)
  {
    o.Some? && o.value != ""
  }

  /** `[v for v in vals if v]`. */
  function Present(vals: seq<Option<string>>): (r: seq<string>)
    ensures |r| <= |vals|
  {
    if vals == [] then []
    else (if Truthy(vals[0]) then [vals[0].value] else []) + Present(vals[1..])
  }

  /** The kept values are exactly the truthy ones. */
  lemma {:induction false} PresentSpec(vals: seq<Option<string>>)
    ensures forall x :: x in Present(vals) <==> Truthy(Some(x)) && Some(x) in vals
  {
    if vals != [] {
      PresentSpec(vals[1..]);
      assert vals == [vals[0]] + vals[1..];
    }
  }

  /**
   * Filtering keeps the order of first occurrences: among the kept values,
   * the one that occurs first in the filtered list occurs first in `vals`.
   */
  lemma {:induction false} PresentOrder(vals: seq<Option<string>>, x: string, y: string)
    requires x in Present(vals) && y in Present(vals)
    ensures FirstIndex(Present(vals), x) < FirstIndex(Present(vals), y)
      <==> FirstIndex(vals, Some(x)) < FirstIndex(vals, Some(y))
  {
    var r := Present(vals);
    var r' := Present(vals[1..]);
    PresentSpec(vals);
    PresentSpec(vals[1..]);
    if Truthy(vals[0]) {
      assert r == [vals[0].value] + r';
      if x != vals[0].value && y != vals[0].value {
        PresentOrder(vals[1..], x, y);
      }
    } else {
      assert r == r';
      PresentOrder(vals[1..], x, y);
    }
  }

  /** The name list a domain gets from one field of its members. */
  function Names(vals: seq<Option<string>>): (r: seq<string>)
  {
    Dedup(Present(vals))
  }

  /**
   * A domain's names: each truthy value of the field exactly once, ordered by
   * the first member that carries it.
   */
  lemma {:induction false} NamesSpec(vals: seq<Option<string>>)
    ensures var r := Names(vals);
      && NoDup(r)
      && (forall x :: x in r <==> Truthy(Some(x)) && Some(x) in vals)
      && (forall a, b :: 0 <= a < b < |r| ==> FirstIndex(vals, Some(r[a])) < FirstIndex(vals, Some(r[b])))
  {
    var r := Names(vals);
    DedupSpec(Present(vals));
    PresentSpec(vals);
    forall a, b | 0 <= a < b < |r|
      ensures FirstIndex(vals, Some(r[a])) < FirstIndex(vals, Some(r[b]))
    {
      PresentOrder(vals, r[a], r[b]);
    }
  }

  function ShortNameValues(group: seq<Fragment>): (r: seq<Option<string>>)
  {
    seq(|group|, m requires 0 <= m < |group| => group[m].shortName)
  }

  function IprNameValues(group: seq<Fragment>): (r: seq<Option<string>>)
  {
    seq(|group|, m requires 0 <= m < |group| => group[m].iprName)
  }

  function IprIdValues(group: seq<Fragment>): (r: seq<Option<string>>)
  {
    seq(|group|, m requires 0 <= m < |group| => group[m].iprId)
  }

  /** `d` is the domain the source builds from `group`, with no subdomains yet. */
  ghost predicate Describes(d: DomainAnatomy, group: seq<Fragment>, shortest: bool)
    requires group != []
    reads d
  {
    BuiltFrom(d, group, shortest) && d.subdomains == []
  }

  /** The fields of `d` that never change after construction are those the source computes from `group`. */
  ghost predicate BuiltFrom(d: DomainAnatomy, group: seq<Fragment>, shortest: bool)
    requires group != []
  {
    var k := Representative(group, shortest);
    && d.shortNames == Names(ShortNameValues(group))
    && d.iprNames == Names(IprNameValues(group))
    && d.iprIds == Names(IprIdValues(group))
    && d.start == group[k].start
    && d.end == group[k].end
    && d.length == d.start - d.end
    && d.featureType == group[0].featureType
    && d.fragments == group
  }

  /** The stored length is negated: a domain over an ordinary span has negative length. */
  lemma {:induction false} DescribedLength(d: DomainAnatomy, group: seq<Fragment>, shortest: bool)
    requires group != [] && Describes(d, group, shortest)
    ensures d.length < 0 <==> d.start < d.end
    ensures d.length == 0 <==> d.start == d.end
  {
  }
}
