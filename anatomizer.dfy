/**
 * `GeneAnatomy` (anatomizer/new_anatomizer.py): the two steps that turn a
 * gene's fragments into its domains. `MergeFragments` groups the fragments
 * and builds one new domain per group; `NestDomains` nests the gene's domains
 * into one another in place and returns the top level.
 */
module Anatomizer {
  import opened Wrappers
  import opened Indices
  import opened Anatomy
  import opened Clustering
  import opened MergedDomain
  import opened Nesting
  import opened DomainForest

  class GeneAnatomy {
    /** The gene's domains, as `__init__` leaves them after merging. */
    var domains: seq<DomainAnatomy>

    /**
     * `_merge_fragments`: one new domain per group of the grouping, in the
     * order of the groups. `overlapThreshold` is accepted and not used: the
     * grouping compares against its fixed threshold of 0.1.
     */
    method MergeFragments(fragments: seq<Fragment>, overlapThreshold: real := 0.7, shortest: bool := true)
      returns (merged: seq<DomainAnatomy>)
      ensures var groups := PickGroups(fragments, Groups(fragments, Range(|fragments|)));
        && |merged| == |groups|
        && forall a :: 0 <= a < |merged| ==>
             groups[a] != [] && fresh(merged[a]) && Describes(merged[a], groups[a], shortest)
      ensures NoDup(merged)
    {
      var groups := GroupFragments(fragments);
      GroupsNonEmpty(fragments);
      merged := NewDomains(groups, shortest);
    }

    /** The loop over groups in `_merge_fragments`: one new domain per group, in order. */
    static method NewDomains(groups: seq<seq<Fragment>>, shortest: bool) returns (merged: seq<DomainAnatomy>)
      requires forall a :: 0 <= a < |groups| ==> groups[a] != []
      ensures |merged| == |groups| && NoDup(merged)
      ensures forall a :: 0 <= a < |merged| ==> fresh(merged[a]) && Describes(merged[a], groups[a], shortest)
    {
      merged := [];
      for a := 0 to |groups|
        invariant |merged| == a && NoDup(merged)
        invariant forall b :: 0 <= b < a ==> fresh(merged[b]) && BuiltFrom(merged[b], groups[b], shortest)
        invariant forall b :: 0 <= b < a ==> merged[b].subdomains == []
      {
        var domain := NewDomain(groups[a], shortest);
        merged := merged + [domain];
      }
    }

    /** The body of the loop over groups in `_merge_fragments`: the domain of one group. */
    static method NewDomain(group: seq<Fragment>, shortest: bool) returns (domain: DomainAnatomy)
      requires group != []
      ensures fresh(domain) && Describes(domain, group, shortest)
    {
      var k := Representative(group, shortest);
      var start, end := group[k].start, group[k].end;
      domain := new DomainAnatomy(
        Names(ShortNameValues(group)),
        Names(IprNameValues(group)),
        Names(IprIdValues(group)),
        start,
        end,
        start - end,
        group[0].featureType,
        Some([]),
        Some(group));
    }

    /**
     * `_nest_domains`: nests this gene's domains from level 0 and returns the
     * top level. The domains must be distinct and nest-safe, as the merged
     * ones are (`MergedNestSafe`). Only `subdomains` lists change; the
     * `domains` field itself is not reassigned here.
     */
    method NestDomains(nestThreshold: real := 0.7, maxLevel: int := 1) returns (top: seq<DomainAnatomy>)
      requires NoDup(domains) && AllNestSafe(domains)
      modifies set d | d in domains
      ensures top == Roots(Forest(domains, 0, maxLevel, nestThreshold))
      ensures forall d :: d in domains ==>
        d.subdomains == old(d.subdomains) + KidsOf(Forest(domains, 0, maxLevel, nestThreshold), d)
    {
      top := NestLevel(domains, 0, maxLevel, nestThreshold);
    }
  }

  /** Every group of the grouping holds at least its first fragment. */
  lemma {:induction false} GroupsNonEmpty(fs: seq<Fragment>)
    ensures var groups := PickGroups(fs, Groups(fs, Range(|fs|)));
      forall a :: 0 <= a < |groups| ==> groups[a] != []
  {
    GroupingOrder(fs);
  }

  /**
   * The domains `MergeFragments` builds store `start - end` as their length,
   * so none of them makes the nest ratio divide by zero, and (`NeverNests`)
   * with a positive threshold none of them is nested into another.
   */
  lemma {:induction false} MergedNestSafe(merged: seq<DomainAnatomy>, groups: seq<seq<Fragment>>, shortest: bool)
    requires |merged| == |groups|
    requires forall a :: 0 <= a < |merged| ==> groups[a] != [] && Describes(merged[a], groups[a], shortest)
    ensures NegatedLengths(merged) && AllNestSafe(merged)
  {
    forall a | 0 <= a < |merged|
      ensures merged[a].length == merged[a].start - merged[a].end
    {
      assert Describes(merged[a], groups[a], shortest);
    }
  }
}
