/**
 * The two overlap ratios of the anatomizer (anatomizer/new_anatomizer.py,
 * `_merge_overlap` and `_nest_overlap`). Both take any two features that
 * carry `start`, `end` and a stored `length`; `Span` is that common view.
 * Ratios are exact rationals (`real`); Python's float rounding is not modelled.
 */
module OverlapMetrics {
  import opened Wrappers

  /** The coordinates of a fragment or a domain, with its stored `length`. */
  datatype Span = Span(start: int, end: int, length: int)

  function Max(a: int, b: int): int { if a >= b then a else b }
  function Min(a: int, b: int): int { if a <= b then a else b }

  /** The two spans share at least one residue: `max(starts) < min(ends)`. */
  predicate Intersect(f1: Span, f2: Span)
  {
    Max(f1.start, f2.start) < Min(f1.end, f2.end)
  }

  /** The number of residues in the intersection (meaningful when `Intersect`). */
  function Overlap(f1: Span, f2: Span): int
  {
    Min(f1.end, f2.end) - Max(f1.start, f2.start)
  }

  /**
   * `_merge_overlap`: overlapping residues over the total span of the two
   * features; 0 when they do not intersect.
   */
  function MergeOverlap(f1: Span, f2: Span): (r: real)
    ensures r == 0.0 <==> !Intersect(f1, f2)
    ensures 0.0 <= r <= 1.0
    ensures r == 1.0 <==> Intersect(f1, f2) && f1.start == f2.start && f1.end == f2.end
  {
    if Intersect(f1, f2) then
      var span := Max(f1.end, f2.end) - Min(f1.start, f2.start);
      RatioBounds(Overlap(f1, f2), span);
      Overlap(f1, f2) as real / span as real
    else
      0.0
  }

  /**
   * A span with `end <= start` (a one-residue hit read with `start == end`)
   * intersects nothing, itself included, so its merge ratio with any feature is 0.
   */
  lemma {:induction false} EmptySpanNeverOverlaps(f: Span, g: Span)
    requires f.end <= f.start
    ensures MergeOverlap(f, g) == 0.0 && MergeOverlap(g, f) == 0.0
  {
  }

  /** `a / b` lies in (0, 1], and is 1 exactly when `a == b`. */
  lemma {:induction false} RatioBounds(a: int, b: int)
    requires 0 < a <= b
    ensures 0.0 < a as real / b as real <= 1.0
    ensures a as real / b as real == 1.0 <==> a == b
  {
    var q := a as real / b as real;
    assert q * b as real == a as real;
  }

  /** The merge ratio does not depend on the order of its arguments. */
  lemma {:induction false} MergeOverlapSymmetric(f1: Span, f2: Span)
    ensures MergeOverlap(f1, f2) == MergeOverlap(f2, f1)
  {
  }

  /**
   * `_nest_overlap(f1, f2)`: 0 unless `f1.length > f2.length`; otherwise the
   * overlapping residues over the stored `f2.length` (not `f2.end - f2.start`).
   * `None` is the ZeroDivisionError Python raises when that length is 0 and the
   * spans intersect.
   */
  function NestOverlap(f1: Span, f2: Span): (r: Option<real>)
    ensures r == None <==> f1.length > f2.length == 0 && Intersect(f1, f2)
  {
    if f1.length > f2.length then
      if Intersect(f1, f2) then
        if f2.length == 0 then None
        else Some(Overlap(f1, f2) as real / f2.length as real)
      else
        Some(0.0)
    else
      Some(0.0)
  }

  /**
   * The cases of the nest ratio: 0 unless the first feature is longer and the
   * two intersect; undefined exactly when the second one's stored length is 0
   * while they intersect; positive only over a positive length; never positive
   * over a negative one.
   */
  lemma {:induction false} NestOverlapCases(f1: Span, f2: Span)
    ensures var r := NestOverlap(f1, f2);
      && (f1.length <= f2.length ==> r == Some(0.0))
      && (!Intersect(f1, f2) ==> r == Some(0.0))
      && (r == None <==> f1.length > f2.length == 0 && Intersect(f1, f2))
      && (r.Some? && r.value > 0.0 ==> f2.length > 0 && Intersect(f1, f2))
      && (r.Some? && f2.length < 0 ==> r.value <= 0.0)
  {
    if f1.length > f2.length && Intersect(f1, f2) && f2.length < 0 {
      var q := Overlap(f1, f2) as real / f2.length as real;
      assert q * f2.length as real == Overlap(f1, f2) as real;
    }
  }

  /** A span whose stored length is 0 only when it is empty never makes the nest ratio divide by zero. */
  predicate NestSafe(f: Span)
  {
    f.length != 0 || f.end <= f.start
  }

  lemma {:induction false} NestOverlapDefined(f1: Span, f2: Span)
    requires NestSafe(f2)
    ensures NestOverlap(f1, f2).Some?
  {
  }

  /**
   * When the stored length of the smaller feature is its real extent, the nest
   * ratio is the fraction of it covered by the larger one, and it is 1 when
   * the larger feature contains it.
   */
  lemma {:induction false} NestOverlapCoverage(f1: Span, f2: Span)
    requires f1.length > f2.length == f2.end - f2.start > 0
    ensures 0.0 <= NestOverlap(f1, f2).value <= 1.0
    ensures f1.start <= f2.start && f2.end <= f1.end ==> NestOverlap(f1, f2) == Some(1.0)
  {
    if Intersect(f1, f2) {
      RatioBounds(Overlap(f1, f2), f2.length);
    }
  }
}
