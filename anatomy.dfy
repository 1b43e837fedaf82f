/**
 * The two records of the anatomizer (anatomizer/new_anatomizer.py): a raw
 * annotation hit (`Fragment`) and a merged domain (`DomainAnatomy`). Only the
 * fields are modelled; the printing and serialising members are not.
 */
module Anatomy {
  import opened Wrappers
  import opened OverlapMetrics

  /**
   * A raw InterPro hit on a protein. `length` is stored as given (the feature
   * reader sets it to `end - start`); `iprParents` is the entry's ancestor chain.
   * The XML attributes that may be missing are options, the InterPro id
   * included.
   */
  datatype Fragment = Fragment(
    internalId: int,
    xname: Option<string>,
    xid: Option<string>,
    xdatabase: Option<string>,
    start: int,
    end: int,
    length: int,
    shortName: Option<string>,
    iprName: Option<string>,
    iprId: Option<string>,
    featureType: Option<string>,
    iprParents: seq<string>)
  {
    /** The coordinates the overlap ratios read. */
    function AsSpan(): Span
    {
      Span(start, end, length)
    }
  }

  /**
   * A domain built from a group of fragments. Every field but `subdomains` is
   * set once at construction; nesting appends to `subdomains` in place.
   */
  class DomainAnatomy {
    const shortNames: seq<string>
    const iprNames: seq<string>
    const iprIds: seq<string>
    const start: int
    const end: int
    const length: int
    const featureType: Option<string>
    const fragments: seq<Fragment>
    var subdomains: seq<DomainAnatomy>

    /**
     * `subdomains` and `fragments` default to `None`, which (like an empty
     * list) leaves the field an empty list.
     */
    constructor (shortNames: seq<string>, iprNames: seq<string>, iprIds: seq<string>,
                 start: int, end: int, length: int, featureType: Option<string>,
                 subdomains: Option<seq<DomainAnatomy>>, fragments: Option<seq<Fragment>>)
      ensures this.shortNames == shortNames && this.iprNames == iprNames && this.iprIds == iprIds
      ensures this.start == start && this.end == end && this.length == length
      ensures this.featureType == featureType
      ensures subdomains.None? ==> this.subdomains == []
      ensures subdomains.Some? ==> this.subdomains == subdomains.value
      ensures fragments.None? ==> this.fragments == []
      ensures fragments.Some? ==> this.fragments == fragments.value
    {
      this.shortNames := shortNames;
      this.iprNames := iprNames;
      this.iprIds := iprIds;
      this.start := start;
      this.end := end;
      this.length := length;
      this.featureType := featureType;
      // An empty list argument is replaced by a new empty list in the
      // source; as values the two are equal, so only `None` needs a case.
      match subdomains {
        case Some(s) => this.subdomains := s;
        case None => this.subdomains := [];
      }
      match fragments {
        case Some(s) => this.fragments := s;
        case None => this.fragments := [];
      }
    }

    /** The coordinates the overlap ratios read. */
    function AsSpan(): Span
    {
      Span(start, end, length)
    }
  }
}
