/**
 * Fresh identifiers (kami/utils/id_generators.py). A base name that is
 * already taken gets the suffixes `_1`, `_2`, ... tried in turn until one is
 * free. The `Nugget...Id` helpers build a candidate from their arguments and
 * freshen it against the nodes of a nugget graph.
 */
module IdGenerators {
  import opened Wrappers

  // Decimal numerals.

  function Digit(d: nat): (c: char)
    requires d < 10
    ensures '0' <= c <= '9' && c as int - '0' as int == d
  {
    ('0' as int + d) as char
  }

  /** `str(n)` for a natural number. */
  function DecimalString(n: nat): (s: string)
    ensures |s| >= 1
    ensures n >= 10 <==> |s| >= 2
    decreases n
  {
    if n < 10 then [Digit(n)] else DecimalString(n / 10) + [Digit(n % 10)]
  }

  /** Different numbers have different numerals. */
  lemma {:induction false} DecimalStringInjective(m: nat, n: nat)
    requires DecimalString(m) == DecimalString(n)
    ensures m == n
    decreases m
  {
    var s := DecimalString(m);
    if m >= 10 {
      var p, q := DecimalString(m / 10), DecimalString(n / 10);
      assert s[..|s| - 1] == p && s[..|s| - 1] == q;
      DecimalStringInjective(m / 10, n / 10);
      assert Digit(m % 10) == s[|s| - 1] == Digit(n % 10);
    } else {
      assert Digit(m) == s[0] == Digit(n);
    }
  }

  // The search for a free suffix.

  /** `str(base_name) + "_" + str(i)`. */
  function Suffixed(base: string, i: nat): string
  {
    base + "_" + DecimalString(i)
  }

  lemma {:induction false} SuffixedInjective(base: string, i: nat, j: nat)
    requires Suffixed(base, i) == Suffixed(base, j)
    ensures i == j
  {
    var k := |base| + 1;
    assert Suffixed(base, i)[k..] == DecimalString(i);
    assert Suffixed(base, j)[k..] == DecimalString(j);
    DecimalStringInjective(i, j);
  }

  /** The first `k` suffixed names. */
  ghost function SuffixSet(base: string, k: nat): set<string>
  {
    set j: nat | 1 <= j <= k :: Suffixed(base, j)
  }

  /** The first `k` suffixed names are `k` different names. */
  lemma {:induction false} SuffixSetSize(base: string, k: nat)
    ensures |SuffixSet(base, k)| == k
  {
    if k > 0 {
      SuffixSetSize(base, k - 1);
      assert SuffixSet(base, k) == SuffixSet(base, k - 1) + {Suffixed(base, k)};
      if Suffixed(base, k) in SuffixSet(base, k - 1) {
        var j: nat :| 1 <= j <= k - 1 && Suffixed(base, j) == Suffixed(base, k);
        SuffixedInjective(base, j, k);
      }
    }
  }

  /** A collection that holds the first `i - 1` suffixed names has at least `i - 1` members. */
  lemma {:induction false} TakenBound(c: set<string>, base: string, i: nat)
    requires 1 <= i && forall j :: 1 <= j < i ==> Suffixed(base, j) in c
    ensures i - 1 <= |c|
  {
    SuffixSetSize(base, i - 1);
    var s := SuffixSet(base, i - 1);
    assert s <= c;
    assert c == s + (c - s);
  }

  /**
   * The least suffix from `i` on whose name is not in `c`. Every earlier
   * suffix is taken, and since the collection is finite the search never
   * passes `|c| + 1`.
   */
  function FreeSuffix(c: set<string>, base: string, i: nat): (k: nat)
    requires 1 <= i && forall j :: 1 <= j < i ==> Suffixed(base, j) in c
    ensures i <= k <= |c| + 1
    ensures Suffixed(base, k) !in c
    ensures forall j :: 1 <= j < k ==> Suffixed(base, j) in c
    decreases |c| + 1 - i
  {
    TakenBound(c, base, i);
    if Suffixed(base, i) !in c then i
    else
      TakenBound(c, base, i + 1);
      FreeSuffix(c, base, i + 1)
  }

  /**
   * The name `generate_new_element_id` returns: never one of `c`; the base
   * itself when it is free, otherwise the base with the least suffix `i >= 1`
   * whose name is free.
   */
  function NewElementId(c: set<string>, base: string): (r: string)
    ensures r !in c
    ensures base !in c ==> r == base
    ensures base in c ==> exists i ::
      && 1 <= i <= |c|
      && r == Suffixed(base, i)
      && forall j :: 1 <= j < i ==> Suffixed(base, j) in c
  {
    if base !in c then base
    else
      var i := FreeSuffix(c, base, 1);
      TakenBoundWithBase(c, base, i);
      Suffixed(base, i)
  }

  /** The base itself is not a suffixed name, so a collection holding both has one more member. */
  lemma {:induction false} TakenBoundWithBase(c: set<string>, base: string, i: nat)
    requires 1 <= i && base in c && forall j :: 1 <= j < i ==> Suffixed(base, j) in c
    ensures i <= |c|
  {
    SuffixSetSize(base, i - 1);
    var s := SuffixSet(base, i - 1);
    assert base !in s;
    assert s + {base} <= c;
    assert c == (s + {base}) + (c - (s + {base}));
  }

  /** `generate_new_element_id(collection, base_name)`. */
  method GenerateNewElementId(collection: set<string>, baseName: string) returns (newName: string)
    ensures newName == NewElementId(collection, baseName)
  {
    if baseName !in collection {
      return baseName;
    }
    var i := 1;
    newName := Suffixed(baseName, i);
    while newName in collection
      invariant 1 <= i && newName == Suffixed(baseName, i)
      invariant forall j :: 1 <= j < i ==> Suffixed(baseName, j) in collection
      invariant FreeSuffix(collection, baseName, i) == FreeSuffix(collection, baseName, 1)
      decreases |collection| + 1 - i
    {
      TakenBound(collection, baseName, i + 1);
      i := i + 1;
      newName := Suffixed(baseName, i);
    }
  }

  // Graphs and nuggets.

  /** A graph, seen through its node identifiers. */
  datatype Graph = Graph(nodes: set<string>)

  /** `generate_new_id(graph, base_name)`: the same search against the graph's nodes. */
  method GenerateNewId(graph: Graph, baseName: string) returns (newName: string)
    ensures newName == NewElementId(graph.nodes, baseName)
  {
    newName := GenerateNewElementId(graph.nodes, baseName);
  }

  /** A gene agent, seen through its UniProt accession. */
  datatype Gene = Gene(uniprotid: Option<string>)

  /** The accession when there is one (an empty one included), otherwise `unknown_agent`. */
  function GeneCandidate(gene: Gene): (r: string)
    ensures gene.uniprotid.Some? ==> r == gene.uniprotid.value
    ensures gene.uniprotid.None? ==> r == "unknown_agent"
  {
    match gene.uniprotid
    case Some(id) => id
    case None => "unknown_agent"
  }

  /** `str(father) + "_" + str(x)`: the candidate of a region, residue, state or site. */
  function ChildCandidate(father: string, x: string): string
  {
    father + "_" + x
  }

  /** The binding-related node kinds and the words their identifiers carry. */
  datatype PairKind = Locus | IsBnd | Bnd | IsFree
  {
    function Infix(): string
    {
      match this
      case Locus => "_locus_"
      case IsBnd => "_is_bnd_"
      case Bnd => "_bnd_"
      case IsFree => "_is_free_"
    }
  }

  /** `"%s_<kind>_%s" % (left, right)`. */
  function PairCandidate(kind: PairKind, left: string, right: string): string
  {
    left + kind.Infix() + right
  }

  /** The shared tail of every helper: keep the candidate if it is free, otherwise freshen it. */
  method Freshen(nugget: Graph, candidate: string) returns (id: string)
    ensures id == NewElementId(nugget.nodes, candidate)
  {
    id := candidate;
    if id in nugget.nodes {
      id := GenerateNewId(nugget, id);
    }
  }

  /** `get_nugget_gene_id`. */
  method NuggetGeneId(nugget: Graph, gene: Gene) returns (agentId: string)
    ensures agentId == NewElementId(nugget.nodes, GeneCandidate(gene))
    ensures agentId !in nugget.nodes
  {
    agentId := Freshen(nugget, GeneCandidate(gene));
  }

  /**
   * `get_nugget_region_id`, `get_nugget_residue_id`, `get_nugget_state_id`
   * and `get_nugget_site_id`: the four build the same candidate.
   */
  method NuggetChildId(nugget: Graph, x: string, father: string) returns (id: string)
    ensures id == NewElementId(nugget.nodes, ChildCandidate(father, x))
  {
    id := Freshen(nugget, ChildCandidate(father, x));
  }

  /** `get_nugget_locus_id`, `get_nugget_is_bnd_id`, `get_nugget_bnd_id` and `get_nugget_is_free_id`. */
  method NuggetPairId(nugget: Graph, kind: PairKind, left: string, right: string) returns (id: string)
    ensures id == NewElementId(nugget.nodes, PairCandidate(kind, left, right))
  {
    id := Freshen(nugget, PairCandidate(kind, left, right));
  }
}
