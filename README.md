# Domain anatomy and fresh identifiers, in Dafny

This project models two parts of the KAMI bio-curation tools.

**The anatomizer** (`anatomizer/new_anatomizer.py`) turns the InterPro hits on a
protein into a gene's domain anatomy:

- `_merge_overlap` and `_nest_overlap` are the two overlap ratios between features.
- `are_parents` tells whether two hits belong to the same InterPro entry or to related ones.
- `parent_chain` follows an entry's ancestors up the InterPro hierarchy.
- `GeneAnatomy._merge_fragments` groups the hits (fragments) in one pass. It then builds one `DomainAnatomy` per group.
- `GeneAnatomy._nest_domains` sorts the domains longest first. Its `_find_nests` lets each unclaimed domain claim the later ones. Its `_nest` recurses on each owner's claimed domains and appends them to the owner's `subdomains`, in place.

**The KAMI identifier helpers** (`kami/utils/id_generators.py`) make a node name fresh. They try `base`, then `base_1`, `base_2`, and so on. The `get_nugget_*_id` helpers build a candidate and freshen it against a nugget graph's nodes.

## How the model is organised

Each loop of the source is a Dafny method over the same state as the source. It is proved equal to a functional specification, and the source's promises are proved about that specification.

- `Clustering.GroupFragments` keeps the source's `visited` set. It is proved to compute `Clustering.Groups`, a function over the ordered list of unclaimed indices.
- `Nesting.FindNests` is proved to compute `Nesting.Nests`.
- `DomainForest.NestLevel` is `_nest`. It is proved to return the roots of the tree `DomainForest.Forest`. It is also proved to append to each domain's `subdomains` exactly the roots of that domain's subtrees, and to change nothing else.
- `DomainAnatomy` is a class because nesting updates its `subdomains` in place. `Fragment` is a value.
- `parent_chain` reads the InterPro XML document. Here that document is a map from entry id to its `parent` attribute.

### Behaviour the model reproduces as the code has it

- Grouping ignores its `overlap_threshold` argument. It always compares the merge ratio with 0.1.
- Each fragment is tested once, against the members of the group at that time. The grouping is therefore not a transitive closure (`Clustering.GroupingNotClosed`).
- The merge ratio of two identical non-empty spans (`start < end`) is exactly 1 (`OverlapMetrics.MergeOverlap`).
- A hit whose location has `start == end` (one residue) overlaps nothing, not even itself, so it never merges with another fragment (`OverlapMetrics.EmptySpanNeverOverlaps`).
- A fragment's InterPro id may be missing (`None`). Two fragments that both lack one are related by `are_parents`, and a missing id is in no ancestor chain (`Clustering.AreParents`).
- A domain takes its coordinates from a member of minimum (or maximum) length. Among members of equal length, the last one wins, because of the dict.
- A domain's stored length is `start - end`, which is negative for an ordinary span. The nest ratio needs the smaller feature's stored length to be positive. So with a positive threshold, merged domains never nest (`DomainForest.NeverNests`, `Anatomizer.MergedNestSafe`). `_nest` then only sorts them.
- `parent_chain` has no guard against a cycle in the hierarchy (`Ancestry.CycleNeverEnds`). It skips only the literal string `'None'`, and never uses its `ipr` argument.
- The domain description that `_merge_fragments` computes first is never used. It has no effect and is not modelled.

## Model

| member | source | states |
|---|---|---|
| OverlapMetrics.MergeOverlap | anatomizer/new_anatomizer.py:415-440 | the ratio is 0 exactly when the spans share no residue, lies in [0, 1], and is 1 exactly when the spans intersect and have the same start and end |
| OverlapMetrics.EmptySpanNeverOverlaps | anatomizer/new_anatomizer.py:425-440 | a span with `end <= start` has merge ratio 0 with every feature, itself included |
| OverlapMetrics.MergeOverlapSymmetric | anatomizer/new_anatomizer.py:415-440 | the merge ratio does not depend on argument order |
| OverlapMetrics.NestOverlap | anatomizer/new_anatomizer.py:443-468 | `_nest_overlap`: `None`, standing for the ZeroDivisionError, exactly when the first feature is longer, the second's stored length is 0 and the spans intersect; the other cases are stated by `OverlapMetrics.NestOverlapCases` |
| OverlapMetrics.NestOverlapCases | anatomizer/new_anatomizer.py:443-468 | 0 unless the first feature is longer and the spans intersect; a division by zero (None) exactly when the smaller feature's stored length is 0, it is shorter and they intersect; positive only if the smaller stored length is positive; never positive over a negative stored length |
| OverlapMetrics.NestOverlapDefined | anatomizer/new_anatomizer.py:443-468 | a feature whose stored length is 0 only when its span is empty never makes the ratio divide by zero |
| OverlapMetrics.NestOverlapCoverage | anatomizer/new_anatomizer.py:443-468 | when the stored length is the real extent, the ratio is the covered fraction in [0, 1], and 1 when the larger feature contains the smaller |
| Ancestry.ParentChain | anatomizer/new_anatomizer.py:374-391 | the chain is the walk of parent lookups from `parent` until a lookup gives nothing, with the string 'None' left out |
| Ancestry.WalkIsParentPath | anatomizer/new_anatomizer.py:380-389 | a walk that ends starts at `parent`, each id's entry names the next id as parent, and the last id has no parent |
| Ancestry.CycleNeverEnds | anatomizer/new_anatomizer.py:380-389 | from an id on a cycle of the parent relation the loop never ends |
| Ancestry.ChainIsWalk | anatomizer/new_anatomizer.py:381-382 | when no id on the walk is the string 'None', the chain is the whole walk |
| Anatomy.DomainAnatomy.constructor | anatomizer/new_anatomizer.py:538-562 | every field holds its argument; a `subdomains` or `fragments` argument left at its `None` default gives an empty list |
| Clustering.AreParents | anatomizer/new_anatomizer.py:394-412 | true exactly when the two ids are equal (two missing ids included) or either id is in the other's parent list; reflexive and symmetric (`Clustering.AreParentsReflexive`, `Clustering.AreParentsSymmetric`) |
| Clustering.AreParentsReflexive | anatomizer/new_anatomizer.py:394-412 | a fragment is related to itself |
| Clustering.AreParentsSymmetric | anatomizer/new_anatomizer.py:394-412 | the relation does not depend on argument order |
| Clustering.ScanMembers | anatomizer/new_anatomizer.py:709-716 | the scan over the group succeeds exactly when some member is related to the fragment and overlaps it with ratio at least 0.1 |
| Clustering.GrowGroup | anatomizer/new_anatomizer.py:705-716 | the inner loop builds the group that the one-pass scan over the unvisited indices gives, and leaves unvisited exactly the indices it rejected |
| Clustering.GroupFragments | anatomizer/new_anatomizer.py:700-718 | the grouping loop computes the functional grouping of all indices |
| Clustering.GroupingPartition | anatomizer/new_anatomizer.py:700-718 | every fragment index lies in exactly one group, and the groups hold exactly the input fragments |
| Clustering.GroupingOrder | anatomizer/new_anatomizer.py:700-718 | each group is nonempty and in input order, and each member after the seed is linked to an earlier member; each group's seed precedes every later group's members; no member of a later group is linked to an earlier-indexed member of an earlier group |
| Clustering.GroupingNotClosed | anatomizer/new_anatomizer.py:700-718 | three concrete fragments where a fragment ends alone although a grouped fragment links to it |
| MergedDomain.Representative | anatomizer/new_anatomizer.py:735-746 | the member has minimum length when `shortest` and maximum otherwise, and no later member has the same length |
| MergedDomain.RepresentativeUnique | anatomizer/new_anatomizer.py:735-746 | those two properties single out the member |
| MergedDomain.FirstIndex | anatomizer/new_anatomizer.py:754-756 | `list.index`: the first position holding the value, before which no position holds it |
| MergedDomain.DedupSpec | anatomizer/new_anatomizer.py:754-756 | no duplicates, the same elements as the input, ordered by first occurrence in the input |
| MergedDomain.DedupUnique | anatomizer/new_anatomizer.py:754-756 | any duplicate-free list with those elements in that order is the deduplicated list |
| MergedDomain.PresentSpec | anatomizer/new_anatomizer.py:751-753 | the kept values are exactly the truthy ones (present and not empty) |
| MergedDomain.PresentOrder | anatomizer/new_anatomizer.py:751-756 | filtering keeps the order of first occurrences |
| MergedDomain.NamesSpec | anatomizer/new_anatomizer.py:751-756 | a domain's name list holds each truthy value once, ordered by the first member carrying it |
| MergedDomain.DescribedLength | anatomizer/new_anatomizer.py:748 | a merged domain's length is negative exactly when start < end, and 0 exactly when start == end |
| Anatomizer.GeneAnatomy.NewDomain | anatomizer/new_anatomizer.py:719-773 | a new domain with the group's names, its representative's coordinates, length `start - end`, the first member's feature type, no subdomains and the group as fragments |
| Anatomizer.GeneAnatomy.MergeFragments | anatomizer/new_anatomizer.py:696-775 | one new, distinct domain per group, in group order, each built from its group |
| Anatomizer.GeneAnatomy.NewDomains | anatomizer/new_anatomizer.py:719-775 | the loop over groups builds one new, distinct domain per group, in order, each from its group |
| Anatomizer.MergedNestSafe | anatomizer/new_anatomizer.py:748 | merged domains store `start - end` as length, so none makes the nest ratio divide by zero |
| Anatomizer.GroupsNonEmpty | anatomizer/new_anatomizer.py:704-705 | every group holds at least its seed |
| Anatomizer.GeneAnatomy.NestDomains | anatomizer/new_anatomizer.py:777-822 | returns the roots of the nesting forest from level 0, and appends to each domain exactly the roots of its subtrees |
| Nesting.SortByLength | anatomizer/new_anatomizer.py:804 | a permutation of the domains, longest first |
| Nesting.SortStable | anatomizer/new_anatomizer.py:804 | domains of equal length keep their input order |
| Nesting.FindNests | anatomizer/new_anatomizer.py:779-795 | the claiming loop computes the functional nests of all indices |
| Nesting.NestsPartition | anatomizer/new_anatomizer.py:779-795 | every index is an owner or a child of exactly one nest |
| Nesting.NestsChildren | anatomizer/new_anatomizer.py:779-795 | a nest's children come after its owner, in order, and each reaches the threshold against the owner |
| Nesting.NestsOwners | anatomizer/new_anatomizer.py:779-795 | owners come in index order, and no owner claims a later owner |
| Nesting.NestsFirstClaim | anatomizer/new_anatomizer.py:779-795 | no owner claims a child of a later nest: each index goes to the first owner that claims it |
| DomainForest.AppendSubdomains | anatomizer/new_anatomizer.py:811-814 | the owner's list grows by the nested domains, in order |
| DomainForest.Adopt | anatomizer/new_anatomizer.py:809-814 | one owner's children are nested one level down and their roots appended to the owner |
| DomainForest.NestLevel | anatomizer/new_anatomizer.py:798-817 | returns the forest's roots; each domain's list grows by exactly its subtrees' roots, and nothing else changes |
| DomainForest.NestEach | anatomizer/new_anatomizer.py:807-816 | the loop over the nests returns the owners in nest order, and appends to each owner exactly the roots of its nested children |
| DomainForest.FlattenForest | anatomizer/new_anatomizer.py:798-817 | the forest holds exactly the input domains, each as often as it is given |
| DomainForest.KidsOfOutside | anatomizer/new_anatomizer.py:798-817 | a domain outside the input gets nothing appended |
| DomainForest.ForestRootsIn | anatomizer/new_anatomizer.py:798-817 | `_nest` returns some of the domains it was given |
| DomainForest.ForestClaims | anatomizer/new_anatomizer.py:798-817 | at every level, a domain nested under another is one its owner claims |
| DomainForest.ForestDepth | anatomizer/new_anatomizer.py:799-800 | nesting stops at `max_level`: no path holds more than `max_level - level + 1` domains |
| DomainForest.ForestRootsOrdered | anatomizer/new_anatomizer.py:802-817 | below `max_level` the returned owners are longest first, and no owner claims one returned after it |
| DomainForest.NeverClaimed | anatomizer/new_anatomizer.py:443-468 | with a positive threshold, no domain whose stored length is `start - end` is claimed |
| DomainForest.NeverNests | anatomizer/new_anatomizer.py:798-817 | for such domains `_nest` appends nothing and returns them sorted below `max_level`, unchanged at it |
| IdGenerators.DecimalStringInjective | kami/utils/id_generators.py:8 | different numbers have different decimal numerals |
| IdGenerators.SuffixedInjective | kami/utils/id_generators.py:8 | different suffixes give different names |
| IdGenerators.FreeSuffix | kami/utils/id_generators.py:7-11 | the least suffix whose name is free, every earlier one being taken, never past `|collection| + 1` |
| IdGenerators.TakenBoundWithBase | kami/utils/id_generators.py:9-11 | when the base is taken, the search stops by suffix `|collection|` |
| IdGenerators.NewElementId | kami/utils/id_generators.py:4-12 | the name is never in the collection; it is the base when the base is free, otherwise the base with the least free suffix, at most `|collection|` |
| IdGenerators.GenerateNewElementId | kami/utils/id_generators.py:4-12 | the loop returns that name |
| IdGenerators.GenerateNewId | kami/utils/id_generators.py:15-24 | the same name, against the graph's nodes |
| IdGenerators.GeneCandidate | kami/utils/id_generators.py:29-32 | the UniProt accession when there is one, otherwise `unknown_agent` |
| IdGenerators.Freshen | kami/utils/id_generators.py:33-35 | a candidate that is free is kept, otherwise freshened against the nodes |
| IdGenerators.NuggetGeneId | kami/utils/id_generators.py:27-35 | the freshened gene candidate, never an existing node |
| IdGenerators.NuggetChildId | kami/utils/id_generators.py:38-99 | the freshened `father_x` candidate of a region, residue, state or site |
| IdGenerators.NuggetPairId | kami/utils/id_generators.py:62-91 | the freshened `a_locus_b`, `a_is_bnd_b`, `a_bnd_b` or `a_is_free_b` candidate |

## Left out

- Network access, disk caching and XML parsing (the Ensembl, APPRIS and UniProt lookups, `get_features`, `get_ipr_features`, `find_shortname`, the module-level loading of the InterPro documents). The InterPro hierarchy becomes a map parameter.
- `GeneAnatomy.__init__`, `to_dict`, `to_json` and every `print_summary`/`anatomy_summary`. They orchestrate remote calls and produce output. Among them, `__init__` passes `merge_overlap` where `_nest_domains` expects the nest threshold; that call is not modelled.
- `DomainAnatomy.from_fragment`, `to_dict` and `is_protein_kinase`. They read attributes that the class never sets, so they have no behaviour to model.
- `ProteinAnatomy`: a record filled from remote lookups.
- Anatomy.DomainAnatomy.constructor: the source stores the caller's list object itself, so a later append to `subdomains` is also seen through the caller's list. Lists are values here, so that aliasing is not modelled. The only caller, `_merge_fragments`, passes an empty subdomains list and a new group list, so no alias is visible there.
- The unused domain description in `_merge_fragments`: it has no effect.
- Float arithmetic: ratios are exact rationals, so rounding at the thresholds is not modelled.
- The rest of the repository: graph rewriting through an external library, JSON wrappers, static metamodel data and the JavaScript front end.
- Ancestry.ParentChain: requires that the walk of parents ends, because the loop does not terminate on a cyclic hierarchy (`Ancestry.CycleNeverEnds` shows this).
- Nesting.FindNests: requires every domain to be nest-safe, so the ZeroDivisionError path is not run through the loop. `OverlapMetrics.NestOverlap` models it as `None`. Merged domains are always nest-safe (`Anatomizer.MergedNestSafe`).
- DomainForest.NestLevel: requires distinct domain objects as well as nest-safe ones. With the same object listed twice, the source appends to it twice through aliasing; that case is not modelled. Merged domains are distinct new objects.
- Anatomizer.GeneAnatomy.NestDomains: same requirements as `DomainForest.NestLevel`.
- DomainForest.NestEach: same requirements as `DomainForest.NestLevel`, for the sorted domains it is given.
- IdGenerators.GenerateNewElementId: the collection is a set of strings and the base a string. Python's `str()` of other objects is not modelled.
- IdGenerators.NuggetChildId: the father and the child name are taken as their `str()` forms. The four source helpers that build the same `father_x` candidate are one member.
- IdGenerators.NuggetPairId: the four binding helpers differ only in the word inside the candidate. They are one member with a `PairKind` argument.
- IdGenerators.GenerateNewId: `generate_new_id` repeats the loop of `generate_new_element_id`. The model runs that loop once, on the graph's node set.
