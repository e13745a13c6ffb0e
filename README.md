# Channel scoring against a pathway hypergraph

This project models `src/STRING_channels/run_channels.py` in Dafny and proves properties of
the model. The script scores the interactions of a STRING channel, such as co-occurrence,
against a Reactome pathway hypergraph. Each interaction is one protein pair with a score.

For each interaction the script does five things:

- It maps the two endpoints through the UniProt-to-PathwayCommons identifier map.
- It drops the interaction unless both mapped identifiers are hypergraph nodes.
- It records which pairs lie in some pathway ("AnyPathway") and which lie in one pathway together ("SamePathway").
- It computes a B-relaxation distance from the first endpoint's aggregates to the second endpoint's aggregates. The result is cached per first endpoint in `processed_nodes`, which the file loop would pass from one file to the next (see Left out).
- It writes one row per admitted interaction.

The repository's Python iterates dictionaries and sets in place. The model follows that code:
- each loop is a Dafny `method`;
- each method is proved against a ghost function or predicate of its inputs;
- the promised properties are proved as lemmas about those functions.

Modules, one per component:

- `Common`: identifiers, interactions, `Option` and `Result`.
- `Membership`: the aggregate-membership map built at the top of `main`. It is generic in the node type.
- `Admission`: the identifier and hypergraph admission filter.
- `Text`: Python's `str.strip()`, `str.split()` and `str.split(';')` on `seq<char>`.
- `Pathways`: `get_pathways`. This covers line parsing, the allow-list, the deny-list, redundancy pruning and the union.
- `PathwayInteractions`: `get_pathway_interactions`.
- `BRelax`: `preprocess_brelax_dicts` and its cache, and `get_bconn_interactions` with the `LARGE_VAL` sentinel.
- `Rows`: the output row encoding.
- `Channels`: the per-file loop of `main` and `main` itself, as `ScoreFile`, `ScoreAll` and `Run`.

Interfaces with code outside the model:

- `hpaths.b_relaxation` is the parameter `relax: set<N> -> map<N, Option<nat>>`, where `None` means unreachable. The hypergraph and `b_visit_dict` it closes over are fixed for a run.
- The hypergraph is a map from node to `NodeAttrs`. A node can be both a complex and an entity set.
- The order in which `H.get_node_set()` is iterated is an explicit parameter `order`.
- Files are values:
  - a pathway file is its name and lines;
  - a channel file is its name, whether its output already exists, and its parsed interactions;
  - outputs are sequences of rows and maps.

## Model

| member | source | states |
|---|---|---|
| Membership.BuildMembership | src/STRING_channels/run_channels.py:22-44 | `nodes` is every node together with every complex or entity-set member listed. The map has exactly those keys. The entry of `k` is exactly the nodes listing `k`, plus `k` itself only if no node visited before `k` lists it. |
| Membership.BuildMembershipCorrected | src/STRING_channels/run_channels.py:22-44 | The same loop with the self-entry always added: each entry is the nodes listing `k`, plus `k` when `k` is a node, whatever the visiting order. |
| Membership.AddOwner | src/STRING_channels/run_channels.py:30-33 | One member loop: every listed member gets an entry, and the aggregate joins it. |
| Membership.EntryMeaning | src/STRING_channels/run_channels.py:26-44 | Every aggregate listing `k` is in both entries of `k`. The corrected entry holds nothing but `k` and aggregates listing `k`, and holds `k` when `k` is a node. The as-written entry is contained in the corrected one, and entries hold only hypergraph nodes. |
| Membership.ComplexFirstLosesSelf | src/STRING_channels/run_channels.py:43-44 | A complex visited before its member node leaves that node out of its own entry. |
| Membership.MemberFirstKeepsSelf | src/STRING_channels/run_channels.py:42-44 | Visiting the member node first keeps it in its own entry. |
| Membership.SelfEntryDependsOnOrder | src/STRING_channels/run_channels.py:43-44 | The as-written self-entry differs between two visiting orders of the same hypergraph. The corrected entry does not depend on the order. |
| Admission.AdmitInteractions | src/STRING_channels/run_channels.py:80-102 | The kept list is the admissible interactions in order, each with both endpoints replaced by their mapped identifiers and its score kept. `missing` has one key per rejected endpoint, with reason NotInPC and "NA" if unmapped, or NotInHypergraph and the mapped id. The two counters count the two kinds of rejection. |
| Admission.KeptIff | src/STRING_channels/run_channels.py:84-96 | An interaction is kept exactly when some input interaction has both endpoints mapped to hypergraph nodes and translates to it. |
| Admission.KeptAppend | src/STRING_channels/run_channels.py:83-96 | The filter keeps input order: the kept list of `a + b` is the kept list of `a` followed by that of `b`. |
| Admission.AdmissionPartition | src/STRING_channels/run_channels.py:83-102 | Kept plus mismapped plus not-in-hypergraph equals the number of input interactions. |
| Admission.MissingKeysIff | src/STRING_channels/run_channels.py:88-101 | An id is a key of `missing` exactly when some interaction rejects it: unmapped, or mapped outside the hypergraph while both ends map. |
| Admission.MissingReason | src/STRING_channels/run_channels.py:88-101 | Reason NotInPC holds exactly for unmapped ids, with "NA". Reason NotInHypergraph holds for mapped ids whose mapped id is not a node, with that id. |
| Admission.AdmittedNotRecorded | src/STRING_channels/run_channels.py:95-101 | An admitted interaction records none of its endpoints as missing. |
| Text.WordLen | src/STRING_channels/run_channels.py:267 | The length of the leading word: a run of non-whitespace, followed by whitespace or the end. |
| Text.Words | src/STRING_channels/run_channels.py:267 | `str.split()` yields nonempty words without whitespace. |
| Text.SplitOn | src/STRING_channels/run_channels.py:271 | `str.split(';')` yields at least one piece, and no piece contains the separator. |
| Text.LStripShape | src/STRING_channels/run_channels.py:267 | Left-stripping removes exactly a whitespace prefix, and the result does not start with whitespace. |
| Text.RStripShape | src/STRING_channels/run_channels.py:267 | Right-stripping removes exactly a whitespace suffix, and the result does not end with whitespace. |
| Text.WordsOfJoinSpaced | src/STRING_channels/run_channels.py:267 | Splitting into words undoes joining nonempty whitespace-free words with spaces. |
| Text.SplitOnJoin | src/STRING_channels/run_channels.py:271 | Splitting on `c` undoes joining with `c` when no item contains `c`. |
| Text.JoinOnSplit | src/STRING_channels/run_channels.py:271 | Joining with `c` undoes splitting on `c`. |
| Common.SetOfContains | src/STRING_channels/run_channels.py:271 | `set.update(list)` adds exactly the list's items. |
| Pathways.LineMembersMeaning | src/STRING_channels/run_channels.py:264-271 | A line fails exactly when it is empty or blank (IndexError). Only the blank case can come from a file: iterating a file never yields an empty line, so the empty case is kept only to make the function total. A comment line adds nothing. Any other line adds its first column and, if there is a second column, each `;` item of it, and nothing else. |
| Pathways.ReadPathway | src/STRING_channels/run_channels.py:263-271 | Reading a file gives the union of its lines' members, or the error of the first failing line. |
| Pathways.FileMembersOk | src/STRING_channels/run_channels.py:263-271 | A file reads without error exactly when every line does. |
| Pathways.FileMembersContent | src/STRING_channels/run_channels.py:263-271 | A member of a read file is exactly a member contributed by one of its lines. |
| Pathways.CommentAddsNothing | src/STRING_channels/run_channels.py:265-266 | Appending a comment line does not change what a file reads as. |
| Pathways.ParseRenderedLine | src/STRING_channels/run_channels.py:267-271 | Round trip: the line `primary TAB items joined by ';' NEWLINE` reads back as `{primary}` plus the items. |
| Pathways.CollectPathways | src/STRING_channels/run_channels.py:255-271 | The file loop's result is the specification function `Collected`: each selected file is read into the map, or the first read error is returned. |
| Pathways.CollectedKeys | src/STRING_channels/run_channels.py:256-262 | The pathway names are exactly the selected file names. Without `run_all` they are all in ORIG_34. |
| Pathways.CollectedValue | src/STRING_channels/run_channels.py:262-271 | Each pathway's set is what the last selected file of that name reads as. |
| Pathways.CollectedOk | src/STRING_channels/run_channels.py:256-271 | Reading succeeds exactly when every selected file reads without error. |
| Pathways.DropTopLevel | src/STRING_channels/run_channels.py:275-277 | Deletion succeeds exactly when every listed name is present when its turn comes. Then the keys are the old keys minus the names, with sets unchanged. Otherwise the error names the first name, in list order, that cannot be deleted (KeyError). |
| Pathways.TopLevelDistinct | src/STRING_channels/run_channels.py:240-244 | TO_IGNORE lists no name twice. |
| Pathways.DistinctDeletable | src/STRING_channels/run_channels.py:276-277 | With distinct names, a name can be deleted at its turn exactly when it is a key, so deletion succeeds exactly when every name is a key. |
| Pathways.CoversIff | src/STRING_channels/run_channels.py:285 | The length test `len(a & b) == len(a)` is the subset test `a <= b`. |
| Pathways.IsCovered | src/STRING_channels/run_channels.py:284-287 | The inner search finds a `j` exactly when another pathway contains pathway `i`. |
| Pathways.RemoveRedundant | src/STRING_channels/run_channels.py:280-290 | A pathway is removed exactly when another pathway of the pre-pruning map contains it. Survivors keep their sets. |
| Pathways.EqualPathwaysBothRedundant | src/STRING_channels/run_channels.py:283-287 | Two distinct pathways with equal sets are both removed. |
| Pathways.PrivateMemberSurvives | src/STRING_channels/run_channels.py:283-287 | A pathway with a member no other pathway has is kept. |
| Pathways.UnionOf | src/STRING_channels/run_channels.py:297-300 | `all_pathway_nodes` is exactly the union of the pathway sets. |
| Pathways.GetPathways | src/STRING_channels/run_channels.py:237-302 | A read error is returned as it is. A read that succeeds, without `run_all` or with every TO_IGNORE name present, gives a result. Without `run_all` the map is the ORIG_34 files read. With `run_all` it fails exactly when a TO_IGNORE name is missing, with MissingTopLevel of the first missing name in TO_IGNORE order. Otherwise the survivors are the non-redundant pathways left after deletion, with unchanged sets. The union is exact. |
| Pathways.PathwaysOutcomeUnique | src/STRING_channels/run_channels.py:237-302 | The outcome is determined: two results meeting it are equal, error included. |
| PathwayInteractions.InSamePathway | src/STRING_channels/run_channels.py:211-215 | The search finds a pathway exactly when some pathway holds both endpoints. |
| PathwayInteractions.GetPathwayInteractions | src/STRING_channels/run_channels.py:205-216 | A pair is in `interactions_in_pathways` exactly when it is an admitted pair with both ends in the union. A pair is in `interactions_in_same_pathway` exactly when it is in the first set and one pathway holds both ends, so the second set is a subset of the first. |
| PathwayInteractions.SharedIsInUnion | src/STRING_channels/run_channels.py:209-215 | With the union as `all`, a pair that shares a pathway has both ends in `all`. |
| PathwayInteractions.SameClassIff | src/STRING_channels/run_channels.py:205-216 | With the union as `all`, an admitted pair is in the same-pathway class exactly when one pathway holds both ends. |
| BRelax.PreprocessBRelax | src/STRING_channels/run_channels.py:157-179 | The result's keys are exactly the first endpoints. Cached entries are returned as they are; the others are the relaxation of the node's membership set. The cache grows by exactly the first endpoints, and old entries are never overwritten. New entries are the returned values. |
| BRelax.RelaxAll | src/STRING_channels/run_channels.py:164-177 | The same facts for the loop over the first-endpoint set. |
| BRelax.Lookup | src/STRING_channels/run_channels.py:173-177 | One lookup returns the cached value, or else the relaxation, which it caches. |
| BRelax.CacheStaysCoherent | src/STRING_channels/run_channels.py:157-179 | If every cache entry is the relaxation of its node's membership set, then so is every returned entry and every entry of the new cache. |
| BRelax.MinDistance | src/STRING_channels/run_channels.py:195-199 | The score is at most `LARGE_VAL` and at most every distance found. Below `LARGE_VAL` it is attained. It is below `LARGE_VAL` exactly when some node has a distance below the sentinel. |
| BRelax.Min | src/STRING_channels/run_channels.py:199 | `min` gives a value no larger than either argument and equal to one of them. |
| BRelax.GetBConnInteractions | src/STRING_channels/run_channels.py:181-203 | The keys are a subset of the input pairs. A pair is a key exactly when some membership node of `n2` has a distance below `LARGE_VAL` from `n1`. The value is the least such distance and is attained. |
| Rows.EncodeRows | src/STRING_channels/run_channels.py:134-150 | One row per admitted interaction, in order, with its endpoints and score. AnyPathway, SamePathway and Bipartite are 0/1 and set exactly when the pair is in the respective set. BRelaxDist is the distance when Bipartite is set and -1 otherwise. |
| Rows.SameImpliesAny | src/STRING_channels/run_channels.py:136-143 | Because same-pathway pairs are pathway pairs, SamePathway = 1 implies AnyPathway = 1. |
| Rows.BipartiteIffDistance | src/STRING_channels/run_channels.py:144-149 | Bipartite = 1 exactly when BRelaxDist is not -1, and then the distance is not negative. |
| Rows.BipartiteImpliesAny | src/STRING_channels/run_channels.py:123-124 | Distances exist only for pathway pairs, so Bipartite = 1 implies AnyPathway = 1. |
| Rows.EncodingUnique | src/STRING_channels/run_channels.py:134-150 | The interaction and the three classifications determine the row. |
| Channels.KeptEndpoints | src/STRING_channels/run_channels.py:95-96 | Both endpoints of every admitted interaction are nodes. |
| Channels.RowScored | src/STRING_channels/run_channels.py:116-150 | The component contracts combine into the row's meaning stated against the pathways and the relaxation. |
| Channels.ScoreFile | src/STRING_channels/run_channels.py:72-151 | Each row scores its admitted interaction in order: AnyPathway when both ends are pathway nodes; SamePathway when also one pathway holds both; Bipartite when also `n2` is reached from `n1`'s membership set, with the least distance. `missing` is that of the admission filter. The cache stays coherent and only grows. |
| Channels.Pending | src/STRING_channels/run_channels.py:68-70 | The channels scored are never ones whose output already exists. |
| Channels.PendingIff | src/STRING_channels/run_channels.py:68-70 | A channel is scored exactly when it is listed and its output does not exist yet. |
| Channels.ScoreAll | src/STRING_channels/run_channels.py:60-153 | One output per pending channel, in order, each scored as `ScoreFile` states. The loop passes the cache from one file to the next, and the cache stays coherent. |
| Channels.Run | src/STRING_channels/run_channels.py:16-155 | The run's pathway map, union and error are exactly the outcome of `get_pathways` on the pathway files, down to which missing TO_IGNORE name is reported. The run succeeds exactly when that read does. Every pending channel's output is then scored against the corrected membership map and those pathway sets. |

## Left out

- Timing, progress and summary prints and `sys.stdout.flush` (lines 17, 45-46, 58, 63, 65, 69, 78, 107, 113-115, 117-119, 128-130, 154-155, 166-171, 187-192, 252, 254, 273, 278, 288, 293-296). They compute nothing that is used.
- The malformed `print` of line 152 (a string called as a function, a TypeError at run time). It comes after the row file is closed, but it ends `main` there (see the ScoreAll line below).
- File and directory I/O: `glob` (lines 57, 253) and the fixed list of line 61, `open`/`write` (lines 74-77, 108-112, 132-151, 263), and `os.path.isfile` (line 68). A channel's "output exists" is the field `outputExists`. Rows and the `missing` map are values; their tab-separated text rendering and the header lines (109, 133) are not modelled.
- Parsing the interaction files (lines 74-77): columns 2-4 and `int()`. A malformed row is a fatal error there. Channel files carry parsed interactions.
- File names via `str.replace` (lines 64, 67, 257). Names are given with the files.
- `hgraph_utils.make_hypergraph`, `add_entity_set_info`, `get_id_map` and `make_b_visit_dict` (lines 18-19, 49, 122). These are calls into code that is not part of this model. Their results are inputs: the hypergraph `H`, the map `u2p` and the closure `relax`.
- `transform.to_networkx_digraph` (line 20): its result is never used.
- The internals of `hpaths.b_relaxation` (line 176): it is the uninterpreted parameter `relax`. The run assumes it labels every hypergraph node, which is what the direct indexing at line 198 relies on.
- The counters `num_complexes` and `num_entitysets` (lines 24-41) are only printed. The admission counters are computed and proved but not part of a channel's output.
- `interactions_bipartite` and `interactions_bconn` (lines 125-126) feed only prints.
- `read_functional_interactions`, `read_pathways_from_brelax`, the commented-out `get_pathways` and the `__main__` command line: none is used by `main`.
- Python's set and dictionary iteration order is unspecified. The membership loop takes it as the parameter `order`. Every other loop is proved for any order, since its result does not depend on one.
- Channels.ScoreAll, Channels.Run: line 61 replaces the globbed list with the single file `cooccurence.txt`. The TypeError of line 152 ends `main` right after the first scored channel's rows are written. So the program scores at most one channel and never passes `processed_nodes` on to a second file. The model's loop over any list of channels, passing the cache along, is a generalisation; for a one-element list it is the program's behaviour up to the crash.
- Channels.Run: scores with the corrected membership map (see Findings), not the as-written one. The as-written map is still modelled and proved by Membership.BuildMembership.

Points where the code behaves other than one might expect. The model does what the code does:

- The reason recorded for an unmapped identifier is the string `NotInPC` (lines 89 and 91).
- `get_pathways` stores the first column and the `;` items of each line as they are. It does not expand aggregates into their members; the commented-out version at lines 218-235 did.
- Redundancy pruning removes every pathway contained in another one. So two pathways with equal sets are both removed, rather than one surviving (Pathways.EqualPathwaysBothRedundant).

## Findings

| source | as written | input that shows it | evidently intended | confidence | as-written member | corrected member |
|---|---|---|---|---|---|---|
| src/STRING_channels/run_channels.py:43-44 | A node gets itself in its membership entry only if no entry exists when it is visited. An aggregate visited earlier that lists the node has already created the entry. | Complex 1 with member 2, and node 2. Visiting 1 then 2 gives `node_membership[2] == {1}`; visiting 2 then 1 gives `{1, 2}`. | Every node is in its own entry, whatever the set iteration order, so relaxing from it starts at the node too. | not executed | Membership.BuildMembership (counterexample: Membership.SelfEntryDependsOnOrder) | Membership.BuildMembershipCorrected |
