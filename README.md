# EPPIC core in Dafny

This project models the rule-based core of EPPIC (Evolutionary Protein-Protein Interface
Classifier) and proves properties of that model. EPPIC decides whether a crystal-structure
interface is biological or a crystal-packing artefact, and which assemblies a crystal holds.

- **Crystal-assembly enumerator** (`assemblies.dfy`, `lattice.dfy`): models `CrystalAssemblies`.
  - A breadth-first walk over the Boolean lattice of engaged interface clusters. An engaged
    set is a `set<nat>` of cluster indices.
    - It starts from the empty set and expands only valid nodes.
    - It records invalid nodes and never generates one of their supersets.
  - The walk is proved equal to a level-by-level reference definition, `Lattice.Traverse`.
    Soundness, pruning, reachability and (for subset-closed validity) completeness are proved
    about `Traverse`.
  - Grouping of the valid assemblies into a `TreeMap` keyed by copy count, with key `-1` for
    non-covering assemblies; it is proved a partition.
  - The ordered cluster list, proved to hold every assembly exactly once with the `-1` group
    first, and its representatives.
  - `generateAssembly` and `getEdgeMultiplicity`.
- **Interface call voting** (`interface_evol.dfy`, `calltype.dfy`): models `InterfaceEvolContext`
  and `CallType`.
  - The per-member call precedence: core size, then the 5 % unreliable-residue limit, then the
    score cut-offs.
  - The bio/xtal/gray/nopred vote lists and the final decision per cut-off.
  - The core-size sums and the chain renaming for output files.
- **Entry comparison** (`pdb_info.dfy`): models `PdbInfo`.
  - The chain-id lookup table.
  - Interface listing and counting by area.
  - The one-directional "same content" test.
  - The indexing of the lattice-overlap matrix, with its out-of-bounds case.
- **Domain of life** (`chain_evol.dfy`): models `ChainEvolContextList`.
  - The `TreeMap` registry of evolutionary contexts.
  - The consensus fold that yields the entry's domain of life.
- **Results location** (`settings.dfy`): models `ApplicationSettings`. This is the results
  location and the divided PDB layout of a job's URL.
- **3D viewer page** (`jmol.dfy`): models `JmolPageGenerator`.
  - The comma-separated residue list.
  - The core/rim residue partition and the renaming of the second chain.
  - The numbered selection attributes, and the page itself.

Shared helpers (`seqs.dfy`, `ordered.dfy`):
- `Filter`, `Flatten` and `Join`;
- Java's `String.split` with trailing empty strings dropped;
- decimal rendering of numbers;
- the ascending key order of a `TreeMap` over a strict total order.

Collaborators that the source calls but that are not part of this model are passed in as
function values. These include `Assembly.isValid`, `StoichiometrySet`,
`AssemblyGroup.sortIntoClusters`, residue reliability checks, colours and the overlap score.

## Model

| member | source | states |
|---|---|---|
| Lattice.FoundShape | eppic-cli/src/main/java/eppic/assembly/CrystalAssemblies.java:95-124 | The empty assembly is always found; every other found assembly is valid and within range; every recorded invalid node is non-empty and invalid. |
| Lattice.NothingAboveInvalid | eppic-cli/src/main/java/eppic/assembly/CrystalAssemblies.java:81-83 | Pruning is sound: no found assembly contains a recorded invalid node, and no recorded invalid node contains another. |
| Lattice.Reachable | eppic-cli/src/main/java/eppic/assembly/CrystalAssemblies.java:103-127 | Every non-empty found assembly has a parent, one cluster smaller, that was also found: each is reachable from the empty set through valid one-cluster extensions. |
| Lattice.AllGrows | eppic-cli/src/main/java/eppic/assembly/CrystalAssemblies.java:103-127 | Later levels only add: the found set and the invalid list of level j are contained in those of every later level k. |
| Lattice.LevelComplete | eppic-cli/src/main/java/eppic/assembly/CrystalAssemblies.java:103-127 | When validity is closed under subsets, every valid set of k clusters is in level k. |
| Lattice.AcceptsExactlyValid | eppic-cli/src/main/java/eppic/assembly/CrystalAssemblies.java:67-84 | When validity is closed under subsets, the walk over all n levels finds exactly the empty set and the valid sets of clusters. |
| Lattice.Children | eppic-cli/src/main/java/eppic/assembly/CrystalAssemblies.java:110 | The children of a node are exactly its one-cluster extensions that contain no recorded invalid node. |
| Assemblies.CrystalAssemblies.constructor | eppic-cli/src/main/java/eppic/assembly/CrystalAssemblies.java:49-62 | After construction, `all` is the walk's result, the groups partition it, and the clusters are the groups' clusters in ascending key order. |
| Assemblies.CrystalAssemblies.FindValidAssemblies | eppic-cli/src/main/java/eppic/assembly/CrystalAssemblies.java:86-133 | `all` becomes the set the level-by-level walk finds over all n levels; groups and clusters are unchanged. |
| Assemblies.CrystalAssemblies.Walk | eppic-cli/src/main/java/eppic/assembly/CrystalAssemblies.java:90-128 | The nested loops return exactly `Traverse(n, valid, n).all`, whatever order the HashSets are iterated in. |
| Assemblies.CrystalAssemblies.ExpandLevel | eppic-cli/src/main/java/eppic/assembly/CrystalAssemblies.java:107-126 | One level: the next level, the found set and the invalid list are those of the reference walk at level k. |
| Assemblies.CrystalAssemblies.AddChildren | eppic-cli/src/main/java/eppic/assembly/CrystalAssemblies.java:112-124 | Valid children go to the next level and the found set; invalid ones are appended to the invalid list. |
| Assemblies.CrystalAssemblies.InitGroups | eppic-cli/src/main/java/eppic/assembly/CrystalAssemblies.java:135-166 | The groups become a partition of `all` by key; nothing else changes. |
| Assemblies.CrystalAssemblies.GroupAll | eppic-cli/src/main/java/eppic/assembly/CrystalAssemblies.java:138-165 | Each assembly lands in exactly one group: the one of its copy count if fully covering, otherwise -1; groups are non-empty and duplicate-free. |
| Assemblies.GroupsAdd | eppic-cli/src/main/java/eppic/assembly/CrystalAssemblies.java:144-164 | Adding an assembly to its key's group, created if missing, keeps the groups a partition. |
| Assemblies.CrystalAssemblies.ClusterAll | eppic-cli/src/main/java/eppic/assembly/CrystalAssemblies.java:168-197 | The cluster list is the groups' clusters in ascending key order; a key above 0 contributes `sortIntoClusters`, any other key one singleton per assembly. |
| Assemblies.CrystalAssemblies.AppendSingletons | eppic-cli/src/main/java/eppic/assembly/CrystalAssemblies.java:188-195 | Each assembly of a non-positive group is appended as a single-member cluster, in order. |
| Assemblies.ClustersCover | eppic-cli/src/main/java/eppic/assembly/CrystalAssemblies.java:168-197 | When clustering keeps a group's members, every valid assembly occurs exactly once in the clusters and nothing else occurs. |
| Assemblies.NonCoveringFirst | eppic-cli/src/main/java/eppic/assembly/CrystalAssemblies.java:136 | With keys at least -1, the non-covering group comes first: its assemblies open the cluster list, each on its own. |
| Assemblies.RepresentativesFound | eppic-cli/src/main/java/eppic/assembly/CrystalAssemblies.java:233-241 | Every cluster's first member is a valid assembly found by the walk. |
| Assemblies.CrystalAssemblies.GetUniqueAssemblies | eppic-cli/src/main/java/eppic/assembly/CrystalAssemblies.java:233-241 | One representative per cluster, in cluster order, each the cluster's first member; as many as `size()`. |
| Assemblies.CrystalAssemblies.GenerateAssembly | eppic-cli/src/main/java/eppic/assembly/CrystalAssemblies.java:252-263 | Fails iff some id is outside 1..n; otherwise cluster x is engaged iff x + 1 is among the ids. |
| Assemblies.CrystalAssemblies.GenerateSingleAssembly | eppic-cli/src/main/java/eppic/assembly/CrystalAssemblies.java:247-250 | Succeeds iff 1 <= id <= n, with exactly cluster id - 1 engaged. |
| Assemblies.CrystalAssemblies.GetEdgeMultiplicity | eppic-cli/src/main/java/eppic/assembly/CrystalAssemblies.java:272-278 | Succeeds iff the id is in range, with the first-component edge count of the single-cluster assembly. |
| Calls.Values | src/crk/CallType.java:5-8 | There are exactly four call types. |
| Calls.IndexIsPosition | src/crk/CallType.java:5-8 | Declaration order is bio, xtal, gray, nopred: each constant's index is its position in `values()`. |
| Calls.IndicesAndNamesDistinct | src/crk/CallType.java:5-30 | Two call types have the same index iff they are the same, and likewise for names. |
| InterfaceEvol.TooUnreliableIsFraction | src/crk/InterfaceEvolContext.java:369-378 | For a non-empty core or rim, the integer test is exactly the unreliable fraction exceeding 0.05. |
| InterfaceEvol.KaKsCountsTwice | src/crk/InterfaceEvolContext.java:294-299 | Under Ka/Ks a residue failing both checks is counted twice, under entropy once. |
| InterfaceEvol.UnreliableCountBounds | src/crk/InterfaceEvolContext.java:292-300 | The count is at most the list size, or twice the list size under Ka/Ks. |
| InterfaceEvol.InterfaceEvolContext.CheckReliability | src/crk/InterfaceEvolContext.java:122-142 | The unreliable residues are the residues failing the check, in order. |
| InterfaceEvol.InterfaceEvolContext.CountUnreliable | src/crk/InterfaceEvolContext.java:281-325 | One count per cut-off: the unreliable count of that cut-off's residue list, where under Ka/Ks each residue is checked twice. |
| InterfaceEvol.InterfaceEvolContext.MemberHasEnoughCore | src/crk/InterfaceEvolContext.java:265-279 | One flag per cut-off, true iff the member's core size at that cut-off reaches the minimum. |
| InterfaceEvol.MemberCalls | src/crk/InterfaceEvolContext.java:358-388 | One call per cut-off, each following the precedence: not protein or too few homologs gives none; then small core xtal; then unreliable core or rim nopred; then score below bio, above xtal, else gray. |
| InterfaceEvol.InterfaceEvolContext.GetMemberCalls | src/crk/InterfaceEvolContext.java:336-391 | The member's call at each cut-off is that precedence applied to its core, rim, counts and ratio. |
| InterfaceEvol.VotersExact | src/crk/InterfaceEvolContext.java:418-437 | A member is in a call type's vote list iff its call at that cut-off is that type. |
| InterfaceEvol.VotersAscending | src/crk/InterfaceEvolContext.java:418-437 | The vote lists are in ascending member order. |
| InterfaceEvol.VotesCounted | src/crk/InterfaceEvolContext.java:425-436 | The four vote lists together count every member with a call exactly once. |
| InterfaceEvol.InterfaceEvolContext.AddVote | src/crk/InterfaceEvolContext.java:425-436 | A member is appended to the list of its call type and to no other; a member without a call is appended nowhere. |
| InterfaceEvol.InterfaceEvolContext.CastVotes | src/crk/InterfaceEvolContext.java:414-437 | After the member loop the four lists are exactly the voters of each type at that cut-off. |
| InterfaceEvol.InterfaceEvolContext.TallyVotes | src/crk/InterfaceEvolContext.java:413-438 | Every cut-off has its four vote lists recorded in the four maps. |
| InterfaceEvol.InterfaceEvolContext.Decide | src/crk/InterfaceEvolContext.java:449-487 | The call and final score of one cut-off are the decision rule applied to its vote lists. |
| InterfaceEvol.InterfaceEvolContext.DecideAll | src/crk/InterfaceEvolContext.java:440-488 | Every cut-off gets the decision rule's call and score, never nopred. |
| InterfaceEvol.InterfaceEvolContext.GetCalls | src/crk/InterfaceEvolContext.java:403-490 | The vote maps record every member's votes; each cut-off's call and final score are the decision rule's; no call is null or nopred. |
| InterfaceEvol.DecisionNeverNoPrediction | src/crk/InterfaceEvolContext.java:449-487 | The if-chain is exhaustive and its last branch overwrites the all-nopred assignment: the final call is never null and never nopred. |
| InterfaceEvol.AllNoPredictionIsCrystal | src/crk/InterfaceEvolContext.java:449-487 | When both members call nopred and the minimum core size is positive, the call is xtal with a NaN score. |
| InterfaceEvol.MajorityDecides | src/crk/InterfaceEvolContext.java:454-466 | More bio than xtal votes gives bio and vice versa, whatever the gray and nopred votes; gray needs a bio/xtal tie. |
| InterfaceEvol.CoreSumCounts | src/crk/InterfaceEvolContext.java:524-534 | The summed core size counts each listed occurrence of member 0 or 1 once, and ignores other indices. |
| InterfaceEvol.InterfaceEvolContext.GetSumCoreSize | src/crk/InterfaceEvolContext.java:524-534 | The loop's sum is that core sum. |
| InterfaceEvol.InterfaceEvolContext.HasEnoughCore | src/crk/InterfaceEvolContext.java:511-517 | True iff the summed core size reaches the minimum. |
| InterfaceEvol.InterfaceEvolContext.ScoreEntropy | src/crk/InterfaceEvolContext.java:64-67 | The last scoring type becomes entropy; calls and final scores are unchanged. |
| InterfaceEvol.InterfaceEvolContext.ScoreKaKs | src/crk/InterfaceEvolContext.java:75-78 | The last scoring type becomes Ka/Ks; calls and final scores are unchanged. |
| InterfaceEvol.NextLetter | src/crk/InterfaceEvolContext.java:226-231 | The next letter differs from the given one and cycles within 'A'..'Z' and within 'a'..'z', so 'Z' goes to 'A' and 'z' to 'a'. |
| InterfaceEvol.SecondChainForOutput | src/crk/InterfaceEvolContext.java:222-233 | Different chains keep their name; equal non-empty chains give a one-letter name other than the first chain's; only two empty names fail. |
| PdbEntries.AddCluster | src/main/java/eppic/db/PdbInfo.java:44-49 | A cluster's representative and member chains map to it; every other key keeps its cluster. |
| PdbEntries.LookupLast | src/main/java/eppic/db/PdbInfo.java:41-52 | A chain is in the lookup iff some cluster lists it, and it maps to the last cluster that does. |
| PdbEntries.LookupValues | src/main/java/eppic/db/PdbInfo.java:41-52 | Every chain in the lookup maps to one of the entry's clusters, and that cluster lists it. |
| PdbEntries.PdbInfo.constructor | src/main/java/eppic/db/PdbInfo.java:27-31 | The record is kept and the lookup table is built from its chain clusters. |
| PdbEntries.PdbInfo.GetChainIdLookup | src/main/java/eppic/db/PdbInfo.java:41-52 | The loops build the lookup of the chain clusters in order. |
| PdbEntries.PdbInfo.PutAll | src/main/java/eppic/db/PdbInfo.java:46-48 | Every member chain of the split list maps to the cluster, the other keys unchanged. |
| PdbEntries.PdbInfo.GetChainCluster | src/main/java/eppic/db/PdbInfo.java:37-39 | A cluster is returned iff some cluster lists the chain (null otherwise); it lists the chain and is the last that does. |
| PdbEntries.PdbInfo.GetInterfaces | src/main/java/eppic/db/PdbInfo.java:66-74 | All interfaces cluster by cluster; the length is the sum of the cluster sizes. |
| PdbEntries.PdbInfo.GetNumInterfacesAboveArea | src/main/java/eppic/db/PdbInfo.java:76-84 | The count is the number of interfaces with area strictly above the threshold, i.e. the size of the list the next method returns. |
| PdbEntries.PdbInfo.GetInterfacesAboveArea | src/main/java/eppic/db/PdbInfo.java:86-94 | The interfaces with area strictly above the threshold, in listing order. |
| PdbEntries.AboveAreaMonotone | src/main/java/eppic/db/PdbInfo.java:76-94 | Raising the threshold keeps only interfaces that were already above the lower one. |
| PdbEntries.PdbInfo.HaveSameContent | src/main/java/eppic/db/PdbInfo.java:114-140 | True iff the cluster counts agree and every sequence cluster id of this entry at the given level occurs among the other's ids at that level. |
| PdbEntries.SameContentIsInclusion | src/main/java/eppic/db/PdbInfo.java:114-140 | Same content is equal cluster counts plus inclusion of this entry's set of sequence cluster ids in the other's. |
| PdbEntries.SameContentReflexive | src/main/java/eppic/db/PdbInfo.java:122-139 | Every entry has the same content as itself. |
| PdbEntries.SameContentNotSymmetric | src/main/java/eppic/db/PdbInfo.java:122-139 | With ids {1, 1} against {1, 2} the test holds one way and fails the other. |
| PdbEntries.SameNamesDifferentContent | src/main/java/eppic/db/PdbInfo.java:126-130 | The stored sequence cluster ids decide, not the chain names: two entries whose only clusters are both named "A" but carry different ids at the level do not have the same content. |
| PdbEntries.PdbInfo.CalcLatticeOverlapMatrix | src/main/java/eppic/db/PdbInfo.java:96-112 | The matrix is count1 by count2 of the interfaces above 100 square angstroms, each overlap stored at (id1 - 1, id2 - 1); it fails iff some written id falls outside its side's count. |
| PdbEntries.PdbInfo.FillRow | src/main/java/eppic/db/PdbInfo.java:104-108 | One row of the nested loop succeeds iff every write of the row is in bounds, and then holds its overlaps. |
| EvolContexts.ChainEvolContextList.AddChainEvolContext | src/main/java/eppic/ChainEvolContextList.java:106-108 | The chain code maps to the new context, replacing any earlier one; no other entry changes. |
| EvolContexts.ChainEvolContextList.GetAllChainEvolContext | src/main/java/eppic/ChainEvolContextList.java:121-126 | The contexts are listed in ascending order of representative chain code. |
| EvolContexts.AddLastKeyAppends | src/main/java/eppic/ChainEvolContextList.java:32 | A context under a code above every present one is listed last: the TreeMap order does not depend on insertion order. |
| EvolContexts.ChainEvolContextList.GetDomainOfLife | src/main/java/eppic/ChainEvolContextList.java:387-411 | The result is the domain of life of the contexts in key order. |
| EvolContexts.FirstAgreedTaxon | src/main/java/eppic/ChainEvolContextList.java:388-410 | The loop with its early break computes the reference consensus: the first taxon of the first contributing chain if all contributing chains share it, otherwise null. |
| EvolContexts.DisagreementIsFinal | src/main/java/eppic/ChainEvolContextList.java:400-406 | Once two contributing chains disagree, the result is null whatever chains follow. |
| EvolContexts.NonContributorSkipped | src/main/java/eppic/ChainEvolContextList.java:391-396 | A chain without a query match or without taxons never changes the result. |
| Settings.StripRemovesOneSlash | eppic-wui/src/main/java/ch/systemsx/sybit/crkwebui/shared/model/ApplicationSettings.java:215-218 | Exactly one trailing '/' is removed when present, none otherwise, so "x//" keeps one slash. |
| Settings.LocationShape | eppic-wui/src/main/java/ch/systemsx/sybit/crkwebui/shared/model/ApplicationSettings.java:213-234 | The job URL begins with the stripped location and ends with "/" and the job id. |
| Settings.DividedLayout | eppic-wui/src/main/java/ch/systemsx/sybit/crkwebui/shared/model/ApplicationSettings.java:222-226 | A four-character id lies under "divided/" plus its two middle characters, shared by every id with the same middle characters. |
| Settings.SameLengthDistinct | eppic-wui/src/main/java/ch/systemsx/sybit/crkwebui/shared/model/ApplicationSettings.java:222-231 | Distinct job ids of the same length never share a URL. |
| Settings.LayoutsCollide | eppic-wui/src/main/java/ch/systemsx/sybit/crkwebui/shared/model/ApplicationSettings.java:222-231 | Only the length is checked: the user job id "divided/bc/abcd" gets the same URL as the PDB id "abcd". |
| Settings.ApplicationSettings.SetResultsLocation | eppic-wui/src/main/java/ch/systemsx/sybit/crkwebui/shared/model/ApplicationSettings.java:240-242 | The getter then returns the value set, and nothing else changes. |
| Settings.ApplicationSettings.GetResultsLocationForJob | eppic-wui/src/main/java/ch/systemsx/sybit/crkwebui/shared/model/ApplicationSettings.java:213-234 | Fails (null dereference) iff no location is set; otherwise the divided or flat URL of the job. |
| JmolPage.IsCif | eppic-wui/src/main/java/ch/systemsx/sybit/crkwebui/server/jmol/generators/JmolPageGenerator.java:29-37 | A file is read as mmCIF iff its name ends with "cif" or does not end with "pdb". |
| JmolPage.GeneratePage | eppic-wui/src/main/java/ch/systemsx/sybit/crkwebui/server/jmol/generators/JmolPageGenerator.java:25-104 | The page starts with the doctype, ends with "</html>\n" and embeds the file URL server/location/file. |
| JmolPage.GetCommaSeparatedList | eppic-wui/src/main/java/ch/systemsx/sybit/crkwebui/server/jmol/generators/JmolPageGenerator.java:106-113 | The residue numbers joined by ',' with no trailing separator. |
| JmolPage.CommaListRoundTrip | eppic-wui/src/main/java/ch/systemsx/sybit/crkwebui/server/jmol/generators/JmolPageGenerator.java:106-113 | Splitting the list on ',' gives back the residue numbers. |
| JmolPage.PartitionResidues | eppic-wui/src/main/java/ch/systemsx/sybit/crkwebui/server/jmol/generators/JmolPageGenerator.java:138-158 | The four lists are the core and rim residues of side 1 and side 2, in input order. |
| JmolPage.PartitionCounts | eppic-wui/src/main/java/ch/systemsx/sybit/crkwebui/server/jmol/generators/JmolPageGenerator.java:143-158 | Each occurrence of a core or rim residue lands in exactly one list; other regions land in none. |
| JmolPage.SecondChain | eppic-wui/src/main/java/ch/systemsx/sybit/crkwebui/server/jmol/generators/JmolPageGenerator.java:120-130 | Different chains keep their id; equal ones give `chain_operatorId` for mmCIF and a one-letter next id for PDB; an empty id under PDB fails. |
| JmolPage.GenerateInterfaceSelection | eppic-wui/src/main/java/ch/systemsx/sybit/crkwebui/server/jmol/generators/JmolPageGenerator.java:115-191 | Fails iff the renaming fails; otherwise the six numbered selection/style lines for both chains and their core and rim residues. |
| JmolPage.GenerateAssemblySelection | eppic-wui/src/main/java/ch/systemsx/sybit/crkwebui/server/jmol/generators/JmolPageGenerator.java:193-216 | A null id string gives "data-style='cartoon'\n"; otherwise one line per split chain id. |
| JmolPage.AssemblySelectionLines | eppic-wui/src/main/java/ch/systemsx/sybit/crkwebui/server/jmol/generators/JmolPageGenerator.java:202-209 | The code is one line per chain id, the i-th carrying the attributes numbered i with that chain's colour. |

## Left out

- I/O and logging: logger calls, `writePdbFile` apart from its renaming rule, serialization and printing.
- The homolog pipeline of `ChainEvolContextList`: constructors, UniProt, BLAST, SIFTS and alignment. Contexts are plain values holding their query match and taxons.
- `ChainEvolContextList.getChainEvolContext` is not modelled: it needs `PdbAsymUnit`'s chain clustering, which is not part of this model.
- Geometry and clustering collaborators of the enumerator are function values of `Oracle`, not implementations. These are `LatticeGraph`, `removeDuplicateEdges`, `Assembly.isValid`, `StoichiometrySet`, `AssemblyGroup.sortIntoClusters` and the edge count.
- `CrystalAssemblies.iterator()` and `size()` are not separate members: the iterator walks the list `GetUniqueAssemblies` returns, and `size()` is the function `Size`.
- Assemblies.CrystalAssemblies.GetUniqueAssemblies: requires every cluster to be non-empty. `sortIntoClusters` is not part of this model, and `get(0)` on an empty cluster would throw.
- Assemblies.CrystalAssemblies.GenerateAssembly: `PowerSet.switchOn` is not part of this model. An id outside 1..n is modelled as an error, matching the engaged-set contract that an out-of-range index is fatal.
- Floating point: score ratios are a `Score` that is NaN or a real. NaN compares false and an empty average is NaN. Rounding is not modelled, and `getScoreRatios`/`getAvrgRatio` arithmetic is exact real arithmetic.
- Infinities are not modelled. A ratio whose rim score is 0 is ±Infinity in Java, and an average of +Infinity and -Infinity is NaN; the model's `Score` has no infinite values.
- InterfaceEvol.InterfaceEvolContext.GetCalls: calls requested before any scoring run are a precondition, not an error result: Java throws a null-pointer exception in `getScoreRatios` when a protein member with enough homologs is reached, and the model requires that this cannot happen (`RatiosReadable`).
- InterfaceEvol.InterfaceEvolContext.CheckReliability: `getResSerFromPdbResSer` and the UniProt/CDS position checks are one predicate parameter, so the PDB and CDS checks share a shape but not their foreign code.
- `scoreInterface` is not modelled beyond recording the scoring type: it is floating-point scoring over the chains' conservation scores.
- Colours (`MolViewersHelper`) and `getNextLetter` in the viewer page are parameters, because they are foreign code.
- JmolPage.GeneratePage: the contract states the page's opening, closing and embedded file URL, not every literal line of the head and script, which the body builds as written. The disabled selection code is left out because it is commented out in the source.
- PdbEntries.PdbInfo.CalcLatticeOverlapMatrix: the overlap score `calcInterfaceOverlap` is a parameter, and an out-of-bounds write is a `Failure` result instead of an exception.
- The null job id and the other `ApplicationSettings` fields: the other fields are plain getters and setters with nothing to state.
- EvolContexts.ChainEvolContextList.GetAllChainEvolContext: chain codes are ordered by Dafny characters, which are Unicode scalar values. Java's `String.compareTo` compares UTF-16 code units, so the two orders differ for characters above U+FFFF against U+E000 to U+FFFF.
- PdbEntries.PdbInfo.HaveSameContent: `SeqClusterLevel` is not part of this model. A level is named by a number, each chain cluster row carries its ids per level, and the compared level is required to be present on every row of both entries.
- Persistence (JPA DAOs, `DBHandler`, upload tools) and the GWT/GXT user interface are not part of the core.
