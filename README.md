# Ambiguous PP extraction: graph model and competing-head finder

This project models the core of `extract-pps`, a tool that reads
dependency-annotated German sentences. For each prepositional phrase (PP),
it lists the other tokens the PP could plausibly attach to, its *competing
heads*. The candidates are found using the topological field of each
token, given in the token feature `tf`:

- `VF`: prefield.
- `MF`: middle field.
- `LK`: left bracket.
- `VC`: right bracket / verb complex.
- `C`: complementizer field.
- `UK`: unknown.

The model has four modules:

- `Wrappers` (`wrappers.dfy`): the `Option` type.
- `Graph` (`graph.dfy`): the dependency graph of one sentence and its traversals.
  - `SentenceToGraph` is the builder loop. It turns tokens into nodes (node `i` is token `i` at offset `i`). It joins neighbouring tokens by `Precedence` edges, and joins each token with a non-zero head to it by a `Relation` edge from that head.
  - `FirstMatchingEdge` finds the neighbour across the first incident edge that matches, in the order petgraph lists them.
  - `PrecedingTokens` is the iterator that walks the precedence chain leftwards, as a class whose `Next` method updates `current`.
  - `AdjacentTokens` and `AncestorTokens` are the walks the finder uses.
  - Edges are held in one sequence, newest first, and nodes are named by their index. That is the order in which petgraph lists the edges at a node (each added edge goes to the front of its nodes' edge lists). The edge loop of `print_ambiguous_pps` uses `raw_edges`, which lists the edges oldest first, so it reads the sequence from its end.
- `AmbiguousPps` (`ambiguous_pps.dfy`): the competing-head finder.
  - Each source operation has a specification function: `AddedCandidates`, `ResolveVerb`, `CToVc`, `CompetitionMf`, `CompetitionVf`, `InstanceFor` and `Reports`.
  - Beside each one is a method that does what the source's loop does, with the same early exits. Each method is proved to return exactly its function's value: `AddTokens`, `TraverseCToVc`, `FindCompetitionMf`, `FindCompetitionVf`, `ExamineEdge` and `SelectAmbiguousPps`.
- `CompetitionFacts` (`competition_facts.dfy`): what the finder promises, stated without loops.
  - Ranks and head flags of the candidates.
  - Which tokens become candidates, and in which order.
  - When each finder gives up.
  - Which PP edges are reported.

What the finder computes, in the source's own terms:

- In the middle-field scan, the finite verb or complementizer verb is appended after the MF/UK candidates already collected (`src/bin/extract-ambiguous-pps.rs:324-330`).
- In the prefield scan, the resolved verb of the left bracket comes first, then the VF/UK run before the PP, then (unless the token before the PP is a noun) the MF/UK run after the left bracket (`src/bin/extract-ambiguous-pps.rs:245-281`).
- A candidate's rank is written when it is added: `-(number of candidates so far + 1)`. The rank is `1` instead for a finite verb that `resolve_verb` moved, for the verb of a C token's VC ancestor, and for the verb of the left bracket.
- A PP is reported whatever the head flags of its candidates are. The only filter on the list is its length: one candidate is not reported unless all PPs are wanted (`src/bin/extract-ambiguous-pps.rs:190-193`).
- `resolve_verb` follows AUX edges until a node has none, with no bound on the number of steps.

## Model

| member | source | states |
|---|---|---|
| Graph.SentenceToGraph | src/graph.rs:19-57 | one node per token, node i holding token i at offset i; the graph is well formed (every edge joins two nodes, the Precedence edges are exactly the chain 0 → 1 → … → n-1, each node has at most one incoming and one outgoing Precedence edge and at most one incoming Relation edge); every Relation edge comes from the token's own head minus one, with its own label (projective or not); node i has an incoming Relation edge iff its head is present and non-zero; n-1 Precedence edges (0 for the empty sentence) and at most n Relation edges; the edges are `BuiltEdges`, the edges of each token (its Precedence edge, then its head's Relation edge) in the order added, newest first |
| Graph.BuiltEdgesSpec | src/graph.rs:32-54 | the edges added for the first idx tokens satisfy the builder's invariant for those tokens |
| Graph.BuiltGraph | src/graph.rs:32-54 | once the invariant holds for all tokens, the graph is well formed, its Relation edges are exactly the head edges, and the Precedence/Relation edge counts are n-1 and at most n |
| Graph.TokenEdgesStep | src/graph.rs:33-53 | the edges one loop iteration adds for token idx extend the invariant from idx to idx+1 |
| Graph.TokenEdgesKeepShape | src/graph.rs:33-51 | after one iteration, all edges stay in range, Precedence edges still join i-1 to i, and Relation edges still come from heads |
| Graph.TokenEdgesKeepComplete | src/graph.rs:33-53 | after one iteration, every Precedence edge and every head edge of the first idx+1 tokens is present |
| Graph.TokenEdgesKeepUnique | src/graph.rs:33-53 | after one iteration, no node has two incoming Precedence edges or two incoming Relation edges |
| Graph.TokenEdgesCount | src/graph.rs:33-53 | after token idx there are exactly idx Precedence edges and at most idx+1 Relation edges |
| Graph.PrecedenceSourceUnique | src/graph.rs:32-35 | every node has at most one outgoing Precedence edge |
| Graph.FirstMatchingEdge | src/graph.rs:59-68 | the neighbour across the first incident edge, in petgraph's newest-first order, that the filter accepts; its properties are stated by `FirstMatchingEdgeSpec` |
| Graph.FindFromSpec | src/graph.rs:65-67 | the search from position `from` finds nothing iff no later edge matches; otherwise it returns the neighbour across the first matching edge |
| Graph.FirstMatchingEdgeSpec | src/graph.rs:59-68 | None iff no edge incident in the given direction satisfies the filter; otherwise the neighbour across the newest such edge (the first one petgraph lists) |
| Graph.NeighbourInRange | src/graph.rs:59-68 | in a well-formed graph the neighbour found is a node of the graph |
| Graph.StepOnChain | src/graph.rs:88-98 | in a well-formed graph, the Precedence neighbour of k is k-1 (none at 0) going left and k+1 (none at the end) going right |
| Graph.AdjacentTokens | src/lib.rs:11-13 | the walk yields only nodes of the graph, never the start node |
| Graph.AdjacentTokensWalk | src/graph.rs:85-100 | the walk follows Precedence edges one step at a time from the start node and ends where there is no further step |
| Graph.PrecedingTokens.constructor | src/graph.rs:71-78 | the iterator starts at the given node of the given graph |
| Graph.PrecedingTokens.Next | src/graph.rs:88-99 | returns the incoming Precedence neighbour of `current` and moves there, or returns None and leaves `current` unchanged; in a well-formed graph that is k-1, or None at node 0 |
| Graph.CollectPreceding | src/graph.rs:85-100 | repeated calls of `Next` from node k yield exactly k-1, …, 0, and the call after that returns None again |
| Graph.ParentOfRelation | src/graph.rs:49-53 | the target of a Relation edge has that edge's source as its unique head |
| Graph.AncestorTokens | src/lib.rs:11-13 | the head chain contains only nodes of the graph |
| Graph.AncestorTokensChain | src/lib.rs:11-13 | the head chain is empty iff the start is a root; otherwise it starts at the start's head, each element is the head of the one before, and it ends at a root |
| AmbiguousPps.StringValue | src/bin/extract-ambiguous-pps.rs:35-43 | the name of VF or MF, which the field table at lines 70-74 maps back to that field |
| AmbiguousPps.FieldFromString | src/bin/extract-ambiguous-pps.rs:70-74 | the field table: "VF", "MF" and "NF" name their fields, any other string none; `StringValue` states the round trip |
| AmbiguousPps.RelevantHeadTag | src/bin/extract-ambiguous-pps.rs:77-79 | true iff the tag starts with N or V |
| AmbiguousPps.FeatureValue | src/bin/extract-ambiguous-pps.rs:390-392 | None iff the token has no features, lacks the feature or the feature has no value; otherwise that value |
| AmbiguousPps.ResolveVerb | src/bin/extract-ambiguous-pps.rs:379-388 | the resolved verb is a node of the graph |
| AmbiguousPps.ResolveVerbSpec | src/bin/extract-ambiguous-pps.rs:379-388 | the result has no outgoing AUX edge; a verb with no AUX edge resolves to itself; the result is reached from the verb by a chain of AUX edges |
| AmbiguousPps.AddedCandidates | src/bin/extract-ambiguous-pps.rs:286-306 | specification of what `add_tokens` appends: the ranked N/V-tagged tokens of the longest prefix with a POS tag; its properties are stated by `AddedCandidatesRanks`, `AddedCandidatesElements`, `AddedCandidatesComplete` and `AddedCandidatesOrder` |
| AmbiguousPps.AddTokens | src/bin/extract-ambiguous-pps.rs:286-306 | the candidates are extended by exactly the N/V-tagged tokens before the first token without a POS tag, ranked -(count so far + 1) and flagged by node equality with the head |
| AmbiguousPps.ExtractForm | src/bin/extract-ambiguous-pps.rs:86-88 | the lemma when lemmas are wanted, the form otherwise; `InstanceForSome` states that a missing one leaves the edge unreported |
| AmbiguousPps.CToVc | src/bin/extract-ambiguous-pps.rs:364-377 | specification of `traverse_c_to_vc`, the first ancestor whose field is not C if its field is VC; its properties are stated by `CToVcSpec`, `CToVcFound`, `CToVcFinds` and `CToVcClimbsHeads` |
| AmbiguousPps.TraverseCToVc | src/bin/extract-ambiguous-pps.rs:364-377 | the ancestor loop returns exactly `CToVc`, the first ancestor whose field is not C, if that field is VC |
| AmbiguousPps.MfStop | src/bin/extract-ambiguous-pps.rs:321-343 | the decision at the first token that ends the MF/UK run: its resolved finite verb, the verb of its VC ancestor for a C token, or None; stated by `CompetitionMfLast` and `CompetitionMfNone` |
| AmbiguousPps.MfScan | src/bin/extract-ambiguous-pps.rs:314-359 | the leftward scan over the remaining tokens; stated by `MfScanSpec` |
| AmbiguousPps.CompetitionMf | src/bin/extract-ambiguous-pps.rs:308-362 | specification of `find_competition_mf`; its properties are stated by `CompetitionMfSpec`, `CompetitionMfNone`, `CompetitionMfRanks`, `CompetitionMfPlaces`, `CompetitionMfOrder`, `CompetitionMfComplete` and `CompetitionMfLast` |
| AmbiguousPps.FindCompetitionMf | src/bin/extract-ambiguous-pps.rs:308-362 | the leftward scan with its early returns computes exactly `CompetitionMf` |
| AmbiguousPps.LeftBracket | src/bin/extract-ambiguous-pps.rs:236-243 | a left bracket found lies after the PP, inside the sentence |
| AmbiguousPps.VfCandidates | src/bin/extract-ambiguous-pps.rs:245-281 | the candidates once the left bracket is found; stated by `CompetitionVfFirst`, `CompetitionVfRanks`, `CompetitionVfPlaces`, `CompetitionVfOrder`, `CompetitionVfBefore` and `CompetitionVfAfter` |
| AmbiguousPps.CompetitionVf | src/bin/extract-ambiguous-pps.rs:224-284 | specification of `find_competition_vf`; `CompetitionVfNone` states when it gives up, the lemmas of `VfCandidates` what it returns otherwise |
| AmbiguousPps.FindCompetitionVf | src/bin/extract-ambiguous-pps.rs:224-284 | the bracket search, the verb candidate and the two runs of `add_tokens` compute exactly `CompetitionVf` |
| AmbiguousPps.InstanceFor | src/bin/extract-ambiguous-pps.rs:147-193 | specification of one iteration of the edge loop; stated by `InstanceForSome` and `InstanceForValue` |
| AmbiguousPps.Reports | src/bin/extract-ambiguous-pps.rs:142-193 | specification of the edge loop, in `raw_edges` order; stated by `ReportsSpec` |
| AmbiguousPps.ExamineEdge | src/bin/extract-ambiguous-pps.rs:147-193 | one iteration of the edge loop, with every `continue`, yields exactly `InstanceFor` for that edge |
| AmbiguousPps.SelectAmbiguousPps | src/bin/extract-ambiguous-pps.rs:142-193 | the loop over all edges collects exactly `Reports`, the instances of the edges in `raw_edges` order, oldest edge first |
| CompetitionFacts.TakeWhileFieldsSpec | src/bin/extract-ambiguous-pps.rs:259-264 | the run is the longest prefix whose tokens have a field in the allowed set; the token after it has no field or another one |
| CompetitionFacts.ScannedSpec | src/bin/extract-ambiguous-pps.rs:292-294 | `add_tokens` reads the longest prefix of tokens that all have a POS tag |
| CompetitionFacts.AddedCandidatesRanks | src/bin/extract-ambiguous-pps.rs:296-303 | the j-th added candidate has rank -(base + j + 1) and its head flag is true iff it is the head |
| CompetitionFacts.AddedCandidatesElements | src/bin/extract-ambiguous-pps.rs:292-305 | every added candidate is a scanned token with an N/V tag |
| CompetitionFacts.AddedCandidatesComplete | src/bin/extract-ambiguous-pps.rs:292-305 | every scanned token with an N/V tag is added |
| CompetitionFacts.AddedCandidatesOrder | src/bin/extract-ambiguous-pps.rs:292-305 | candidates keep the scan order: strictly decreasing offsets for a leftward scan, strictly increasing for a rightward one |
| CompetitionFacts.CToVcFound | src/bin/extract-ambiguous-pps.rs:364-377 | a VC node found is the ancestor at the stop position, with field VC, and all ancestors before it have field C |
| CompetitionFacts.CToVcFinds | src/bin/extract-ambiguous-pps.rs:364-377 | an ancestor with field VC preceded only by C ancestors is found |
| CompetitionFacts.CToVcSpec | src/bin/extract-ambiguous-pps.rs:364-377 | Some(x) iff x is an ancestor with field VC and every ancestor before it has field C |
| CompetitionFacts.CToVcClimbsHeads | src/bin/extract-ambiguous-pps.rs:364-377 | the VC node found is reached from the C token by a non-empty chain of heads |
| CompetitionFacts.MfScanSpec | src/bin/extract-ambiguous-pps.rs:314-359 | the scan collects the ranked N/V tokens of the leading MF/UK run, then decides at the first token that is not such a token; it gives up when the run reaches the end |
| CompetitionFacts.MfStopTokenSpec | src/bin/extract-ambiguous-pps.rs:314-359 | the stop token is the nearest token before the PP that is not a non-finite MF/UK token with POS and field; there is none iff every such token passes |
| CompetitionFacts.CompetitionMfSpec | src/bin/extract-ambiguous-pps.rs:308-362 | the MF result is the ranked N/V tokens of the run before the stop token, completed by the stop token's verb; None when the run hits the sentence start |
| CompetitionFacts.CompetitionMfNone | src/bin/extract-ambiguous-pps.rs:314-361 | None iff the scan reaches the sentence start, or the stop token lacks a POS or field, is neither a finite verb nor a C token, or is a C token whose ancestors are all in field C or whose first ancestor outside field C has no field or a field other than VC |
| CompetitionFacts.CompetitionMfRanks | src/bin/extract-ambiguous-pps.rs:348-355 | every candidate but the last has rank -(index + 1) and its head flag is node equality with the head |
| CompetitionFacts.CompetitionMfPlaces | src/bin/extract-ambiguous-pps.rs:348-355 | every candidate but the last lies between the stop token and the PP, has an N/V tag and field MF or UK |
| CompetitionFacts.CompetitionMfOrder | src/bin/extract-ambiguous-pps.rs:314-355 | the candidates before the last are nearest-first: strictly decreasing offsets |
| CompetitionFacts.CompetitionMfComplete | src/bin/extract-ambiguous-pps.rs:348-355 | every N/V-tagged token between the stop token and the PP is a candidate |
| CompetitionFacts.CompetitionMfLast | src/bin/extract-ambiguous-pps.rs:321-343 | the list is non-empty; the last candidate is the resolved finite verb (rank -length if it did not move, else 1) or the resolved VC verb of a C token (rank 1), flagged iff it is the head |
| CompetitionFacts.LeftBracketSpec | src/bin/extract-ambiguous-pps.rs:236-243 | None iff no token after the PP has field LK; otherwise the nearest such token |
| CompetitionFacts.CompetitionVfNone | src/bin/extract-ambiguous-pps.rs:236-243 | the VF finder gives up iff no token after the PP has field LK; this holds also when the token before the PP has no POS, as long as no bracket is found |
| CompetitionFacts.PrecedingIsNounSpec | src/bin/extract-ambiguous-pps.rs:254-257 | true iff there is a token before the PP and its POS starts with N |
| CompetitionFacts.PrecedingRunMembers | src/bin/extract-ambiguous-pps.rs:259-266 | a token before the PP is added iff it has an N/V tag and it and every token between it and the PP have a POS and field VF or UK |
| CompetitionFacts.SucceedingRunMembers | src/bin/extract-ambiguous-pps.rs:272-280 | a token after the bracket is added iff it has an N/V tag and it and every token between the bracket and it have a POS and field MF or UK |
| CompetitionFacts.CompetitionVfFirst | src/bin/extract-ambiguous-pps.rs:245-252 | the first candidate is the resolved verb of the left bracket, rank 1, flagged iff the head is that verb or one of its ancestors |
| CompetitionFacts.CompetitionVfRanks | src/bin/extract-ambiguous-pps.rs:296-303 | every later candidate has rank -(index + 1) and its head flag is node equality with the head |
| CompetitionFacts.CompetitionVfPlaces | src/bin/extract-ambiguous-pps.rs:254-281 | every later candidate lies before the PP, or, only when the preceding token is not a noun, after the left bracket |
| CompetitionFacts.CompetitionVfOrder | src/bin/extract-ambiguous-pps.rs:259-281 | tokens before the PP come nearest-first and before any token after the bracket; those after the bracket come in increasing offset |
| CompetitionFacts.CompetitionVfBefore | src/bin/extract-ambiguous-pps.rs:259-266 | a token before the PP is a candidate iff it has an N/V tag and lies in the unbroken VF/UK run with POS reaching back from the PP |
| CompetitionFacts.CompetitionVfAfter | src/bin/extract-ambiguous-pps.rs:269-281 | a token after the bracket is a candidate iff the preceding token is not a noun, it has an N/V tag and lies in the unbroken MF/UK run with POS after the bracket |
| CompetitionFacts.PnDependentSpec | src/bin/extract-ambiguous-pps.rs:169-174 | a PN dependent is found iff the PP has an outgoing PN edge, and the one found is the target of such an edge |
| CompetitionFacts.InstanceForSome | src/bin/extract-ambiguous-pps.rs:147-193 | an edge is reported iff it is a PP edge, the head's tag starts with N/V, the PP's field is the chosen one, a PN dependent exists, both have form (or lemma) and POS, the competition is found, and it has other than one candidate unless all are wanted |
| CompetitionFacts.InstanceForValue | src/bin/extract-ambiguous-pps.rs:169-188 | a report holds the PP, a PN dependent joined to it by a PN edge, and the competition of the chosen field |
| CompetitionFacts.ReportsSpec | src/bin/extract-ambiguous-pps.rs:147-193 | at most one report per edge, and an instance is reported iff some edge yields it |

## Left out

- The command line, the treebank reader and writer, and every `write!`: `main`, option parsing, `print_usage`, and the output of a report line. This includes the candidate-level `ok_or_continue!` between writes at `src/bin/extract-ambiguous-pps.rs:195-212`. A report (`Instance`) records the PP, its PN dependent and the candidates; forms, tags and offset differences are only written.
- `src/bin/extract-pps.rs` and `src/bin/extract-bilexical.rs` are not part of this model. They apply edge-label filters and print the result.
- The `macros` and `cmd` modules are not part of this model. `ok_or_continue!`, `ok_or_break!` and `try_ok!` appear as an early `None`, a loop exit, or the next edge.
- The NF field: `string_value` and the competition switch panic on it. `StringValue`, `InstanceFor` and the methods therefore require `field != NF`.
- Graph.SentenceToGraph: requires `HeadsInRange`, that no head exceeds the number of tokens. On such a head the source panics at `nodes[head - 1]` (`src/graph.rs:51`); that panic is not modelled.
- Candidate ranks are unbounded integers. A `-(len + 1)` overflowing `isize` is not modelled.
- AmbiguousPps.ResolveVerb: requires `Graph.Acyclic`, that no chain of Relation edges returns to its start. The source only fails to end on a cycle of AUX edges reachable from the verb, so this is stronger than the source needs. `ExamineEdge`, `SelectAmbiguousPps` and the other finder members demand it of the whole graph, because they use it to end `resolve_verb` and the ancestor walks.
- Graph.AdjacentTokens: `src/graph.rs` does not show `adjacent_tokens`. It is defined as the Precedence walk, k-1 … 0 going left as `PrecedingTokens` does and k+1 … n-1 going right.
- Graph.AncestorTokens: `src/graph.rs` does not show `ancestor_tokens`. It is defined as the chain of heads across incoming Relation edges, starting after the start node.
- AmbiguousPps.FindCompetitionVf: requires `VfUnwrapSafe`: when a left bracket is found, the token before the PP has a POS tag. Otherwise the source's `unwrap` at `src/bin/extract-ambiguous-pps.rs:255` panics. For the edge loop, `UnwrapSafe` and `AllUnwrapSafe` demand this only of PP edges that pass every earlier filter of the loop and reach the VF finder.
- Candidates name their node by its index, not by a reference to the node. In a graph built by `SentenceToGraph` the index equals the offset.
