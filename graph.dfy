/**
 * The dependency graph of one sentence (src/graph.rs).
 *
 * A node is identified by its index in `nodes`; node `i` wraps token `i` of
 * the sentence. Edges are kept newest first in `edges`: petgraph puts each
 * added edge at the front of its nodes' edge lists, so this is the order
 * in which the traversals below look at them. Every edge runs from a
 * `source` to a `target`: `Precedence` edges from a token to the next one,
 * `Relation` edges from a head to its dependent.
 */
module Graph {
  import opened Wrappers

  /** A token as the treebank reader delivers it; heads are 1-based, 0 is the root. */
  datatype Token = Token(
    form: Option<string>,
    lemmaForm: Option<string>,
    pos: Option<string>,
    features: Option<map<string, Option<string>>>,
    head: Option<nat>,
    headRel: Option<string>,
    pHead: Option<nat>,
    pHeadRel: Option<string>)

  type Sentence = seq<Token>

  datatype DependencyEdge = Relation(name: Option<string>) | Precedence

  datatype DependencyNode = DependencyNode(token: Token, offset: nat)

  datatype Edge = Edge(source: nat, target: nat, weight: DependencyEdge)

  datatype DependencyGraph = DependencyGraph(nodes: seq<DependencyNode>, edges: seq<Edge>)

  /** The direction in which the edges incident to a node are looked up. */
  datatype EdgeDirection = Incoming | Outgoing

  /** The direction of a walk along the precedence chain. */
  datatype Direction = Preceding | Succeeding

  /**
   * The predicates on edge weights that the traversals use: one weight
   * exactly (the closures `|e| *e == ...` of the source), or any Relation.
   */
  datatype EdgeFilter = Weight(w: DependencyEdge) | AnyRelation

  predicate Accepts(accept: EdgeFilter, e: DependencyEdge) {
    match accept
    case Weight(w) => e == w
    case AnyRelation => e.Relation?
  }

  // ---------------------------------------------------------------------
  // Heads of the tokens
  // ---------------------------------------------------------------------

  /** The head a token is attached to, regular or projective. */
  function HeadOf(t: Token, projective: bool): Option<nat> {
    if projective then t.pHead else t.head
  }

  /** The relation label of that attachment. */
  function RelOf(t: Token, projective: bool): Option<string> {
    if projective then t.pHeadRel else t.headRel
  }

  /** The token is attached to another token (its head is present and not the root 0). */
  predicate HasHead(t: Token, projective: bool) {
    HeadOf(t, projective).Some? && HeadOf(t, projective).value != 0
  }

  /** No head points past the end of the sentence (`nodes[head - 1]` must exist). */
  predicate HeadsInRange(sentence: Sentence, projective: bool) {
    forall i :: 0 <= i < |sentence| && HeadOf(sentence[i], projective).Some? ==>
      HeadOf(sentence[i], projective).value <= |sentence|
  }

  /** `e` is the Relation edge that the head of token `e.target` calls for. */
  predicate IsHeadEdge(sentence: Sentence, projective: bool, e: Edge) {
    e.target < |sentence| && HasHead(sentence[e.target], projective) &&
    e.source + 1 == HeadOf(sentence[e.target], projective).value &&
    e.weight == Relation(RelOf(sentence[e.target], projective))
  }

  // ---------------------------------------------------------------------
  // Shape of the edges
  // ---------------------------------------------------------------------

  /** The Precedence edge from node `i` to node `i + 1` is present. */
  predicate PrecedenceFrom(edges: seq<Edge>, i: nat) {
    exists j :: 0 <= j < |edges| && edges[j] == Edge(i, i + 1, Precedence)
  }

  /** Some Relation edge ends at node `i`. */
  predicate RelationInto(edges: seq<Edge>, i: nat) {
    exists j :: 0 <= j < |edges| && edges[j].target == i && edges[j].weight.Relation?
  }

  /** The number of edges whose weight is accepted. */
  function CountEdges(edges: seq<Edge>, accept: EdgeFilter): nat {
    if edges == [] then 0
    else CountEdges(edges[..|edges| - 1], accept) + (if Accepts(accept, edges[|edges| - 1].weight) then 1 else 0)
  }

  /** Every edge leaves one of the `n` nodes and ends before node `bound`. */
  ghost predicate EdgesInRange(edges: seq<Edge>, n: nat, bound: nat) {
    forall j :: 0 <= j < |edges| ==> edges[j].source < n && edges[j].target < bound
  }

  /** Precedence edges join a node to the next one. */
  ghost predicate PrecedenceShape(edges: seq<Edge>) {
    forall j :: 0 <= j < |edges| && edges[j].weight == Precedence ==> edges[j].target == edges[j].source + 1
  }

  /** The Precedence edges `i -> i + 1` are present for all `i + 1 < bound`. */
  ghost predicate PrecedenceComplete(edges: seq<Edge>, bound: nat) {
    forall i :: 0 <= i && i + 1 < bound ==> PrecedenceFrom(edges, i)
  }

  /** No node has two incoming Precedence edges. */
  ghost predicate UniquePrecedenceTarget(edges: seq<Edge>) {
    forall j, k :: (0 <= j < |edges| && 0 <= k < |edges| &&
      edges[j].weight == Precedence && edges[k].weight == Precedence &&
      edges[j].target == edges[k].target) ==> j == k
  }

  /** No node has two outgoing Precedence edges. */
  ghost predicate UniquePrecedenceSource(edges: seq<Edge>) {
    forall j, k :: (0 <= j < |edges| && 0 <= k < |edges| &&
      edges[j].weight == Precedence && edges[k].weight == Precedence &&
      edges[j].source == edges[k].source) ==> j == k
  }

  /** No node has two incoming Relation edges, i.e. two heads. */
  ghost predicate UniqueRelationTarget(edges: seq<Edge>) {
    forall j, k :: (0 <= j < |edges| && 0 <= k < |edges| &&
      edges[j].weight.Relation? && edges[k].weight.Relation? &&
      edges[j].target == edges[k].target) ==> j == k
  }

  /**
   * The edges of a graph over `n` nodes: every edge joins two nodes, the
   * Precedence edges form the chain 0 -> 1 -> ... -> n-1 with one edge per
   * adjacent pair, and no node has two incoming Relation edges.
   */
  ghost predicate EdgesWellFormed(edges: seq<Edge>, n: nat) {
    EdgesInRange(edges, n, n) && PrecedenceShape(edges) && PrecedenceComplete(edges, n) &&
    UniquePrecedenceTarget(edges) && UniquePrecedenceSource(edges) && UniqueRelationTarget(edges)
  }

  /** A graph as `SentenceToGraph` builds it. */
  ghost predicate WellFormed(g: DependencyGraph) {
    (forall i :: 0 <= i < |g.nodes| ==> g.nodes[i].offset == i) &&
    EdgesWellFormed(g.edges, |g.nodes|)
  }

  // ---------------------------------------------------------------------
  // sentence_to_graph
  // ---------------------------------------------------------------------

  /** Every Relation edge is the one the head of its target calls for. */
  ghost predicate RelationsFromHeads(sentence: Sentence, projective: bool, edges: seq<Edge>) {
    forall j :: 0 <= j < |edges| && edges[j].weight.Relation? ==> IsHeadEdge(sentence, projective, edges[j])
  }

  /** The tokens before `bound` have an incoming Relation edge exactly when they have a head. */
  ghost predicate RelationsComplete(sentence: Sentence, projective: bool, edges: seq<Edge>, bound: nat) {
    forall i :: 0 <= i < bound && i < |sentence| ==> (RelationInto(edges, i) <==> HasHead(sentence[i], projective))
  }

  /** The edges added for the tokens before `idx`: the loop invariant of `SentenceToGraph`. */
  ghost predicate BuiltUpTo(sentence: Sentence, projective: bool, edges: seq<Edge>, idx: nat) {
    EdgesInRange(edges, |sentence|, idx) && PrecedenceShape(edges) &&
    RelationsFromHeads(sentence, projective, edges) &&
    PrecedenceComplete(edges, idx) && RelationsComplete(sentence, projective, edges, idx) &&
    UniquePrecedenceTarget(edges) && UniqueRelationTarget(edges) &&
    CountEdges(edges, Weight(Precedence)) == (if idx == 0 then 0 else idx - 1) &&
    CountEdges(edges, AnyRelation) <= idx
  }

  /**
   * The edges added for token `idx`, newest first: its head's Relation edge,
   * added after its Precedence edge.
   */
  function TokenEdges(sentence: Sentence, projective: bool, idx: nat): seq<Edge>
    requires idx < |sentence|
  {
    (if HasHead(sentence[idx], projective)
     then [Edge(HeadOf(sentence[idx], projective).value - 1, idx, Relation(RelOf(sentence[idx], projective)))]
     else []) +
    (if idx > 0 then [Edge(idx - 1, idx, Precedence)] else [])
  }

  /**
   * Builds the graph of a sentence: one node per token, a Precedence edge
   * between each pair of adjacent tokens and, for every token with a head
   * other than the root, a Relation edge from the head to the token. With
   * `projective` the projective head and relation are used. `edges` holds
   * the edges newest first: each added edge goes to the front.
   */
  method SentenceToGraph(sentence: Sentence, projective: bool) returns (g: DependencyGraph)
    requires HeadsInRange(sentence, projective)
    ensures |g.nodes| == |sentence|
    ensures forall i :: 0 <= i < |sentence| ==> g.nodes[i] == DependencyNode(sentence[i], i)
    ensures WellFormed(g)
    ensures RelationsFromHeads(sentence, projective, g.edges)
    ensures forall i :: 0 <= i < |sentence| ==>
      (RelationInto(g.edges, i) <==> HasHead(sentence[i], projective))
    ensures CountEdges(g.edges, Weight(Precedence)) == if |sentence| == 0 then 0 else |sentence| - 1
    ensures CountEdges(g.edges, AnyRelation) <= |sentence|
    ensures g.edges == BuiltEdges(sentence, projective, |sentence|)
  {
    var n := |sentence|;
    // The nodes get the indices 0, 1, ..., n - 1 in the order they are added.
    var nodes: seq<DependencyNode> := [];
    for offset := 0 to n
      invariant |nodes| == offset
      invariant forall i :: 0 <= i < offset ==> nodes[i] == DependencyNode(sentence[i], i)
    {
      nodes := nodes + [DependencyNode(sentence[offset], offset)];
    }

    var edges: seq<Edge> := [];
    for idx := 0 to n
      invariant edges == BuiltEdges(sentence, projective, idx)
    {
      ghost var before := edges;
      if idx > 0 {
        edges := [Edge(idx - 1, idx, Precedence)] + edges;
      }
      var head := HeadOf(sentence[idx], projective);
      var rel := RelOf(sentence[idx], projective);
      if head.Some? && head.value != 0 {
        edges := [Edge(head.value - 1, idx, Relation(rel))] + edges;
      }
      assert edges == TokenEdges(sentence, projective, idx) + before;
    }
    g := DependencyGraph(nodes, edges);
    BuiltEdgesSpec(sentence, projective, n);
    BuiltGraph(sentence, projective, g);
  }

  /** The edges added for the tokens before `idx`, newest first. */
  function BuiltEdges(sentence: Sentence, projective: bool, idx: nat): seq<Edge>
    requires idx <= |sentence|
  {
    if idx == 0 then [] else TokenEdges(sentence, projective, idx - 1) + BuiltEdges(sentence, projective, idx - 1)
  }

  /** The edges added for the tokens before `idx` have the shape the graph needs so far. */
  lemma {:induction false} BuiltEdgesSpec(sentence: Sentence, projective: bool, idx: nat)
    requires HeadsInRange(sentence, projective) && idx <= |sentence|
    ensures BuiltUpTo(sentence, projective, BuiltEdges(sentence, projective, idx), idx)
  {
    if idx > 0 {
      BuiltEdgesSpec(sentence, projective, idx - 1);
      TokenEdgesStep(sentence, projective, BuiltEdges(sentence, projective, idx - 1), idx - 1);
    }
  }

  /** Once the edges of all tokens are added, the graph is well formed. */
  lemma BuiltGraph(sentence: Sentence, projective: bool, g: DependencyGraph)
    requires |g.nodes| == |sentence|
    requires forall i :: 0 <= i < |sentence| ==> g.nodes[i] == DependencyNode(sentence[i], i)
    requires BuiltUpTo(sentence, projective, g.edges, |sentence|)
    ensures WellFormed(g)
    ensures RelationsFromHeads(sentence, projective, g.edges)
    ensures forall i :: 0 <= i < |sentence| ==>
      (RelationInto(g.edges, i) <==> HasHead(sentence[i], projective))
    ensures CountEdges(g.edges, Weight(Precedence)) == if |sentence| == 0 then 0 else |sentence| - 1
    ensures CountEdges(g.edges, AnyRelation) <= |sentence|
  {
    PrecedenceSourceUnique(g.edges);
  }

  /** Adding the edges of token `idx` extends the invariant to the next token. */
  lemma TokenEdgesStep(sentence: Sentence, projective: bool, before: seq<Edge>, idx: nat)
    requires HeadsInRange(sentence, projective) && idx < |sentence|
    requires BuiltUpTo(sentence, projective, before, idx)
    ensures BuiltUpTo(sentence, projective, TokenEdges(sentence, projective, idx) + before, idx + 1)
  {
    TokenEdgesKeepShape(sentence, projective, before, idx);
    TokenEdgesKeepComplete(sentence, projective, before, idx);
    TokenEdgesKeepUnique(sentence, projective, before, idx);
    TokenEdgesCount(sentence, projective, before, idx);
  }

  lemma TokenEdgesKeepShape(sentence: Sentence, projective: bool, before: seq<Edge>, idx: nat)
    requires HeadsInRange(sentence, projective) && idx < |sentence|
    requires EdgesInRange(before, |sentence|, idx) && PrecedenceShape(before)
    requires RelationsFromHeads(sentence, projective, before)
    ensures var after := TokenEdges(sentence, projective, idx) + before;
      EdgesInRange(after, |sentence|, idx + 1) && PrecedenceShape(after) &&
      RelationsFromHeads(sentence, projective, after)
  {
    var tail := TokenEdges(sentence, projective, idx);
    var after := tail + before;
    forall j | 0 <= j < |after|
      ensures after[j].source < |sentence| && after[j].target < idx + 1
      ensures after[j].weight == Precedence ==> after[j].target == after[j].source + 1
      ensures after[j].weight.Relation? ==> IsHeadEdge(sentence, projective, after[j])
    {
      if j >= |tail| {
        assert after[j] == before[j - |tail|];
      }
    }
  }

  lemma TokenEdgesKeepComplete(sentence: Sentence, projective: bool, before: seq<Edge>, idx: nat)
    requires idx < |sentence|
    requires EdgesInRange(before, |sentence|, idx)
    requires PrecedenceComplete(before, idx) && RelationsComplete(sentence, projective, before, idx)
    ensures var after := TokenEdges(sentence, projective, idx) + before;
      PrecedenceComplete(after, idx + 1) && RelationsComplete(sentence, projective, after, idx + 1)
  {
    var tail := TokenEdges(sentence, projective, idx);
    var after := tail + before;
    forall i | 0 <= i && i + 1 < idx + 1 ensures PrecedenceFrom(after, i) {
      if i + 1 < idx {
        assert PrecedenceFrom(before, i);
        var j :| 0 <= j < |before| && before[j] == Edge(i, i + 1, Precedence);
        assert after[j + |tail|] == before[j];
      } else {
        assert after[|tail| - 1] == Edge(i, i + 1, Precedence);
      }
    }
    forall i | 0 <= i < idx + 1 && i < |sentence|
      ensures RelationInto(after, i) <==> HasHead(sentence[i], projective)
    {
      if RelationInto(before, i) {
        var j :| 0 <= j < |before| && before[j].target == i && before[j].weight.Relation?;
        assert after[j + |tail|] == before[j];
      }
      if RelationInto(after, i) {
        var j :| 0 <= j < |after| && after[j].target == i && after[j].weight.Relation?;
        if j >= |tail| {
          assert before[j - |tail|] == after[j];
        }
      }
      if i == idx && HasHead(sentence[i], projective) {
        assert after[0].target == i && after[0].weight.Relation?;
      }
    }
  }

  lemma TokenEdgesKeepUnique(sentence: Sentence, projective: bool, before: seq<Edge>, idx: nat)
    requires idx < |sentence|
    requires EdgesInRange(before, |sentence|, idx)
    requires UniquePrecedenceTarget(before) && UniqueRelationTarget(before)
    ensures var after := TokenEdges(sentence, projective, idx) + before;
      UniquePrecedenceTarget(after) && UniqueRelationTarget(after)
  {
    var tail := TokenEdges(sentence, projective, idx);
    var after := tail + before;
    forall j, k | 0 <= j < |after| && 0 <= k < |after| && after[j].target == after[k].target &&
      ((after[j].weight == Precedence && after[k].weight == Precedence) ||
       (after[j].weight.Relation? && after[k].weight.Relation?))
      ensures j == k
    {
      if j >= |tail| {
        assert after[j] == before[j - |tail|];
      }
      if k >= |tail| {
        assert after[k] == before[k - |tail|];
      }
    }
  }

  lemma {:induction false} CountAppend(a: seq<Edge>, b: seq<Edge>, accept: EdgeFilter)
    ensures CountEdges(a + b, accept) == CountEdges(a, accept) + CountEdges(b, accept)
    decreases |b|
  {
    if b == [] {
      assert a + b == a;
    } else {
      var b' := b[..|b| - 1];
      assert (a + b)[..|a + b| - 1] == a + b';
      assert (a + b)[|a + b| - 1] == b[|b| - 1];
      CountAppend(a, b', accept);
    }
  }

  lemma TokenEdgesCount(sentence: Sentence, projective: bool, before: seq<Edge>, idx: nat)
    requires idx < |sentence|
    requires CountEdges(before, Weight(Precedence)) == (if idx == 0 then 0 else idx - 1)
    requires CountEdges(before, AnyRelation) <= idx
    ensures var after := TokenEdges(sentence, projective, idx) + before;
      CountEdges(after, Weight(Precedence)) == idx && CountEdges(after, AnyRelation) <= idx + 1
  {
    var tail := TokenEdges(sentence, projective, idx);
    CountAppend(tail, before, Weight(Precedence));
    CountAppend(tail, before, AnyRelation);
    var p := if idx > 0 then [Edge(idx - 1, idx, Precedence)] else [];
    var r := tail[..|tail| - |p|];
    assert tail == r + p;
    CountAppend(r, p, Weight(Precedence));
    CountAppend(r, p, AnyRelation);
    assert CountEdges(p, Weight(Precedence)) == (if idx > 0 then 1 else 0);
    assert CountEdges(r, Weight(Precedence)) == 0 && CountEdges(r, AnyRelation) <= 1 by {
      if r != [] {
        assert r[..0] == [];
      }
    }
    assert CountEdges(p, AnyRelation) == 0 by {
      if p != [] {
        assert p[..0] == [];
      }
    }
  }

  /** A Precedence chain with one edge into each node has one edge out of each node. */
  lemma PrecedenceSourceUnique(edges: seq<Edge>)
    requires PrecedenceShape(edges) && UniquePrecedenceTarget(edges)
    ensures UniquePrecedenceSource(edges)
  {
  }

  // ---------------------------------------------------------------------
  // first_matching_edge
  // ---------------------------------------------------------------------

  /** `e` is incident to `index` in the given direction. */
  predicate Incident(e: Edge, index: nat, direction: EdgeDirection) {
    if direction == Outgoing then e.source == index else e.target == index
  }

  /** The node at the other end of an incident edge. */
  function Neighbour(e: Edge, direction: EdgeDirection): nat {
    if direction == Outgoing then e.target else e.source
  }

  predicate Matches(e: Edge, index: nat, direction: EdgeDirection, accept: EdgeFilter) {
    Incident(e, index, direction) && Accepts(accept, e.weight)
  }

  /**
   * `first_matching_edge`: the neighbour across the first edge incident to
   * `index` in `direction` whose weight `accept`s, or None when there is none.
   * `edges` holds the edges newest first, the order in which petgraph
   * lists the edges at a node, so the search runs from the start of
   * `edges`. What it promises is stated by `FirstMatchingEdgeSpec`.
   */
  function FirstMatchingEdge(g: DependencyGraph, index: nat, direction: EdgeDirection,
                             accept: EdgeFilter): Option<nat>
  {
    FindFrom(g.edges, index, direction, accept, 0)
  }

  /** The search of `FirstMatchingEdge` over `edges[from..]`. */
  function FindFrom(edges: seq<Edge>, index: nat, direction: EdgeDirection,
                    accept: EdgeFilter, from: nat): Option<nat>
    requires from <= |edges|
    decreases |edges| - from
  {
    if from == |edges| then None
    else if Matches(edges[from], index, direction, accept) then Some(Neighbour(edges[from], direction))
    else FindFrom(edges, index, direction, accept, from + 1)
  }

  /** `edges[j]` is the first edge of `edges[from..]` that matches. */
  predicate FirstMatchAt(edges: seq<Edge>, index: nat, direction: EdgeDirection, accept: EdgeFilter,
                         from: nat, j: nat)
  {
    from <= j < |edges| && Matches(edges[j], index, direction, accept) &&
    forall i :: from <= i < j ==> !Matches(edges[i], index, direction, accept)
  }

  lemma {:induction false} FindFromSpec(edges: seq<Edge>, index: nat, direction: EdgeDirection,
                                        accept: EdgeFilter, from: nat)
    requires from <= |edges|
    ensures FindFrom(edges, index, direction, accept, from).None? <==>
      forall j :: from <= j < |edges| ==> !Matches(edges[j], index, direction, accept)
    ensures FindFrom(edges, index, direction, accept, from).Some? ==>
      exists j: nat :: FirstMatchAt(edges, index, direction, accept, from, j) &&
        Neighbour(edges[j], direction) == FindFrom(edges, index, direction, accept, from).value
    decreases |edges| - from
  {
    if from < |edges| {
      if Matches(edges[from], index, direction, accept) {
        assert FirstMatchAt(edges, index, direction, accept, from, from);
      } else {
        FindFromSpec(edges, index, direction, accept, from + 1);
        if FindFrom(edges, index, direction, accept, from).Some? {
          var j: nat :| FirstMatchAt(edges, index, direction, accept, from + 1, j) &&
            Neighbour(edges[j], direction) == FindFrom(edges, index, direction, accept, from).value;
          assert FirstMatchAt(edges, index, direction, accept, from, j);
        }
      }
    }
  }

  /**
   * `FirstMatchingEdge` is None exactly when no incident edge in that
   * direction is accepted; otherwise it is the neighbour across the first
   * accepted one, the newest such edge.
   */
  lemma FirstMatchingEdgeSpec(g: DependencyGraph, index: nat, direction: EdgeDirection, accept: EdgeFilter)
    ensures FirstMatchingEdge(g, index, direction, accept).None? <==>
      forall j :: 0 <= j < |g.edges| ==> !Matches(g.edges[j], index, direction, accept)
    ensures FirstMatchingEdge(g, index, direction, accept).Some? ==>
      exists j: nat :: FirstMatchAt(g.edges, index, direction, accept, 0, j) &&
        Neighbour(g.edges[j], direction) == FirstMatchingEdge(g, index, direction, accept).value
  {
    FindFromSpec(g.edges, index, direction, accept, 0);
  }

  /** In a well-formed graph every neighbour found is a node of the graph. */
  lemma NeighbourInRange(g: DependencyGraph, index: nat, direction: EdgeDirection, accept: EdgeFilter)
    requires WellFormed(g)
    ensures FirstMatchingEdge(g, index, direction, accept).Some? ==>
      FirstMatchingEdge(g, index, direction, accept).value < |g.nodes|
  {
    FirstMatchingEdgeSpec(g, index, direction, accept);
  }

  // ---------------------------------------------------------------------
  // Walking the precedence chain
  // ---------------------------------------------------------------------

  /** One step along the Precedence edges. */
  function Step(g: DependencyGraph, k: nat, direction: Direction): Option<nat> {
    FirstMatchingEdge(g, k, if direction == Preceding then Incoming else Outgoing, Weight(Precedence))
  }

  /** In a well-formed graph a step goes to the token just before or just after `k`. */
  lemma StepOnChain(g: DependencyGraph, k: nat, direction: Direction)
    requires WellFormed(g) && k < |g.nodes|
    ensures direction == Preceding ==> Step(g, k, direction) == if k == 0 then None else Some(k - 1)
    ensures direction == Succeeding ==> Step(g, k, direction) == if k + 1 == |g.nodes| then None else Some(k + 1)
  {
    var edges := g.edges;
    var d := if direction == Preceding then Incoming else Outgoing;
    var r := Step(g, k, direction);
    FirstMatchingEdgeSpec(g, k, d, Weight(Precedence));
    if direction == Preceding {
      if k > 0 {
        assert PrecedenceFrom(edges, k - 1);
        var j :| 0 <= j < |edges| && edges[j] == Edge(k - 1, k - 1 + 1, Precedence);
        assert Matches(edges[j], k, d, Weight(Precedence));
        var j': nat :| FirstMatchAt(edges, k, d, Weight(Precedence), 0, j') && Neighbour(edges[j'], d) == r.value;
        assert j' == j;
      }
    } else {
      if k + 1 < |g.nodes| {
        assert PrecedenceFrom(edges, k);
        var j :| 0 <= j < |edges| && edges[j] == Edge(k, k + 1, Precedence);
        assert Matches(edges[j], k, d, Weight(Precedence));
      }
    }
  }

  /**
   * `adjacent_tokens`: the tokens met by walking the precedence chain away
   * from `k`, nearest first and without `k` itself: `k - 1, ..., 0` going
   * back and `k + 1, ..., n - 1` going forward. `AdjacentTokensWalk` proves
   * that this is the walk along the Precedence edges.
   */
  function AdjacentTokens(g: DependencyGraph, k: nat, direction: Direction): (r: seq<nat>)
    requires k < |g.nodes|
    ensures forall i :: 0 <= i < |r| ==> r[i] < |g.nodes| && r[i] != k
  {
    if direction == Preceding then Countdown(k) else Span(k + 1, |g.nodes|)
  }

  /** `k - 1, k - 2, ..., 0`. */
  function Countdown(k: nat): seq<nat> {
    seq(k, i requires 0 <= i < k => k - 1 - i)
  }

  /** `lo, lo + 1, ..., hi - 1`. */
  function Span(lo: nat, hi: nat): seq<nat> {
    seq(if lo <= hi then hi - lo else 0, i requires 0 <= i => lo + i)
  }

  /**
   * Each adjacent token is one Precedence step from the previous one (from
   * `k` for the first), and the walk ends where no further step exists.
   */
  lemma AdjacentTokensWalk(g: DependencyGraph, k: nat, direction: Direction)
    requires WellFormed(g) && k < |g.nodes|
    ensures var r := AdjacentTokens(g, k, direction);
      (forall i :: 0 <= i < |r| ==> r[i] < |g.nodes|) &&
      (r == [] ==> Step(g, k, direction).None?) &&
      (r != [] ==> Step(g, k, direction) == Some(r[0]) && Step(g, r[|r| - 1], direction).None?) &&
      (forall i :: 0 < i < |r| ==> Step(g, r[i - 1], direction) == Some(r[i]))
  {
    var r := AdjacentTokens(g, k, direction);
    StepOnChain(g, k, direction);
    if r != [] {
      StepOnChain(g, r[|r| - 1], direction);
    }
    forall i | 0 < i < |r| ensures Step(g, r[i - 1], direction) == Some(r[i]) {
      StepOnChain(g, r[i - 1], direction);
    }
  }

  /**
   * `preceding_tokens`: an iterator over the tokens before a node. Every
   * call of `Next` follows the incoming Precedence edge of `current`.
   */
  class PrecedingTokens {
    const graph: DependencyGraph
    var current: nat

    constructor (graph: DependencyGraph, index: nat)
      ensures this.graph == graph && current == index
    {
      this.graph := graph;
      current := index;
    }

    method Next() returns (r: Option<nat>)
      modifies this
      ensures r == Step(graph, old(current), Preceding)
      ensures current == if r.Some? then r.value else old(current)
      ensures WellFormed(graph) && old(current) < |graph.nodes| ==>
        r == if old(current) == 0 then None else Some(old(current) - 1)
    {
      if WellFormed(graph) && current < |graph.nodes| {
        StepOnChain(graph, current, Preceding);
      }
      match FirstMatchingEdge(graph, current, Incoming, Weight(Precedence))
      case Some(idx) =>
        current := idx;
        r := Some(idx);
      case None =>
        r := None;
    }
  }

  /**
   * Drains a fresh `PrecedingTokens` started at `index`, then calls `Next`
   * once more: the iterator yields exactly the preceding adjacent tokens and
   * stays exhausted.
   */
  method CollectPreceding(g: DependencyGraph, index: nat) returns (visited: seq<nat>, again: Option<nat>)
    requires WellFormed(g) && index < |g.nodes|
    ensures visited == AdjacentTokens(g, index, Preceding)
    ensures again.None?
  {
    var tokens := new PrecedingTokens(g, index);
    visited := [];
    while true
      invariant tokens.graph == g && tokens.current <= index
      invariant |visited| == index - tokens.current
      invariant forall i :: 0 <= i < |visited| ==> visited[i] == index - 1 - i
      decreases tokens.current
    {
      var next := tokens.Next();
      if next.None? {
        again := tokens.Next();
        return;
      }
      visited := visited + [next.value];
    }
  }

  // ---------------------------------------------------------------------
  // Walking towards the root
  // ---------------------------------------------------------------------

  /** The head of node `k`: the neighbour across its first incoming Relation edge. */
  function Parent(g: DependencyGraph, k: nat): Option<nat> {
    FirstMatchingEdge(g, k, Incoming, AnyRelation)
  }

  /** In a well-formed graph the source of a Relation edge is the Parent of its target. */
  lemma ParentOfRelation(g: DependencyGraph, j: nat)
    requires WellFormed(g) && j < |g.edges| && g.edges[j].weight.Relation?
    ensures Parent(g, g.edges[j].target) == Some(g.edges[j].source)
  {
    var e := g.edges[j];
    FirstMatchingEdgeSpec(g, e.target, Incoming, AnyRelation);
    assert Matches(e, e.target, Incoming, AnyRelation);
    var j': nat :| FirstMatchAt(g.edges, e.target, Incoming, AnyRelation, 0, j') &&
      Neighbour(g.edges[j'], Incoming) == Parent(g, e.target).value;
    assert Matches(g.edges[j'], e.target, Incoming, AnyRelation);
    assert Incident(g.edges[j'], e.target, Incoming);
    assert Accepts(AnyRelation, g.edges[j'].weight);
    assert g.edges[j'].weight.Relation?;
    assert g.edges[j'].target == e.target;
    assert j' == j;
  }

  /** Node `k` reaches a root within `fuel - 1` Parent steps. */
  ghost predicate RootedWithin(g: DependencyGraph, k: nat, fuel: nat)
    decreases fuel
  {
    fuel > 0 &&
    match Parent(g, k)
    case None => true
    case Some(p) => RootedWithin(g, p, fuel - 1)
  }

  /** The number of Parent steps from `k` to its root, looking at most `fuel` steps ahead. */
  ghost function Depth(g: DependencyGraph, k: nat, fuel: nat): nat
    decreases fuel
  {
    if fuel == 0 then 0
    else match Parent(g, k)
      case None => 0
      case Some(p) => 1 + Depth(g, p, fuel - 1)
  }

  /** The Relation edges contain no cycle: every node reaches a root. */
  ghost predicate Acyclic(g: DependencyGraph) {
    forall k :: 0 <= k < |g.nodes| ==> RootedWithin(g, k, |g.nodes|)
  }

  lemma {:induction false} RootedMonotone(g: DependencyGraph, k: nat, f1: nat, f2: nat)
    requires RootedWithin(g, k, f1) && f1 <= f2
    ensures RootedWithin(g, k, f2) && Depth(g, k, f1) == Depth(g, k, f2)
    ensures Depth(g, k, f1) < f1
    decreases f1
  {
    match Parent(g, k)
    case None =>
    case Some(p) => RootedMonotone(g, p, f1 - 1, f2 - 1);
  }

  /** A Parent step brings a node one step closer to its root. */
  lemma ParentDepth(g: DependencyGraph, k: nat)
    requires WellFormed(g) && Acyclic(g) && k < |g.nodes| && Parent(g, k).Some?
    ensures Parent(g, k).value < |g.nodes|
    ensures Depth(g, Parent(g, k).value, |g.nodes|) + 1 == Depth(g, k, |g.nodes|)
    ensures Depth(g, k, |g.nodes|) < |g.nodes|
  {
    var n := |g.nodes|;
    var p := Parent(g, k).value;
    NeighbourInRange(g, k, Incoming, AnyRelation);
    RootedMonotone(g, k, n, n);
    RootedMonotone(g, p, n - 1, n);
  }

  /** The child found across an outgoing Relation edge is one step further from the root. */
  lemma ChildDeeper(g: DependencyGraph, v: nat, name: Option<string>)
    requires WellFormed(g) && Acyclic(g) && v < |g.nodes|
    requires FirstMatchingEdge(g, v, Outgoing, Weight(Relation(name))).Some?
    ensures var c := FirstMatchingEdge(g, v, Outgoing, Weight(Relation(name))).value;
      c < |g.nodes| && Parent(g, c) == Some(v) &&
      Depth(g, v, |g.nodes|) < Depth(g, c, |g.nodes|) < |g.nodes|
  {
    var c := FirstMatchingEdge(g, v, Outgoing, Weight(Relation(name))).value;
    FirstMatchingEdgeSpec(g, v, Outgoing, Weight(Relation(name)));
    var j: nat :| FirstMatchAt(g.edges, v, Outgoing, Weight(Relation(name)), 0, j) &&
      Neighbour(g.edges[j], Outgoing) == c;
    assert Matches(g.edges[j], v, Outgoing, Weight(Relation(name)));
    assert g.edges[j].source == v && g.edges[j].target == c && g.edges[j].weight.Relation?;
    ParentOfRelation(g, j);
    ParentDepth(g, c);
  }

  /**
   * The ancestors of `k`, nearest first and without `k` itself: its head,
   * the head of its head, and so on up to a root.
   */
  function AncestorTokens(g: DependencyGraph, k: nat): (r: seq<nat>)
    requires WellFormed(g) && Acyclic(g) && k < |g.nodes|
    ensures forall i :: 0 <= i < |r| ==> r[i] < |g.nodes|
    decreases Depth(g, k, |g.nodes|)
  {
    match Parent(g, k)
    case None => []
    case Some(p) =>
      ParentDepth(g, k);
      [p] + AncestorTokens(g, p)
  }

  /**
   * The ancestors of `k` are its parent, its parent's parent and so on, up
   * to a node without a parent.
   */
  lemma {:induction false} AncestorTokensChain(g: DependencyGraph, k: nat)
    requires WellFormed(g) && Acyclic(g) && k < |g.nodes|
    ensures var r := AncestorTokens(g, k);
      && (r == [] <==> Parent(g, k).None?)
      && (r != [] ==> Parent(g, k) == Some(r[0]) && Parent(g, r[|r| - 1]).None?)
      && (forall i :: 0 < i < |r| ==> Parent(g, r[i - 1]) == Some(r[i]))
    decreases Depth(g, k, |g.nodes|)
  {
    match Parent(g, k)
    case None =>
    case Some(p) =>
      ParentDepth(g, k);
      AncestorTokensChain(g, p);
      var r := AncestorTokens(g, k);
      assert r == [p] + AncestorTokens(g, p);
      forall i | 1 < i < |r|
        ensures Parent(g, r[i - 1]) == Some(r[i])
      {
        assert r[i - 1] == AncestorTokens(g, p)[i - 2];
      }
  }
}
