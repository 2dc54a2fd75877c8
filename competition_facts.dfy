/**
 * What the competing-head finder promises, stated without its loops: the
 * ranks and head flags of the candidates, which tokens become candidates
 * and in which order, when each finder gives up, and which PP edges are
 * reported.
 */
module CompetitionFacts {
  import opened Wrappers
  import opened Graph
  import opened AmbiguousPps

  /** `x` is the node of one of the candidates from index `lo` on. */
  predicate Among(cands: seq<CompetingHead>, lo: nat, x: nat) {
    exists j :: lo <= j < |cands| && cands[j].node == x
  }

  // ---------------------------------------------------------------------
  // Ranking and filtering
  // ---------------------------------------------------------------------

  /** The `j`-th ranked candidate is `nodes[j]`, ranked `-(base + j + 1)`. */
  lemma {:induction false} RankedAt(head: nat, nodes: seq<nat>, base: nat)
    ensures forall j :: 0 <= j < |nodes| ==>
      Ranked(head, nodes, base)[j] == CompetingHead(nodes[j], -(base + j + 1), nodes[j] == head)
  {
    if nodes != [] {
      RankedAt(head, nodes[..|nodes| - 1], base);
    }
  }

  /** Ranking two runs of nodes one after the other. */
  lemma RankedConcat(head: nat, a: seq<nat>, b: seq<nat>, base: nat)
    ensures Ranked(head, a + b, base) == Ranked(head, a, base) + Ranked(head, b, base + |a|)
  {
    RankedAt(head, a + b, base);
    RankedAt(head, a, base);
    RankedAt(head, b, base + |a|);
  }

  /** Filtering distributes over concatenation. */
  lemma {:induction false} RelevantNodesConcat(g: DependencyGraph, a: seq<nat>, b: seq<nat>)
    requires NodesIn(g, a) && NodesIn(g, b)
    ensures RelevantNodes(g, a + b) == RelevantNodes(g, a) + RelevantNodes(g, b)
    decreases |b|
  {
    if b != [] {
      var b' := b[..|b| - 1];
      assert (a + b)[..|a + b| - 1] == a + b';
      RelevantNodesConcat(g, a, b');
    } else {
      assert a + b == a;
    }
  }

  /** Exactly the relevant tokens of `s` survive the filter. */
  lemma {:induction false} RelevantNodesMembers(g: DependencyGraph, s: seq<nat>)
    requires NodesIn(g, s)
    ensures forall x :: x in RelevantNodes(g, s) <==> x in s && RelevantAt(g, x)
  {
    if s != [] {
      var init := s[..|s| - 1];
      RelevantNodesMembers(g, init);
      assert s == init + [s[|s| - 1]];
    }
  }

  /** Filtering keeps a decreasing run decreasing. */
  lemma {:induction false} RelevantNodesDecreasing(g: DependencyGraph, s: seq<nat>)
    requires NodesIn(g, s) && Decreasing(s)
    ensures Decreasing(RelevantNodes(g, s))
  {
    if s != [] {
      var init := s[..|s| - 1];
      var last := s[|s| - 1];
      RelevantNodesDecreasing(g, init);
      RelevantNodesMembers(g, init);
      var r := RelevantNodes(g, init);
      forall i | 0 <= i < |r|
        ensures r[i] > last
      {
        assert r[i] in r;
        var j :| 0 <= j < |init| && init[j] == r[i];
        assert s[j] == init[j];
      }
    }
  }

  /** Filtering keeps an increasing run increasing. */
  lemma {:induction false} RelevantNodesIncreasing(g: DependencyGraph, s: seq<nat>)
    requires NodesIn(g, s) && Increasing(s)
    ensures Increasing(RelevantNodes(g, s))
  {
    if s != [] {
      var init := s[..|s| - 1];
      var last := s[|s| - 1];
      RelevantNodesIncreasing(g, init);
      RelevantNodesMembers(g, init);
      var r := RelevantNodes(g, init);
      forall i | 0 <= i < |r|
        ensures r[i] < last
      {
        assert r[i] in r;
        var j :| 0 <= j < |init| && init[j] == r[i];
        assert s[j] == init[j];
      }
    }
  }

  /** The tokens kept by `take_while` form a prefix of `s` whose fields are all allowed. */
  lemma TakeWhileFieldsSpec(g: DependencyGraph, s: seq<nat>, allowed: set<string>)
    requires NodesIn(g, s)
    ensures var t := TakeWhileFields(g, s, allowed);
      && t == s[..|t|]
      && (forall j :: 0 <= j < |t| ==> Tf(g, t[j]).Some? && Tf(g, t[j]).value in allowed)
      && (|t| < |s| ==> Tf(g, s[|t|]).None? || Tf(g, s[|t|]).value !in allowed)
  {
    LeadingSpec(g, s, InFields(allowed));
    var t := TakeWhileFields(g, s, allowed);
    forall j | 0 <= j < |t|
      ensures Tf(g, t[j]).Some? && Tf(g, t[j]).value in allowed
    {
      assert Holds(g, s[j], InFields(allowed));
    }
    if |t| < |s| {
      assert !Holds(g, s[|t|], InFields(allowed));
    }
  }

  /** `add_tokens` scans up to, but not including, the first token without a POS tag. */
  lemma ScannedSpec(g: DependencyGraph, tokens: seq<nat>)
    requires NodesIn(g, tokens)
    ensures var scanned := Scanned(g, tokens);
      && scanned == tokens[..|scanned|]
      && (forall j :: 0 <= j < |scanned| ==> Pos(g, scanned[j]).Some?)
      && (|scanned| < |tokens| ==> Pos(g, tokens[|scanned|]).None?)
  {
    LeadingSpec(g, tokens, PosPresent);
    var scanned := Scanned(g, tokens);
    forall j | 0 <= j < |scanned|
      ensures Pos(g, scanned[j]).Some?
    {
      assert Holds(g, tokens[j], PosPresent);
    }
    if |scanned| < |tokens| {
      assert !Holds(g, tokens[|scanned|], PosPresent);
    }
  }

  /** `add_tokens`: the `j`-th added candidate is ranked `-(base + j + 1)` and flagged iff it is the gold head. */
  lemma AddedCandidatesRanks(g: DependencyGraph, head: nat, tokens: seq<nat>, base: nat)
    requires NodesIn(g, tokens)
    ensures var added := AddedCandidates(g, head, tokens, base);
      forall j :: 0 <= j < |added| ==>
        added[j].rank == -(base + j + 1) && added[j].head == (added[j].node == head)
  {
    RankedAt(head, RelevantNodes(g, Scanned(g, tokens)), base);
  }

  /** `add_tokens` only adds relevant scanned tokens. */
  lemma AddedCandidatesElements(g: DependencyGraph, head: nat, tokens: seq<nat>, base: nat)
    requires NodesIn(g, tokens)
    ensures var added := AddedCandidates(g, head, tokens, base);
      forall j :: 0 <= j < |added| ==> added[j].node in Scanned(g, tokens) && RelevantAt(g, added[j].node)
  {
    var scanned := Scanned(g, tokens);
    var nodes := RelevantNodes(g, scanned);
    RankedAt(head, nodes, base);
    RelevantNodesMembers(g, scanned);
  }

  /** Every relevant scanned token is added. */
  lemma AddedCandidatesComplete(g: DependencyGraph, head: nat, tokens: seq<nat>, base: nat)
    requires NodesIn(g, tokens)
    ensures var added := AddedCandidates(g, head, tokens, base);
      forall x :: x in Scanned(g, tokens) && RelevantAt(g, x) ==>
        Among(added, 0, x)
  {
    var scanned := Scanned(g, tokens);
    var nodes := RelevantNodes(g, scanned);
    RankedAt(head, nodes, base);
    RelevantNodesMembers(g, scanned);
    var added := AddedCandidates(g, head, tokens, base);
    forall x | x in scanned && RelevantAt(g, x)
      ensures Among(added, 0, x)
    {
      var j :| 0 <= j < |nodes| && nodes[j] == x;
      assert added[j].node == x;
    }
  }

  /** The added candidates keep the order of `tokens`. */
  lemma AddedCandidatesOrder(g: DependencyGraph, head: nat, tokens: seq<nat>, base: nat)
    requires NodesIn(g, tokens)
    ensures var added := AddedCandidates(g, head, tokens, base);
      && (Decreasing(tokens) ==> forall i, j :: 0 <= i < j < |added| ==> added[i].node > added[j].node)
      && (Increasing(tokens) ==> forall i, j :: 0 <= i < j < |added| ==> added[i].node < added[j].node)
  {
    var scanned := Scanned(g, tokens);
    ScannedSpec(g, tokens);
    var nodes := RelevantNodes(g, scanned);
    RankedAt(head, nodes, base);
    if Decreasing(tokens) {
      assert Decreasing(scanned);
      RelevantNodesDecreasing(g, scanned);
    }
    if Increasing(tokens) {
      assert Increasing(scanned);
      RelevantNodesIncreasing(g, scanned);
    }
  }

  // ---------------------------------------------------------------------
  // traverse_c_to_vc
  // ---------------------------------------------------------------------

  /** What `traverse_c_to_vc` finds is a "VC" ancestor above a run of "C" ancestors. */
  lemma CToVcFound(g: DependencyGraph, k: nat)
    requires WellFormed(g) && Acyclic(g) && k < |g.nodes|
    requires CToVc(g, k).Some?
    ensures var ancestors := AncestorTokens(g, k);
      var i := Leading(g, ancestors, InFields({TopoCField}));
      && i < |ancestors| && ancestors[i] == CToVc(g, k).value && Tf(g, ancestors[i]) == Some(TopoRkField)
      && forall j :: 0 <= j < i ==> Tf(g, ancestors[j]) == Some(TopoCField)
  {
    var ancestors := AncestorTokens(g, k);
    var l := Leading(g, ancestors, InFields({TopoCField}));
    LeadingSpec(g, ancestors, InFields({TopoCField}));
    forall j | 0 <= j < l
      ensures Tf(g, ancestors[j]) == Some(TopoCField)
    {
      assert Holds(g, ancestors[j], InFields({TopoCField}));
    }
  }

  /** A "VC" ancestor above a run of "C" ancestors is what `traverse_c_to_vc` finds. */
  lemma CToVcFinds(g: DependencyGraph, k: nat, i: nat)
    requires WellFormed(g) && Acyclic(g) && k < |g.nodes|
    requires var ancestors := AncestorTokens(g, k);
      && i < |ancestors| && Tf(g, ancestors[i]) == Some(TopoRkField)
      && forall j :: 0 <= j < i ==> Tf(g, ancestors[j]) == Some(TopoCField)
    ensures CToVc(g, k) == Some(AncestorTokens(g, k)[i])
  {
    var ancestors := AncestorTokens(g, k);
    assert "VC" != "C";
    assert !Holds(g, ancestors[i], InFields({TopoCField}));
    forall j | 0 <= j < i
      ensures Holds(g, ancestors[j], InFields({TopoCField}))
    {
    }
    LeadingAt(g, ancestors, InFields({TopoCField}), i);
  }

  /**
   * `traverse_c_to_vc` finds `x` iff `x` is an ancestor of `k` whose field
   * is "VC" and every ancestor below it has the field "C".
   */
  lemma CToVcSpec(g: DependencyGraph, k: nat, x: nat)
    requires WellFormed(g) && Acyclic(g) && k < |g.nodes|
    ensures var ancestors := AncestorTokens(g, k);
      CToVc(g, k) == Some(x) <==>
        exists i :: 0 <= i < |ancestors| && ancestors[i] == x && Tf(g, x) == Some(TopoRkField) &&
          forall j :: 0 <= j < i ==> Tf(g, ancestors[j]) == Some(TopoCField)
  {
    var ancestors := AncestorTokens(g, k);
    if CToVc(g, k) == Some(x) {
      CToVcFound(g, k);
      var l := Leading(g, ancestors, InFields({TopoCField}));
      assert 0 <= l < |ancestors| && ancestors[l] == x && Tf(g, x) == Some(TopoRkField) &&
        forall j :: 0 <= j < l ==> Tf(g, ancestors[j]) == Some(TopoCField);
    }
    if exists i :: 0 <= i < |ancestors| && ancestors[i] == x && Tf(g, x) == Some(TopoRkField) &&
         forall j :: 0 <= j < i ==> Tf(g, ancestors[j]) == Some(TopoCField) {
      var i :| 0 <= i < |ancestors| && ancestors[i] == x && Tf(g, x) == Some(TopoRkField) &&
        forall j :: 0 <= j < i ==> Tf(g, ancestors[j]) == Some(TopoCField);
      CToVcFinds(g, k, i);
    }
  }

  /** The ancestors climbed by `traverse_c_to_vc` form the head chain of `k`. */
  lemma CToVcClimbsHeads(g: DependencyGraph, k: nat)
    requires WellFormed(g) && Acyclic(g) && k < |g.nodes|
    requires CToVc(g, k).Some?
    ensures exists chain: seq<nat> ::
      && |chain| > 0
      && Parent(g, k) == Some(chain[0])
      && chain[|chain| - 1] == CToVc(g, k).value
      && (forall i :: 0 < i < |chain| ==> Parent(g, chain[i - 1]) == Some(chain[i]))
  {
    var ancestors := AncestorTokens(g, k);
    var l := Leading(g, ancestors, InFields({TopoCField}));
    AncestorTokensChain(g, k);
    var chain := ancestors[..l + 1];
    assert chain[|chain| - 1] == CToVc(g, k).value;
  }

  // ---------------------------------------------------------------------
  // find_competition_mf
  // ---------------------------------------------------------------------

  /** The candidates after one passing token `k`, continued over `u`, are those over `[k] + u`. */
  lemma MfScanStep(g: DependencyGraph, head: nat, k: nat, u: seq<nat>, c: seq<CompetingHead>)
    requires k < |g.nodes| && NodesIn(g, u)
    ensures var c' := if RelevantAt(g, k) then c + [CompetingHead(k, -(|c| + 1), head == k)] else c;
      c' + Ranked(head, RelevantNodes(g, u), |c'|) == c + Ranked(head, RelevantNodes(g, [k] + u), |c|)
  {
    RelevantNodesConcat(g, [k], u);
    assert RelevantNodes(g, [k]) == RelevantNodes(g, []) + if RelevantAt(g, k) then [k] else [];
    if RelevantAt(g, k) {
      assert RelevantNodes(g, [k] + u) == [k] + RelevantNodes(g, u);
      RankedConcat(head, [k], RelevantNodes(g, u), |c|);
      assert Ranked(head, [k], |c|) == Ranked(head, [], |c|) + [CompetingHead(k, -(|c| + 1), k == head)];
      assert Ranked(head, [k], |c|) == [CompetingHead(k, -(|c| + 1), head == k)];
      assert (c + [CompetingHead(k, -(|c| + 1), head == k)]) + Ranked(head, RelevantNodes(g, u), |c| + 1) ==
        c + ([CompetingHead(k, -(|c| + 1), head == k)] + Ranked(head, RelevantNodes(g, u), |c| + 1));
    } else {
      assert [] + RelevantNodes(g, u) == RelevantNodes(g, u);
    }
  }

  /** The MF scan, seen declaratively: where it stops and what it collected before. */
  lemma {:induction false} MfScanSpec(g: DependencyGraph, head: nat, s: seq<nat>, c: seq<CompetingHead>)
    requires WellFormed(g) && Acyclic(g) && NodesIn(g, s)
    ensures MfScan(g, head, s, c) ==
      var i := Leading(g, s, MfPasses);
      if i == |s| then None else MfStop(g, s[i], head, c + Ranked(head, RelevantNodes(g, s[..i]), |c|))
  {
    if s == [] {
    } else if !Holds(g, s[0], MfPasses) {
      assert c + Ranked(head, RelevantNodes(g, s[..0]), |c|) == c;
    } else {
      var k := s[0];
      var t := s[1..];
      var c' := if RelevantAt(g, k) then c + [CompetingHead(k, -(|c| + 1), head == k)] else c;
      assert MfScan(g, head, s, c) == MfScan(g, head, t, c');
      MfScanSpec(g, head, t, c');
      var i' := Leading(g, t, MfPasses);
      assert Leading(g, s, MfPasses) == 1 + i';
      if i' < |t| {
        assert t[i'] == s[1 + i'];
        assert s[..1 + i'] == [k] + t[..i'];
        MfScanStep(g, head, k, t[..i'], c);
      }
    }
  }

  /** The token at which the MF scan stops, if it stops before the sentence start. */
  function MfStopToken(g: DependencyGraph, p: nat): Option<nat>
    requires p < |g.nodes|
  {
    var tokens := AdjacentTokens(g, p, Preceding);
    var i := Leading(g, tokens, MfPasses);
    if i == |tokens| then None else Some(tokens[i])
  }

  /**
   * The scan stops at the nearest token before `p` that does not pass it
   * (a token passes when it has a POS tag that is not a finite verb tag and
   * the field MF or UK); it reaches the sentence start iff all tokens pass.
   */
  lemma MfStopTokenSpec(g: DependencyGraph, p: nat)
    requires p < |g.nodes|
    ensures MfStopToken(g, p).None? <==> forall x :: 0 <= x < p ==> Holds(g, x, MfPasses)
    ensures MfStopToken(g, p).Some? ==>
      var k := MfStopToken(g, p).value;
      k < p && !Holds(g, k, MfPasses) && forall x :: k < x < p ==> Holds(g, x, MfPasses)
  {
    var tokens := AdjacentTokens(g, p, Preceding);
    LeadingSpec(g, tokens, MfPasses);
    var i := Leading(g, tokens, MfPasses);
    assert forall j :: 0 <= j < |tokens| ==> tokens[j] == p - 1 - j;
    if i == |tokens| {
      forall x | 0 <= x < p
        ensures Holds(g, x, MfPasses)
      {
        assert tokens[p - 1 - x] == x;
      }
    } else {
      var k := tokens[i];
      forall x | k < x < p
        ensures Holds(g, x, MfPasses)
      {
        assert tokens[p - 1 - x] == x;
      }
    }
  }

  /** The MF competitors, seen declaratively. */
  lemma CompetitionMfSpec(g: DependencyGraph, p: nat, head: nat)
    requires WellFormed(g) && Acyclic(g) && p < |g.nodes|
    ensures CompetitionMf(g, p, head) ==
      var tokens := AdjacentTokens(g, p, Preceding);
      var i := Leading(g, tokens, MfPasses);
      if i == |tokens| then None else MfStop(g, tokens[i], head, Ranked(head, RelevantNodes(g, tokens[..i]), 0))
  {
    var tokens := AdjacentTokens(g, p, Preceding);
    var i := Leading(g, tokens, MfPasses);
    MfScanSpec(g, head, tokens, []);
    assert [] + Ranked(head, RelevantNodes(g, tokens[..i]), 0) == Ranked(head, RelevantNodes(g, tokens[..i]), 0);
  }

  /** The stop token `k` gives no result: it lacks a POS tag or a field, or it is not a finite verb and not a complementizer with a right bracket. */
  predicate MfStopFails(g: DependencyGraph, k: nat)
    requires WellFormed(g) && Acyclic(g) && k < |g.nodes|
  {
    || Pos(g, k).None?
    || Tf(g, k).None?
    || (Pos(g, k).value !in FiniteVerbTags && (Tf(g, k).value != TopoCField || CToVc(g, k).None?))
  }

  /**
   * `find_competition_mf` gives up iff the scan reaches the sentence start
   * or stops at a token that gives no result.
   */
  lemma CompetitionMfNone(g: DependencyGraph, p: nat, head: nat)
    requires WellFormed(g) && Acyclic(g) && p < |g.nodes|
    ensures CompetitionMf(g, p, head).None? <==>
      MfStopToken(g, p).None? || MfStopFails(g, MfStopToken(g, p).value)
  {
    CompetitionMfSpec(g, p, head);
  }

  /** The tokens the MF scan passes over before it stops. */
  function MfScanned(g: DependencyGraph, p: nat): seq<nat>
    requires p < |g.nodes|
  {
    var tokens := AdjacentTokens(g, p, Preceding);
    tokens[..Leading(g, tokens, MfPasses)]
  }

  /** The candidates the MF scan collects before the stop token. */
  function MfCollected(g: DependencyGraph, p: nat, head: nat): seq<CompetingHead>
    requires p < |g.nodes|
  {
    Ranked(head, RelevantNodes(g, MfScanned(g, p)), 0)
  }

  /** The passed tokens are `p - 1`, `p - 2`, ... down to just above the stop token. */
  lemma MfScannedSpec(g: DependencyGraph, p: nat)
    requires p < |g.nodes|
    ensures var scanned := MfScanned(g, p);
      && NodesIn(g, scanned)
      && Decreasing(scanned)
      && (forall j :: 0 <= j < |scanned| ==> scanned[j] == p - 1 - j && Holds(g, scanned[j], MfPasses))
      && (MfStopToken(g, p).Some? ==> MfStopToken(g, p).value == p - 1 - |scanned|)
  {
    var tokens := AdjacentTokens(g, p, Preceding);
    LeadingSpec(g, tokens, MfPasses);
    var scanned := MfScanned(g, p);
    forall j | 0 <= j < |scanned|
      ensures scanned[j] == p - 1 - j && Holds(g, scanned[j], MfPasses)
    {
      assert scanned[j] == tokens[j];
      assert Holds(g, tokens[j], MfPasses);
    }
  }

  /** A successful stop appends one candidate to those collected. */
  lemma MfStopAppends(g: DependencyGraph, k: nat, head: nat, c: seq<CompetingHead>)
    requires WellFormed(g) && Acyclic(g) && k < |g.nodes|
    requires MfStop(g, k, head, c).Some?
    ensures var r := MfStop(g, k, head, c).value;
      |r| == |c| + 1 && r[..|c|] == c
  {
  }

  /** The MF competitors are the collected candidates followed by the outcome at the stop token. */
  lemma MfParts(g: DependencyGraph, p: nat, head: nat)
    requires WellFormed(g) && Acyclic(g) && p < |g.nodes|
    requires CompetitionMf(g, p, head).Some?
    ensures MfStopToken(g, p).Some?
    ensures var cands := CompetitionMf(g, p, head).value;
      var collected := MfCollected(g, p, head);
      && MfStop(g, MfStopToken(g, p).value, head, collected) == Some(cands)
      && |cands| == |collected| + 1
      && (forall j :: 0 <= j < |collected| ==> cands[j] == collected[j])
  {
    CompetitionMfSpec(g, p, head);
    var cands := CompetitionMf(g, p, head).value;
    var collected := MfCollected(g, p, head);
    MfStopAppends(g, MfStopToken(g, p).value, head, collected);
    assert forall j :: 0 <= j < |collected| ==> cands[j] == cands[..|collected|][j];
  }

  /** Every MF candidate before the last is ranked by its position and flags the gold head. */
  lemma CompetitionMfRanks(g: DependencyGraph, p: nat, head: nat)
    requires WellFormed(g) && Acyclic(g) && p < |g.nodes|
    requires CompetitionMf(g, p, head).Some?
    ensures var cands := CompetitionMf(g, p, head).value;
      forall j :: 0 <= j < |cands| - 1 ==> cands[j].rank == -(j + 1) && cands[j].head == (cands[j].node == head)
  {
    MfParts(g, p, head);
    MfScannedSpec(g, p);
    RankedAt(head, RelevantNodes(g, MfScanned(g, p)), 0);
  }

  /**
   * Every MF candidate before the last is a relevant token strictly between
   * the stop token and the PP whose field is MF or UK.
   */
  lemma CompetitionMfPlaces(g: DependencyGraph, p: nat, head: nat)
    requires WellFormed(g) && Acyclic(g) && p < |g.nodes|
    requires CompetitionMf(g, p, head).Some?
    ensures MfStopToken(g, p).Some?
    ensures var cands := CompetitionMf(g, p, head).value;
      var k := MfStopToken(g, p).value;
      forall j :: 0 <= j < |cands| - 1 ==>
        k < cands[j].node < p && RelevantAt(g, cands[j].node) && Tf(g, cands[j].node) in {Some("MF"), Some("UK")}
  {
    MfParts(g, p, head);
    MfScannedSpec(g, p);
    var scanned := MfScanned(g, p);
    var nodes := RelevantNodes(g, scanned);
    RankedAt(head, nodes, 0);
    RelevantNodesMembers(g, scanned);
    var cands := CompetitionMf(g, p, head).value;
    forall j | 0 <= j < |cands| - 1
      ensures MfStopToken(g, p).value < cands[j].node < p
      ensures RelevantAt(g, cands[j].node) && Tf(g, cands[j].node) in {Some("MF"), Some("UK")}
    {
      assert cands[j].node == nodes[j];
      assert nodes[j] in nodes;
      var i :| 0 <= i < |scanned| && scanned[i] == nodes[j];
    }
  }

  /** The MF candidates before the last are nearest first. */
  lemma CompetitionMfOrder(g: DependencyGraph, p: nat, head: nat)
    requires WellFormed(g) && Acyclic(g) && p < |g.nodes|
    requires CompetitionMf(g, p, head).Some?
    ensures var cands := CompetitionMf(g, p, head).value;
      forall i, j :: 0 <= i < j < |cands| - 1 ==> cands[i].node > cands[j].node
  {
    MfParts(g, p, head);
    MfScannedSpec(g, p);
    var nodes := RelevantNodes(g, MfScanned(g, p));
    RankedAt(head, nodes, 0);
    RelevantNodesDecreasing(g, MfScanned(g, p));
  }

  /** Every relevant token between the stop token and the PP is an MF candidate. */
  lemma CompetitionMfComplete(g: DependencyGraph, p: nat, head: nat)
    requires WellFormed(g) && Acyclic(g) && p < |g.nodes|
    requires CompetitionMf(g, p, head).Some?
    ensures MfStopToken(g, p).Some?
    ensures var cands := CompetitionMf(g, p, head).value;
      var k := MfStopToken(g, p).value;
      forall x :: k < x < p && RelevantAt(g, x) ==> exists j :: 0 <= j < |cands| - 1 && cands[j].node == x
  {
    MfParts(g, p, head);
    MfScannedSpec(g, p);
    var scanned := MfScanned(g, p);
    var nodes := RelevantNodes(g, scanned);
    RankedAt(head, nodes, 0);
    RelevantNodesMembers(g, scanned);
    var cands := CompetitionMf(g, p, head).value;
    forall x | MfStopToken(g, p).value < x < p && RelevantAt(g, x)
      ensures exists j :: 0 <= j < |cands| - 1 && cands[j].node == x
    {
      assert scanned[p - 1 - x] == x;
      var j :| 0 <= j < |nodes| && nodes[j] == x;
      assert cands[j].node == x;
    }
  }

  /**
   * The last MF candidate is the resolved stop token when that is a finite
   * verb (ranked by its position unless it resolved to another verb), and
   * otherwise the resolved right bracket of the stop token, a complementizer.
   */
  lemma CompetitionMfLast(g: DependencyGraph, p: nat, head: nat)
    requires WellFormed(g) && Acyclic(g) && p < |g.nodes|
    requires CompetitionMf(g, p, head).Some?
    ensures MfStopToken(g, p).Some? && |CompetitionMf(g, p, head).value| > 0
    ensures var cands := CompetitionMf(g, p, head).value;
      var k := MfStopToken(g, p).value;
      var last := cands[|cands| - 1];
      && last.head == (last.node == head)
      && Pos(g, k).Some? && Tf(g, k).Some?
      && if Pos(g, k).value in FiniteVerbTags
         then last.node == ResolveVerb(g, k) && last.rank == (if last.node == k then -|cands| else 1)
         else Tf(g, k) == Some(TopoCField) && CToVc(g, k).Some? &&
              last.node == ResolveVerb(g, CToVc(g, k).value) && last.rank == 1
  {
    MfParts(g, p, head);
  }

  // ---------------------------------------------------------------------
  // find_competition_vf
  // ---------------------------------------------------------------------

  /** The left bracket is the nearest following token whose field is "LK". */
  lemma LeftBracketSpec(g: DependencyGraph, p: nat)
    requires p < |g.nodes|
    ensures LeftBracket(g, p).None? <==> forall x :: p < x < |g.nodes| ==> Tf(g, x) != Some("LK")
    ensures LeftBracket(g, p).Some? ==>
      var lk := LeftBracket(g, p).value;
      p < lk && Tf(g, lk) == Some("LK") && forall x :: p < x < lk ==> Tf(g, x) != Some("LK")
  {
    var following := AdjacentTokens(g, p, Succeeding);
    LeadingSpec(g, following, NotField("LK"));
    assert forall j :: 0 <= j < |following| ==> following[j] == p + 1 + j;
    if LeftBracket(g, p).None? {
      forall x | p < x < |g.nodes|
        ensures Tf(g, x) != Some("LK")
      {
        assert following[x - p - 1] == x;
        assert Holds(g, following[x - p - 1], NotField("LK"));
      }
    } else {
      var lk := LeftBracket(g, p).value;
      forall x | p < x < lk
        ensures Tf(g, x) != Some("LK")
      {
        assert following[x - p - 1] == x;
        assert Holds(g, following[x - p - 1], NotField("LK"));
      }
    }
  }

  /** `find_competition_vf` gives up iff no token after the PP has the field "LK". */
  lemma CompetitionVfNone(g: DependencyGraph, p: nat, head: nat)
    requires WellFormed(g) && Acyclic(g) && p < |g.nodes|
    requires VfUnwrapSafe(g, p)
    ensures CompetitionVf(g, p, head).None? <==> forall x :: p < x < |g.nodes| ==> Tf(g, x) != Some("LK")
  {
    LeftBracketSpec(g, p);
  }

  /** The preceding token is the one just before the PP. */
  lemma PrecedingIsNounSpec(g: DependencyGraph, p: nat)
    requires p < |g.nodes| && (p > 0 ==> Pos(g, p - 1).Some?)
    ensures PrecedingIsNoun(g, p) <==> p > 0 && |Pos(g, p - 1).value| > 0 && Pos(g, p - 1).value[0] == 'N'
  {
    if p > 0 {
      var tag := Pos(g, p - 1).value;
      assert AdjacentTokens(g, p, Preceding)[0] == p - 1;
      if |tag| > 0 && tag[0] == 'N' {
        assert tag[..1] == "N";
      }
    }
  }

  /** A token that `add_tokens` scans past after `take_while` on `allowed`: it has a field in `allowed` and a POS tag. */
  predicate InRun(g: DependencyGraph, k: nat, allowed: set<string>)
    requires k < |g.nodes|
  {
    Tf(g, k).Some? && Tf(g, k).value in allowed && Pos(g, k).Some?
  }

  /** Every token in `lo .. hi - 1` is `InRun`. */
  predicate RunBetween(g: DependencyGraph, lo: nat, hi: nat, allowed: set<string>)
    requires hi <= |g.nodes|
  {
    forall y :: lo <= y < hi ==> InRun(g, y, allowed)
  }

  /** The tokens `add_tokens` scans after `take_while`: the longest prefix of tokens in the run. */
  lemma ScannedRun(g: DependencyGraph, s: seq<nat>, allowed: set<string>)
    requires NodesIn(g, s)
    ensures var t := TakeWhileFields(g, s, allowed);
      var scanned := Scanned(g, t);
      && scanned == s[..|scanned|]
      && (forall j :: 0 <= j < |scanned| ==> InRun(g, s[j], allowed))
      && (|scanned| < |s| ==> !InRun(g, s[|scanned|], allowed))
  {
    var t := TakeWhileFields(g, s, allowed);
    TakeWhileFieldsSpec(g, s, allowed);
    ScannedSpec(g, t);
    var scanned := Scanned(g, t);
    forall j | 0 <= j < |scanned|
      ensures InRun(g, s[j], allowed)
    {
      assert s[j] == t[j] == scanned[j];
    }
    if |scanned| < |t| {
      assert s[|scanned|] == t[|scanned|];
    }
  }

  /** `add_tokens` on the tokens before `p` ranks by position and flags the gold head. */
  lemma PrecedingRunRanks(g: DependencyGraph, p: nat, head: nat, allowed: set<string>, base: nat)
    requires p < |g.nodes|
    ensures var added := PrecedingRun(g, p, head, allowed, base);
      forall j :: 0 <= j < |added| ==> added[j].rank == -(base + j + 1) && added[j].head == (added[j].node == head)
  {
    AddedCandidatesRanks(g, head, TakeWhileFields(g, AdjacentTokens(g, p, Preceding), allowed), base);
  }

  /** `add_tokens` on the tokens after `lk` ranks by position and flags the gold head. */
  lemma SucceedingRunRanks(g: DependencyGraph, lk: nat, head: nat, allowed: set<string>, base: nat)
    requires lk < |g.nodes|
    ensures var added := SucceedingRun(g, lk, head, allowed, base);
      forall j :: 0 <= j < |added| ==> added[j].rank == -(base + j + 1) && added[j].head == (added[j].node == head)
  {
    AddedCandidatesRanks(g, head, TakeWhileFields(g, AdjacentTokens(g, lk, Succeeding), allowed), base);
  }

  /** `add_tokens` on the tokens before `p` only adds tokens before `p`. */
  lemma PrecedingRunPlaces(g: DependencyGraph, p: nat, head: nat, allowed: set<string>, base: nat)
    requires p < |g.nodes|
    ensures var added := PrecedingRun(g, p, head, allowed, base);
      forall j :: 0 <= j < |added| ==> added[j].node < p
  {
    var t := TakeWhileFields(g, AdjacentTokens(g, p, Preceding), allowed);
    var scanned := Scanned(g, t);
    var added := PrecedingRun(g, p, head, allowed, base);
    assert added == AddedCandidates(g, head, t, base);
    ScannedSpec(g, t);
    AddedCandidatesElements(g, head, t, base);
    forall j | 0 <= j < |added|
      ensures added[j].node < p
    {
      assert added[j].node in scanned;
    }
  }

  /** `add_tokens` on the tokens before `p` adds them nearest first. */
  lemma PrecedingRunOrder(g: DependencyGraph, p: nat, head: nat, allowed: set<string>, base: nat)
    requires p < |g.nodes|
    ensures var added := PrecedingRun(g, p, head, allowed, base);
      forall i, j :: 0 <= i < j < |added| ==> added[i].node > added[j].node
  {
    var t := TakeWhileFields(g, AdjacentTokens(g, p, Preceding), allowed);
    assert PrecedingRun(g, p, head, allowed, base) == AddedCandidates(g, head, t, base);
    assert forall j :: 0 <= j < |t| ==> t[j] == p - 1 - j;
    AddedCandidatesOrder(g, head, t, base);
  }

  /**
   * A token `x` before `p` is added by `add_tokens` on the tokens before
   * `p` whose field is in `allowed` iff it is relevant and every token from
   * `x` up to the PP is in the run.
   */
  lemma PrecedingRunMembers(g: DependencyGraph, p: nat, head: nat, allowed: set<string>, base: nat)
    requires p < |g.nodes|
    ensures var added := PrecedingRun(g, p, head, allowed, base);
      forall x :: 0 <= x < p ==>
        (Among(added, 0, x) <==> RelevantAt(g, x) && RunBetween(g, x, p, allowed))
  {
    var s := AdjacentTokens(g, p, Preceding);
    var t := TakeWhileFields(g, s, allowed);
    var scanned := Scanned(g, t);
    var added := PrecedingRun(g, p, head, allowed, base);
    assert added == AddedCandidates(g, head, t, base);
    assert forall j :: 0 <= j < |s| ==> s[j] == p - 1 - j;
    ScannedRun(g, s, allowed);
    AddedCandidatesElements(g, head, t, base);
    AddedCandidatesComplete(g, head, t, base);
    forall x | 0 <= x < p
      ensures Among(added, 0, x) ==> RelevantAt(g, x) && RunBetween(g, x, p, allowed)
      ensures RelevantAt(g, x) && RunBetween(g, x, p, allowed) ==> Among(added, 0, x)
    {
      if Among(added, 0, x) {
        var j :| 0 <= j < |added| && added[j].node == x;
        assert x in scanned;
        var i :| 0 <= i < |scanned| && scanned[i] == x;
        forall y | x <= y < p
          ensures InRun(g, y, allowed)
        {
          assert s[p - 1 - y] == y;
        }
      }
      if RelevantAt(g, x) && RunBetween(g, x, p, allowed) {
        var i := p - 1 - x;
        if |scanned| <= i {
          assert false;
        }
        assert scanned[i] == x;
      }
    }
  }

  /** `add_tokens` on the tokens after `lk` only adds tokens after `lk`. */
  lemma SucceedingRunPlaces(g: DependencyGraph, lk: nat, head: nat, allowed: set<string>, base: nat)
    requires lk < |g.nodes|
    ensures var added := SucceedingRun(g, lk, head, allowed, base);
      forall j :: 0 <= j < |added| ==> lk < added[j].node < |g.nodes|
  {
    var t := TakeWhileFields(g, AdjacentTokens(g, lk, Succeeding), allowed);
    var scanned := Scanned(g, t);
    var added := SucceedingRun(g, lk, head, allowed, base);
    assert added == AddedCandidates(g, head, t, base);
    ScannedSpec(g, t);
    AddedCandidatesElements(g, head, t, base);
    forall j | 0 <= j < |added|
      ensures lk < added[j].node < |g.nodes|
    {
      assert added[j].node in scanned;
    }
  }

  /** `add_tokens` on the tokens after `lk` adds them in sentence order. */
  lemma SucceedingRunOrder(g: DependencyGraph, lk: nat, head: nat, allowed: set<string>, base: nat)
    requires lk < |g.nodes|
    ensures var added := SucceedingRun(g, lk, head, allowed, base);
      forall i, j :: 0 <= i < j < |added| ==> added[i].node < added[j].node
  {
    var t := TakeWhileFields(g, AdjacentTokens(g, lk, Succeeding), allowed);
    assert SucceedingRun(g, lk, head, allowed, base) == AddedCandidates(g, head, t, base);
    assert forall j :: 0 <= j < |t| ==> t[j] == lk + 1 + j;
    AddedCandidatesOrder(g, head, t, base);
  }

  /**
   * A token `x` after the left bracket `lk` is added by `add_tokens` on the
   * tokens after `lk` whose field is in `allowed` iff it is relevant and
   * every token after `lk` up to `x` is in the run.
   */
  lemma SucceedingRunMembers(g: DependencyGraph, lk: nat, head: nat, allowed: set<string>, base: nat)
    requires lk < |g.nodes|
    ensures var added := SucceedingRun(g, lk, head, allowed, base);
      forall x :: lk < x < |g.nodes| ==>
        (Among(added, 0, x) <==> RelevantAt(g, x) && RunBetween(g, lk + 1, x + 1, allowed))
  {
    var s := AdjacentTokens(g, lk, Succeeding);
    var t := TakeWhileFields(g, s, allowed);
    var scanned := Scanned(g, t);
    var added := SucceedingRun(g, lk, head, allowed, base);
    assert added == AddedCandidates(g, head, t, base);
    assert |s| == |g.nodes| - lk - 1;
    assert forall j :: 0 <= j < |s| ==> s[j] == lk + 1 + j;
    ScannedRun(g, s, allowed);
    AddedCandidatesElements(g, head, t, base);
    AddedCandidatesComplete(g, head, t, base);
    forall x | lk < x < |g.nodes|
      ensures Among(added, 0, x) ==> RelevantAt(g, x) && RunBetween(g, lk + 1, x + 1, allowed)
      ensures RelevantAt(g, x) && RunBetween(g, lk + 1, x + 1, allowed) ==> Among(added, 0, x)
    {
      if Among(added, 0, x) {
        var j :| 0 <= j < |added| && added[j].node == x;
        assert x in scanned;
        var i :| 0 <= i < |scanned| && scanned[i] == x;
        forall y | lk + 1 <= y < x + 1
          ensures InRun(g, y, allowed)
        {
          assert s[y - lk - 1] == y;
        }
      }
      if RelevantAt(g, x) && RunBetween(g, lk + 1, x + 1, allowed) {
        var i := x - lk - 1;
        if |scanned| <= i {
          assert false;
        }
        assert scanned[i] == x;
      }
    }
  }

  /** After a noun, the candidates after the first are the VF/UK run. */
  lemma VfTailNoun(g: DependencyGraph, p: nat, lk: nat, head: nat)
    requires WellFormed(g) && Acyclic(g) && p < lk < |g.nodes|
    requires p > 0 ==> Pos(g, p - 1).Some?
    requires PrecedingIsNoun(g, p)
    ensures |VfCandidates(g, p, lk, head)| > 0 && VfCandidates(g, p, lk, head)[1..] == PrecedingRun(g, p, head, {"VF", "UK"}, 1)
  {

  }

  /** Otherwise, they are the VF/UK run followed by the MF/UK run. */
  lemma VfTailOther(g: DependencyGraph, p: nat, lk: nat, head: nat)
    requires WellFormed(g) && Acyclic(g) && p < lk < |g.nodes|
    requires p > 0 ==> Pos(g, p - 1).Some?
    requires !PrecedingIsNoun(g, p)
    ensures |VfCandidates(g, p, lk, head)| > 0 && VfCandidates(g, p, lk, head)[1..] == PrecedingRun(g, p, head, {"VF", "UK"}, 1) + SucceedingRun(g, lk, head, {"MF", "UK"}, 1 + |PrecedingRun(g, p, head, {"VF", "UK"}, 1)|)
  {

  }

  /** Ranks by position and head flags carry over from the two runs to the whole list. */
  lemma ConcatRanks(cands: seq<CompetingHead>, before: seq<CompetingHead>, after: seq<CompetingHead>, head: nat)
    requires |cands| > 0 && cands[1..] == before + after
    requires forall j :: 0 <= j < |before| ==>
      before[j].rank == -(1 + j + 1) && before[j].head == (before[j].node == head)
    requires forall j :: 0 <= j < |after| ==>
      after[j].rank == -(1 + |before| + j + 1) && after[j].head == (after[j].node == head)
    ensures forall j :: 1 <= j < |cands| ==>
      cands[j].rank == -(j + 1) && cands[j].head == (cands[j].node == head)
  {
    var m := 1 + |before|;
    assert forall j :: 1 <= j < |cands| ==> cands[j] == cands[1..][j - 1];
    assert forall j :: 1 <= j < m ==> cands[j] == before[j - 1];
    assert forall j :: m <= j < |cands| ==> cands[j] == after[j - m];
  }

  /** Node positions carry over from the two runs to the whole list. */
  lemma ConcatPlaces(cands: seq<CompetingHead>, before: seq<CompetingHead>, after: seq<CompetingHead>,
                     p: nat, lk: nat, n: nat, afterAllowed: bool)
    requires |cands| > 0 && cands[1..] == before + after
    requires !afterAllowed ==> after == []
    requires forall j :: 0 <= j < |before| ==> before[j].node < p
    requires forall j :: 0 <= j < |after| ==> lk < after[j].node < n
    ensures forall j :: 1 <= j < |cands| ==>
      cands[j].node < p || (afterAllowed && lk < cands[j].node < n)
  {
    var m := 1 + |before|;
    assert forall j :: 1 <= j < |cands| ==> cands[j] == cands[1..][j - 1];
    assert forall j :: 1 <= j < m ==> cands[j] == before[j - 1];
    assert forall j :: m <= j < |cands| ==> cands[j] == after[j - m];
  }

  /** The run before `p` (decreasing) comes first, the run after `lk` (increasing) second. */
  lemma ConcatOrder(cands: seq<CompetingHead>, before: seq<CompetingHead>, after: seq<CompetingHead>, p: nat, lk: nat)
    requires |cands| > 0 && cands[1..] == before + after
    requires p < lk
    requires forall j :: 0 <= j < |before| ==> before[j].node < p
    requires forall i, j :: 0 <= i < j < |before| ==> before[i].node > before[j].node
    requires forall j :: 0 <= j < |after| ==> lk < after[j].node
    requires forall i, j :: 0 <= i < j < |after| ==> after[i].node < after[j].node
    ensures forall i, j :: 1 <= i < j < |cands| ==>
      && (cands[j].node < p ==> cands[i].node > cands[j].node)
      && (cands[i].node > p ==> cands[i].node < cands[j].node)
  {
    var m := 1 + |before|;
    assert forall j :: 1 <= j < |cands| ==> cands[j] == cands[1..][j - 1];
    assert forall j :: 1 <= j < m ==> cands[j] == before[j - 1];
    assert forall j :: m <= j < |cands| ==> cands[j] == after[j - m];
  }

  /** A node before `p` occurs after the leading candidate iff it occurs in the run `before`. */
  lemma ConcatRunsBefore(cands: seq<CompetingHead>, before: seq<CompetingHead>, after: seq<CompetingHead>, p: nat, x: nat)
    requires |cands| > 0 && cands[1..] == before + after
    requires x < p
    requires forall j :: 0 <= j < |after| ==> p < after[j].node
    ensures Among(cands, 1, x) <==> Among(before, 0, x)
  {
    var m := 1 + |before|;
    assert forall j :: 1 <= j < |cands| ==> cands[j] == cands[1..][j - 1];
    assert forall j :: m <= j < |cands| ==> cands[j] == after[j - m];
    if Among(cands, 1, x) {
      var j :| 1 <= j < |cands| && cands[j].node == x;
      if j < m {
        assert cands[j] == before[j - 1];
      } else {
        assert false;
      }
    }
    if Among(before, 0, x) {
      var j :| 0 <= j < |before| && before[j].node == x;
      assert cands[j + 1] == before[j];
    }
  }

  /** A node after `lk` occurs after the leading candidate iff it occurs in the run `after`. */
  lemma ConcatRunsAfter(cands: seq<CompetingHead>, before: seq<CompetingHead>, after: seq<CompetingHead>, lk: nat, x: nat)
    requires |cands| > 0 && cands[1..] == before + after
    requires lk < x
    requires forall j :: 0 <= j < |before| ==> before[j].node < lk
    ensures Among(cands, 1, x) <==> Among(after, 0, x)
  {
    var m := 1 + |before|;
    assert forall j :: 1 <= j < |cands| ==> cands[j] == cands[1..][j - 1];
    assert forall j :: 1 <= j < m ==> cands[j] == before[j - 1];
    if Among(cands, 1, x) {
      var j :| 1 <= j < |cands| && cands[j].node == x;
      if j < m {
        assert false;
      } else {
        assert cands[j] == after[j - m];
      }
    }
    if Among(after, 0, x) {
      var j :| 0 <= j < |after| && after[j].node == x;
      assert cands[j + m] == after[j];
    }
  }

  /** The candidates before `p` are those of the run before the PP. */
  lemma ConcatBeforeAll(g: DependencyGraph, cands: seq<CompetingHead>, before: seq<CompetingHead>,
                        after: seq<CompetingHead>, p: nat, allowed: set<string>)
    requires |cands| > 0 && cands[1..] == before + after && p <= |g.nodes|
    requires forall j :: 0 <= j < |after| ==> p < after[j].node
    requires forall x :: 0 <= x < p ==>
      (Among(before, 0, x) <==> RelevantAt(g, x) && RunBetween(g, x, p, allowed))
    ensures forall x :: 0 <= x < p ==>
      (Among(cands, 1, x) <==> RelevantAt(g, x) && RunBetween(g, x, p, allowed))
  {
    forall x | 0 <= x < p
      ensures Among(cands, 1, x) <==> RelevantAt(g, x) && RunBetween(g, x, p, allowed)
    {
      ConcatRunsBefore(cands, before, after, p, x);
    }
  }

  /**
   * When `find_competition_vf` succeeds, its first candidate is the resolved
   * verb of the left bracket, ranked 1 and flagged iff the gold head is that
   * verb or one of its ancestors.
   */
  lemma CompetitionVfFirst(g: DependencyGraph, p: nat, head: nat)
    requires WellFormed(g) && Acyclic(g) && p < |g.nodes|
    requires VfUnwrapSafe(g, p)
    requires CompetitionVf(g, p, head).Some?
    ensures LeftBracket(g, p).Some?
    ensures var cands := CompetitionVf(g, p, head).value;
      var verb := ResolveVerb(g, LeftBracket(g, p).value);
      |cands| > 0 && cands[0] == CompetingHead(verb, 1, verb == head || head in AncestorTokens(g, verb))
  {
    assert CompetitionVf(g, p, head).value == VfCandidates(g, p, LeftBracket(g, p).value, head);
  }

  lemma CandidatesRanksNoun(g: DependencyGraph, p: nat, lk: nat, head: nat)
    requires WellFormed(g) && Acyclic(g) && p < lk < |g.nodes|
    requires p > 0 ==> Pos(g, p - 1).Some?
    requires PrecedingIsNoun(g, p)
    ensures forall j :: 1 <= j < |VfCandidates(g, p, lk, head)| ==> VfCandidates(g, p, lk, head)[j].rank == -(j + 1) && VfCandidates(g, p, lk, head)[j].head == (VfCandidates(g, p, lk, head)[j].node == head)
  {
    VfTailNoun(g, p, lk, head);
    PrecedingRunRanks(g, p, head, {"VF", "UK"}, 1);
    ConcatRanks(VfCandidates(g, p, lk, head), PrecedingRun(g, p, head, {"VF", "UK"}, 1), [], head);
  }

  lemma CandidatesRanksOther(g: DependencyGraph, p: nat, lk: nat, head: nat)
    requires WellFormed(g) && Acyclic(g) && p < lk < |g.nodes|
    requires p > 0 ==> Pos(g, p - 1).Some?
    requires !PrecedingIsNoun(g, p)
    ensures forall j :: 1 <= j < |VfCandidates(g, p, lk, head)| ==> VfCandidates(g, p, lk, head)[j].rank == -(j + 1) && VfCandidates(g, p, lk, head)[j].head == (VfCandidates(g, p, lk, head)[j].node == head)
  {
    VfTailOther(g, p, lk, head);
    PrecedingRunRanks(g, p, head, {"VF", "UK"}, 1);
    SucceedingRunRanks(g, lk, head, {"MF", "UK"}, 1 + |PrecedingRun(g, p, head, {"VF", "UK"}, 1)|);
    ConcatRanks(VfCandidates(g, p, lk, head), PrecedingRun(g, p, head, {"VF", "UK"}, 1), SucceedingRun(g, lk, head, {"MF", "UK"}, 1 + |PrecedingRun(g, p, head, {"VF", "UK"}, 1)|), head);
  }

  /** Every candidate after the first is ranked by its position and flagged iff it is the gold head. */
  lemma CompetitionVfRanks(g: DependencyGraph, p: nat, head: nat)
    requires WellFormed(g) && Acyclic(g) && p < |g.nodes|
    requires VfUnwrapSafe(g, p)
    requires CompetitionVf(g, p, head).Some?
    ensures var cands := CompetitionVf(g, p, head).value;
      forall j :: 1 <= j < |cands| ==> cands[j].rank == -(j + 1) && cands[j].head == (cands[j].node == head)
  {
    assert CompetitionVf(g, p, head).value == VfCandidates(g, p, LeftBracket(g, p).value, head);
    if PrecedingIsNoun(g, p) {
      CandidatesRanksNoun(g, p, LeftBracket(g, p).value, head);
    } else {
      CandidatesRanksOther(g, p, LeftBracket(g, p).value, head);
    }
  }

  lemma CandidatesPlacesNoun(g: DependencyGraph, p: nat, lk: nat, head: nat)
    requires WellFormed(g) && Acyclic(g) && p < lk < |g.nodes|
    requires p > 0 ==> Pos(g, p - 1).Some?
    requires PrecedingIsNoun(g, p)
    ensures forall j :: 1 <= j < |VfCandidates(g, p, lk, head)| ==> VfCandidates(g, p, lk, head)[j].node < p
  {
    VfTailNoun(g, p, lk, head);
    PrecedingRunPlaces(g, p, head, {"VF", "UK"}, 1);
    ConcatPlaces(VfCandidates(g, p, lk, head), PrecedingRun(g, p, head, {"VF", "UK"}, 1), [], p, lk, |g.nodes|, false);
  }

  lemma CandidatesPlacesOther(g: DependencyGraph, p: nat, lk: nat, head: nat)
    requires WellFormed(g) && Acyclic(g) && p < lk < |g.nodes|
    requires p > 0 ==> Pos(g, p - 1).Some?
    requires !PrecedingIsNoun(g, p)
    ensures forall j :: 1 <= j < |VfCandidates(g, p, lk, head)| ==> VfCandidates(g, p, lk, head)[j].node < p || lk < VfCandidates(g, p, lk, head)[j].node < |g.nodes|
  {
    VfTailOther(g, p, lk, head);
    PrecedingRunPlaces(g, p, head, {"VF", "UK"}, 1);
    SucceedingRunPlaces(g, lk, head, {"MF", "UK"}, 1 + |PrecedingRun(g, p, head, {"VF", "UK"}, 1)|);
    ConcatPlaces(VfCandidates(g, p, lk, head), PrecedingRun(g, p, head, {"VF", "UK"}, 1), SucceedingRun(g, lk, head, {"MF", "UK"}, 1 + |PrecedingRun(g, p, head, {"VF", "UK"}, 1)|), p, lk, |g.nodes|, true);
  }

  /**
   * Every candidate after the first lies before the PP or, only when no
   * noun precedes the PP, after the left bracket.
   */
  lemma CompetitionVfPlaces(g: DependencyGraph, p: nat, head: nat)
    requires WellFormed(g) && Acyclic(g) && p < |g.nodes|
    requires VfUnwrapSafe(g, p)
    requires CompetitionVf(g, p, head).Some?
    ensures LeftBracket(g, p).Some?
    ensures var cands := CompetitionVf(g, p, head).value;
      var lk := LeftBracket(g, p).value;
      forall j :: 1 <= j < |cands| ==>
        cands[j].node < p || (!PrecedingIsNoun(g, p) && lk < cands[j].node < |g.nodes|)
  {
    assert CompetitionVf(g, p, head).value == VfCandidates(g, p, LeftBracket(g, p).value, head);
    if PrecedingIsNoun(g, p) {
      CandidatesPlacesNoun(g, p, LeftBracket(g, p).value, head);
    } else {
      CandidatesPlacesOther(g, p, LeftBracket(g, p).value, head);
    }
  }

  lemma CandidatesOrderNoun(g: DependencyGraph, p: nat, lk: nat, head: nat)
    requires WellFormed(g) && Acyclic(g) && p < lk < |g.nodes|
    requires p > 0 ==> Pos(g, p - 1).Some?
    requires PrecedingIsNoun(g, p)
    ensures forall i, j :: 1 <= i < j < |VfCandidates(g, p, lk, head)| ==>
      && (VfCandidates(g, p, lk, head)[j].node < p ==> VfCandidates(g, p, lk, head)[i].node > VfCandidates(g, p, lk, head)[j].node)
      && (VfCandidates(g, p, lk, head)[i].node > p ==> VfCandidates(g, p, lk, head)[i].node < VfCandidates(g, p, lk, head)[j].node)
  {
    VfTailNoun(g, p, lk, head);
    PrecedingRunPlaces(g, p, head, {"VF", "UK"}, 1);
    PrecedingRunOrder(g, p, head, {"VF", "UK"}, 1);
    ConcatOrder(VfCandidates(g, p, lk, head), PrecedingRun(g, p, head, {"VF", "UK"}, 1), [], p, lk);
  }

  lemma CandidatesOrderOther(g: DependencyGraph, p: nat, lk: nat, head: nat)
    requires WellFormed(g) && Acyclic(g) && p < lk < |g.nodes|
    requires p > 0 ==> Pos(g, p - 1).Some?
    requires !PrecedingIsNoun(g, p)
    ensures forall i, j :: 1 <= i < j < |VfCandidates(g, p, lk, head)| ==>
      && (VfCandidates(g, p, lk, head)[j].node < p ==> VfCandidates(g, p, lk, head)[i].node > VfCandidates(g, p, lk, head)[j].node)
      && (VfCandidates(g, p, lk, head)[i].node > p ==> VfCandidates(g, p, lk, head)[i].node < VfCandidates(g, p, lk, head)[j].node)
  {
    VfTailOther(g, p, lk, head);
    PrecedingRunPlaces(g, p, head, {"VF", "UK"}, 1);
    PrecedingRunOrder(g, p, head, {"VF", "UK"}, 1);
    SucceedingRunPlaces(g, lk, head, {"MF", "UK"}, 1 + |PrecedingRun(g, p, head, {"VF", "UK"}, 1)|);
    SucceedingRunOrder(g, lk, head, {"MF", "UK"}, 1 + |PrecedingRun(g, p, head, {"VF", "UK"}, 1)|);
    ConcatOrder(VfCandidates(g, p, lk, head), PrecedingRun(g, p, head, {"VF", "UK"}, 1), SucceedingRun(g, lk, head, {"MF", "UK"}, 1 + |PrecedingRun(g, p, head, {"VF", "UK"}, 1)|), p, lk);
  }

  /**
   * The candidates before the PP come right after the first, nearest first;
   * those after the left bracket follow in sentence order.
   */
  lemma CompetitionVfOrder(g: DependencyGraph, p: nat, head: nat)
    requires WellFormed(g) && Acyclic(g) && p < |g.nodes|
    requires VfUnwrapSafe(g, p)
    requires CompetitionVf(g, p, head).Some?
    ensures var cands := CompetitionVf(g, p, head).value;
      forall i, j :: 1 <= i < j < |cands| ==>
        && (cands[j].node < p ==> cands[i].node > cands[j].node)
        && (cands[i].node > p ==> cands[i].node < cands[j].node)
  {
    assert CompetitionVf(g, p, head).value == VfCandidates(g, p, LeftBracket(g, p).value, head);
    if PrecedingIsNoun(g, p) {
      CandidatesOrderNoun(g, p, LeftBracket(g, p).value, head);
    } else {
      CandidatesOrderOther(g, p, LeftBracket(g, p).value, head);
    }
  }

  lemma CandidatesBeforeNoun(g: DependencyGraph, p: nat, lk: nat, head: nat)
    requires WellFormed(g) && Acyclic(g) && p < lk < |g.nodes|
    requires p > 0 ==> Pos(g, p - 1).Some?
    requires PrecedingIsNoun(g, p)
    ensures forall x :: 0 <= x < p ==>
      (Among(VfCandidates(g, p, lk, head), 1, x) <==> RelevantAt(g, x) && RunBetween(g, x, p, {"VF", "UK"}))
  {
    VfTailNoun(g, p, lk, head);
    PrecedingRunMembers(g, p, head, {"VF", "UK"}, 1);
    ConcatBeforeAll(g, VfCandidates(g, p, lk, head), PrecedingRun(g, p, head, {"VF", "UK"}, 1), [], p, {"VF", "UK"});
  }

  lemma CandidatesBeforeOther(g: DependencyGraph, p: nat, lk: nat, head: nat)
    requires WellFormed(g) && Acyclic(g) && p < lk < |g.nodes|
    requires p > 0 ==> Pos(g, p - 1).Some?
    requires !PrecedingIsNoun(g, p)
    ensures forall x :: 0 <= x < p ==>
      (Among(VfCandidates(g, p, lk, head), 1, x) <==> RelevantAt(g, x) && RunBetween(g, x, p, {"VF", "UK"}))
  {
    VfTailOther(g, p, lk, head);
    PrecedingRunMembers(g, p, head, {"VF", "UK"}, 1);
    SucceedingRunPlaces(g, lk, head, {"MF", "UK"}, 1 + |PrecedingRun(g, p, head, {"VF", "UK"}, 1)|);
    ConcatBeforeAll(g, VfCandidates(g, p, lk, head), PrecedingRun(g, p, head, {"VF", "UK"}, 1), SucceedingRun(g, lk, head, {"MF", "UK"}, 1 + |PrecedingRun(g, p, head, {"VF", "UK"}, 1)|), p, {"VF", "UK"});
  }

  /**
   * The candidates after the first that lie before the PP are exactly the
   * relevant tokens `x` such that every token from `x` to the PP has the
   * field VF or UK and a POS tag.
   */
  lemma CompetitionVfBefore(g: DependencyGraph, p: nat, head: nat)
    requires WellFormed(g) && Acyclic(g) && p < |g.nodes|
    requires VfUnwrapSafe(g, p)
    requires CompetitionVf(g, p, head).Some?
    ensures var cands := CompetitionVf(g, p, head).value;
      forall x :: 0 <= x < p ==>
        (Among(cands, 1, x) <==>
           RelevantAt(g, x) && RunBetween(g, x, p, {"VF", "UK"}))
  {
    assert CompetitionVf(g, p, head).value == VfCandidates(g, p, LeftBracket(g, p).value, head);
    if PrecedingIsNoun(g, p) {
      CandidatesBeforeNoun(g, p, LeftBracket(g, p).value, head);
    } else {
      CandidatesBeforeOther(g, p, LeftBracket(g, p).value, head);
    }
  }

  lemma CandidatesAfterOther(g: DependencyGraph, p: nat, lk: nat, head: nat, x: nat)
    requires WellFormed(g) && Acyclic(g) && p < lk < x < |g.nodes|
    requires p > 0 ==> Pos(g, p - 1).Some?
    requires !PrecedingIsNoun(g, p)
    ensures Among(VfCandidates(g, p, lk, head), 1, x) <==>
      RelevantAt(g, x) && RunBetween(g, lk + 1, x + 1, {"MF", "UK"})
  {
    VfTailOther(g, p, lk, head);
    PrecedingRunPlaces(g, p, head, {"VF", "UK"}, 1);
    SucceedingRunMembers(g, lk, head, {"MF", "UK"}, 1 + |PrecedingRun(g, p, head, {"VF", "UK"}, 1)|);
    ConcatRunsAfter(VfCandidates(g, p, lk, head), PrecedingRun(g, p, head, {"VF", "UK"}, 1), SucceedingRun(g, lk, head, {"MF", "UK"}, 1 + |PrecedingRun(g, p, head, {"VF", "UK"}, 1)|), lk, x);
  }

  /**
   * The candidates that lie after the left bracket are exactly, when no
   * noun precedes the PP, the relevant tokens `x` such that every token
   * after the bracket up to `x` has the field MF or UK and a POS tag; when
   * a noun precedes the PP there are none.
   */
  lemma CompetitionVfAfter(g: DependencyGraph, p: nat, head: nat)
    requires WellFormed(g) && Acyclic(g) && p < |g.nodes|
    requires VfUnwrapSafe(g, p)
    requires CompetitionVf(g, p, head).Some?
    ensures LeftBracket(g, p).Some?
    ensures var cands := CompetitionVf(g, p, head).value;
      var lk := LeftBracket(g, p).value;
      forall x :: lk < x < |g.nodes| ==>
        (Among(cands, 1, x) <==>
           !PrecedingIsNoun(g, p) && RelevantAt(g, x) && RunBetween(g, lk + 1, x + 1, {"MF", "UK"}))
  {
    assert CompetitionVf(g, p, head).value == VfCandidates(g, p, LeftBracket(g, p).value, head);
    if PrecedingIsNoun(g, p) {
      CandidatesPlacesNoun(g, p, LeftBracket(g, p).value, head);
    } else {
      forall x | LeftBracket(g, p).value < x < |g.nodes|
        ensures Among(CompetitionVf(g, p, head).value, 1, x) <==>
          RelevantAt(g, x) && RunBetween(g, LeftBracket(g, p).value + 1, x + 1, {"MF", "UK"})
      {
        CandidatesAfterOther(g, p, LeftBracket(g, p).value, head, x);
      }
    }
  }

  // ---------------------------------------------------------------------
  // The selection of print_ambiguous_pps
  // ---------------------------------------------------------------------

  /** The PN dependent found is the target of an outgoing PN edge, and one is found iff such an edge exists. */
  lemma PnDependentSpec(g: DependencyGraph, pp: nat)
    requires WellFormed(g) && pp < |g.nodes|
    ensures FirstMatchingEdge(g, pp, Outgoing, PnEdge).Some? <==>
      exists j :: 0 <= j < |g.edges| && g.edges[j].source == pp && g.edges[j].weight == Relation(Some("PN"))
    ensures FirstMatchingEdge(g, pp, Outgoing, PnEdge).Some? ==>
      && FirstMatchingEdge(g, pp, Outgoing, PnEdge).value < |g.nodes|
      && exists j :: 0 <= j < |g.edges| &&
           g.edges[j] == Edge(pp, FirstMatchingEdge(g, pp, Outgoing, PnEdge).value, Relation(Some("PN")))
  {
    FirstMatchingEdgeSpec(g, pp, Outgoing, PnEdge);
    NeighbourInRange(g, pp, Outgoing, PnEdge);
    if exists j :: 0 <= j < |g.edges| && g.edges[j].source == pp && g.edges[j].weight == Relation(Some("PN")) {
      var j :| 0 <= j < |g.edges| && g.edges[j].source == pp && g.edges[j].weight == Relation(Some("PN"));
      assert Matches(g.edges[j], pp, Outgoing, PnEdge);
    }
    if FirstMatchingEdge(g, pp, Outgoing, PnEdge).Some? {
      var j: nat :| FirstMatchAt(g.edges, pp, Outgoing, PnEdge, 0, j) &&
        Neighbour(g.edges[j], Outgoing) == FirstMatchingEdge(g, pp, Outgoing, PnEdge).value;
      assert g.edges[j] == Edge(pp, FirstMatchingEdge(g, pp, Outgoing, PnEdge).value, Relation(Some("PN")));
    }
  }

  /**
   * An edge is reported iff it is a PP edge whose head has a noun or verb
   * tag, whose PP lies in the chosen field and has a PN dependent, whose
   * PP and PN tokens have a form (or lemma) and a POS tag, and whose
   * competitors are found and, unless all PPs are wanted, are more or fewer
   * than one.
   */
  lemma InstanceForSome(g: DependencyGraph, e: Edge, useLemma: bool, all: bool, field: Field)
    requires WellFormed(g) && Acyclic(g) && field != NF
    requires e.source < |g.nodes| && e.target < |g.nodes| && UnwrapSafe(g, e, useLemma, field)
    ensures InstanceFor(g, e, useLemma, all, field).Some? <==>
      && e.weight == Relation(Some("PP"))
      && RelevantAt(g, e.source)
      && Tf(g, e.target).Some? && FieldFromString(Tf(g, e.target).value) == Some(field)
      && FirstMatchingEdge(g, e.target, Outgoing, PnEdge).Some?
      && var pn := FirstMatchingEdge(g, e.target, Outgoing, PnEdge).value;
      && pn < |g.nodes|
      && ExtractForm(g.nodes[e.target].token, useLemma).Some? && ExtractForm(g.nodes[pn].token, useLemma).Some?
      && Pos(g, e.target).Some? && Pos(g, pn).Some?
      && var competition := if field == VF then CompetitionVf(g, e.target, e.source)
                            else CompetitionMf(g, e.target, e.source);
      && competition.Some?
      && (all || |competition.value| != 1)
  {
    NeighbourInRange(g, e.target, Outgoing, PnEdge);
    if Tf(g, e.target).Some? {
      assert FieldFromString(StringValue(field)) == Some(field);
      assert FieldFromString(Tf(g, e.target).value) == Some(field) ==> Tf(g, e.target).value == StringValue(field);
    }
  }

  /** A reported instance is the PP, its PN dependent and the competitors the chosen field calls for. */
  lemma InstanceForValue(g: DependencyGraph, e: Edge, useLemma: bool, all: bool, field: Field)
    requires WellFormed(g) && Acyclic(g) && field != NF
    requires e.source < |g.nodes| && e.target < |g.nodes| && UnwrapSafe(g, e, useLemma, field)
    requires InstanceFor(g, e, useLemma, all, field).Some?
    ensures var inst := InstanceFor(g, e, useLemma, all, field).value;
      && inst.pp == e.target
      && inst.complement < |g.nodes|
      && (exists j :: 0 <= j < |g.edges| && g.edges[j] == Edge(e.target, inst.complement, Relation(Some("PN"))))
      && inst.candidates == if field == VF then CompetitionVf(g, e.target, e.source).value
                            else CompetitionMf(g, e.target, e.source).value
  {
    PnDependentSpec(g, e.target);
  }

  /** Appending an optional instance adds at most that instance. */
  lemma ReportsStep(before: seq<Instance>, found: Option<Instance>, after: seq<Instance>)
    requires after == before + match found case None => [] case Some(inst) => [inst]
    ensures |after| <= |before| + 1
    ensures forall inst :: inst in after <==> inst in before || found == Some(inst)
  {
  }

  /** The reports are exactly the instances of the edges, at most one per edge. */
  lemma {:induction false} ReportsSpec(g: DependencyGraph, k: nat, useLemma: bool, all: bool, field: Field)
    requires WellFormed(g) && Acyclic(g) && field != NF && AllUnwrapSafe(g, useLemma, field) && k <= |g.edges|
    ensures |Reports(g, k, useLemma, all, field)| <= |g.edges| - k
    ensures forall inst :: inst in Reports(g, k, useLemma, all, field) <==>
      exists j :: k <= j < |g.edges| && InstanceFor(g, g.edges[j], useLemma, all, field) == Some(inst)
    decreases |g.edges| - k
  {
    if k < |g.edges| {
      ReportsSpec(g, k + 1, useLemma, all, field);
      ReportsStep(Reports(g, k + 1, useLemma, all, field), InstanceFor(g, g.edges[k], useLemma, all, field),
                  Reports(g, k, useLemma, all, field));
      forall inst | inst in Reports(g, k, useLemma, all, field)
        ensures exists j :: k <= j < |g.edges| && InstanceFor(g, g.edges[j], useLemma, all, field) == Some(inst)
      {
        if inst !in Reports(g, k + 1, useLemma, all, field) {
          assert InstanceFor(g, g.edges[k], useLemma, all, field) == Some(inst);
        }
      }
    }
  }
}
