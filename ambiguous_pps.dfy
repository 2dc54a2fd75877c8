/**
 * The competing-head finder of src/bin/extract-ambiguous-pps.rs.
 *
 * For a PP (a token attached with the relation "PP") the finder lists the
 * other tokens the PP could plausibly be attached to, using the
 * topological field of each token (the feature "tf"). Each function named
 * like a source operation is its specification; the methods beside them
 * are the source's loops, proved to compute exactly that.
 */
module AmbiguousPps {
  import opened Wrappers
  import opened Graph

  /** The topological fields a PP can be extracted from. */
  datatype Field = VF | MF | NF

  /** `Field::string_value`; there is no NF treatment (the source panics). */
  function StringValue(field: Field): (r: string)
    requires field != NF
    ensures FieldFromString(r) == Some(field)
  {
    match field
    case VF => "VF"
    case MF => assert "MF"[0] != "VF"[0]; "MF"
  }

  /** `STRING_FIELD`: the field named on the command line. */
  function FieldFromString(s: string): Option<Field> {
    if s == "VF" then Some(VF)
    else if s == "MF" then Some(MF)
    else if s == "NF" then Some(NF)
    else None
  }

  const PrepComplRelation: string := "PN"
  const PpRelation: string := "PP"
  const AuxiliaryRelation: string := "AUX"
  const TopoFieldFeature: string := "tf"
  const TopoRkField: string := "VC"
  const TopoCField: string := "C"
  const FiniteVerbTag: string := "VVFIN"
  const FiniteAuxiliaryTag: string := "VAFIN"
  const FiniteModalTag: string := "VMFIN"
  const FiniteVerbTags: set<string> := {FiniteVerbTag, FiniteAuxiliaryTag, FiniteModalTag}

  /** A competing head: a node (by index), its rank and whether it is the gold head. */
  datatype CompetingHead = CompetingHead(node: nat, rank: int, head: bool)

  // ---------------------------------------------------------------------
  // Tags and features
  // ---------------------------------------------------------------------

  predicate StartsWith(s: string, prefix: string) {
    prefix <= s
  }

  /** `relevant_head_tag`: only noun-like and verb-like tokens can be heads. */
  function RelevantHeadTag(tag: string): (r: bool)
    ensures r <==> |tag| > 0 && (tag[0] == 'N' || tag[0] == 'V')
  {
    StartsWith(tag, "N") || StartsWith(tag, "V")
  }

  /** `feature_value`: the value of a feature, None when features, key or value are missing. */
  function FeatureValue(token: Token, feature: string): (r: Option<string>)
    ensures r.None? <==>
      token.features.None? || feature !in token.features.value || token.features.value[feature].None?
    ensures r.Some? ==> token.features.value[feature] == r
  {
    match token.features
    case None => None
    case Some(f) => if feature in f then f[feature] else None
  }

  function Pos(g: DependencyGraph, k: nat): Option<string>
    requires k < |g.nodes|
  {
    g.nodes[k].token.pos
  }

  /** The topological field of node `k`. */
  function Tf(g: DependencyGraph, k: nat): Option<string>
    requires k < |g.nodes|
  {
    FeatureValue(g.nodes[k].token, TopoFieldFeature)
  }

  /** Node `k` has a POS tag and it is a relevant head tag. */
  predicate RelevantAt(g: DependencyGraph, k: nat)
    requires k < |g.nodes|
  {
    Pos(g, k).Some? && RelevantHeadTag(Pos(g, k).value)
  }

  // ---------------------------------------------------------------------
  // resolve_verb
  // ---------------------------------------------------------------------

  const AuxEdge: EdgeFilter := Weight(Relation(Some(AuxiliaryRelation)))

  /** The node reached from `v` across its first outgoing AUX edge. */
  function AuxChild(g: DependencyGraph, v: nat): Option<nat> {
    FirstMatchingEdge(g, v, Outgoing, AuxEdge)
  }

  /**
   * `resolve_verb`: follows AUX edges down from `v` to the verb that has
   * no AUX dependent.
   */
  function ResolveVerb(g: DependencyGraph, v: nat): (r: nat)
    requires WellFormed(g) && Acyclic(g) && v < |g.nodes|
    ensures r < |g.nodes|
    decreases |g.nodes| - Depth(g, v, |g.nodes|)
  {
    match AuxChild(g, v)
    case None => v
    case Some(c) =>
      ChildDeeper(g, v, Some(AuxiliaryRelation));
      ResolveVerb(g, c)
  }

  /** `r` is reached from `v` by following the first AUX edge `steps` times. */
  predicate AuxReaches(g: DependencyGraph, v: nat, r: nat, steps: nat)
    decreases steps
  {
    if steps == 0 then v == r
    else AuxChild(g, v).Some? && AuxReaches(g, AuxChild(g, v).value, r, steps - 1)
  }

  /**
   * `resolve_verb` ends at a verb without an AUX dependent, reached from `v`
   * along AUX edges; a verb without one resolves to itself.
   */
  lemma {:induction false} ResolveVerbSpec(g: DependencyGraph, v: nat)
    requires WellFormed(g) && Acyclic(g) && v < |g.nodes|
    ensures AuxChild(g, ResolveVerb(g, v)).None?
    ensures AuxChild(g, v).None? ==> ResolveVerb(g, v) == v
    ensures exists steps: nat :: AuxReaches(g, v, ResolveVerb(g, v), steps)
    decreases |g.nodes| - Depth(g, v, |g.nodes|)
  {
    match AuxChild(g, v)
    case None =>
      assert AuxReaches(g, v, v, 0);
    case Some(c) =>
      ChildDeeper(g, v, Some(AuxiliaryRelation));
      ResolveVerbSpec(g, c);
      var steps: nat :| AuxReaches(g, c, ResolveVerb(g, c), steps);
      assert AuxReaches(g, v, ResolveVerb(g, v), steps + 1);
  }

  // ---------------------------------------------------------------------
  // Scanning runs of tokens
  // ---------------------------------------------------------------------

  /** The token tests the scans stop at. */
  datatype Rule =
    | InFields(allowed: set<string>)  // the field is one of `allowed`
    | NotField(field: string)         // the field is not `field` (or missing)
    | PosPresent                      // the token has a POS tag
    | MfPasses                        // the MF scan goes on past this token

  predicate Holds(g: DependencyGraph, k: nat, rule: Rule)
    requires k < |g.nodes|
  {
    match rule
    case InFields(allowed) => Tf(g, k).Some? && Tf(g, k).value in allowed
    case NotField(field) => Tf(g, k) != Some(field)
    case PosPresent => Pos(g, k).Some?
    case MfPasses =>
      Pos(g, k).Some? && Pos(g, k).value !in FiniteVerbTags && Tf(g, k) in {Some("MF"), Some("UK")}
  }

  predicate NodesIn(g: DependencyGraph, s: seq<nat>) {
    forall i :: 0 <= i < |s| ==> s[i] < |g.nodes|
  }

  /** The length of the longest prefix of `s` whose tokens satisfy `rule`. */
  function Leading(g: DependencyGraph, s: seq<nat>, rule: Rule): (i: nat)
    requires NodesIn(g, s)
    ensures i <= |s|
  {
    if s == [] || !Holds(g, s[0], rule) then 0 else 1 + Leading(g, s[1..], rule)
  }

  /** The prefix measured by `Leading` satisfies `rule`, and the token after it does not. */
  lemma {:induction false} LeadingSpec(g: DependencyGraph, s: seq<nat>, rule: Rule)
    requires NodesIn(g, s)
    ensures forall j {:trigger Holds(g, s[j], rule)} :: 0 <= j < Leading(g, s, rule) ==> Holds(g, s[j], rule)
    ensures Leading(g, s, rule) < |s| ==> !Holds(g, s[Leading(g, s, rule)], rule)
  {
    if s != [] && Holds(g, s[0], rule) {
      LeadingSpec(g, s[1..], rule);
      assert forall j :: 0 < j < |s| ==> s[j] == s[1..][j - 1];
    }
  }

  /** `take_while` over a field test. */
  function TakeWhileFields(g: DependencyGraph, s: seq<nat>, allowed: set<string>): (r: seq<nat>)
    requires NodesIn(g, s)
    ensures NodesIn(g, r)
  {
    s[..Leading(g, s, InFields(allowed))]
  }

  predicate Decreasing(s: seq<nat>) {
    forall i, j :: 0 <= i < j < |s| ==> s[i] > s[j]
  }

  predicate Increasing(s: seq<nat>) {
    forall i, j :: 0 <= i < j < |s| ==> s[i] < s[j]
  }

  /** The tokens of `s` with a relevant head tag, in the order of `s`. */
  function RelevantNodes(g: DependencyGraph, s: seq<nat>): (r: seq<nat>)
    requires NodesIn(g, s)
    ensures |r| <= |s|
  {
    if s == [] then []
    else
      var r := RelevantNodes(g, s[..|s| - 1]);
      if RelevantAt(g, s[|s| - 1]) then r + [s[|s| - 1]] else r
  }

  /** Candidates for `nodes`, ranked `-(base + 1)`, `-(base + 2)`, ... in that order. */
  function Ranked(head: nat, nodes: seq<nat>, base: nat): (r: seq<CompetingHead>)
    ensures |r| == |nodes|
  {
    if nodes == [] then []
    else
      var last := nodes[|nodes| - 1];
      Ranked(head, nodes[..|nodes| - 1], base) + [CompetingHead(last, -(base + |nodes|), last == head)]
  }

  /** The tokens `add_tokens` scans: those before the first token without a POS tag. */
  function Scanned(g: DependencyGraph, tokens: seq<nat>): (r: seq<nat>)
    requires NodesIn(g, tokens)
    ensures |r| <= |tokens|
  {
    tokens[..Leading(g, tokens, PosPresent)]
  }

  /** What `add_tokens` appends to `base` existing candidates when given `tokens`. */
  function AddedCandidates(g: DependencyGraph, head: nat, tokens: seq<nat>, base: nat): seq<CompetingHead>
    requires NodesIn(g, tokens)
  {
    Ranked(head, RelevantNodes(g, Scanned(g, tokens)), base)
  }

  /** Where the scan of `s` stops, seen from the scanning loop. */
  lemma LeadingAt(g: DependencyGraph, s: seq<nat>, rule: Rule, i: nat)
    requires NodesIn(g, s) && i <= |s|
    requires forall j {:trigger Holds(g, s[j], rule)} :: 0 <= j < i ==> Holds(g, s[j], rule)
    requires i < |s| ==> !Holds(g, s[i], rule)
    ensures Leading(g, s, rule) == i
  {
    LeadingSpec(g, s, rule);
  }

  /** Filtering one more token of `s` appends it when it is relevant. */
  lemma RelevantStep(g: DependencyGraph, s: seq<nat>, i: nat)
    requires NodesIn(g, s) && i < |s|
    ensures RelevantNodes(g, s[..i + 1]) ==
      RelevantNodes(g, s[..i]) + if RelevantAt(g, s[i]) then [s[i]] else []
  {
    assert s[..i + 1][..i] == s[..i];
  }

  /** Ranking one more node gives it the next rank. */
  lemma RankedSnoc(head: nat, nodes: seq<nat>, k: nat, base: nat)
    ensures Ranked(head, nodes + [k], base) ==
      Ranked(head, nodes, base) + [CompetingHead(k, -(base + |nodes| + 1), k == head)]
  {
    assert (nodes + [k])[..|nodes|] == nodes;
  }

  // ---------------------------------------------------------------------
  // add_tokens
  // ---------------------------------------------------------------------

  /**
   * `add_tokens`: walks `tokens` until the first one without a POS tag and
   * appends every relevant one, ranked by the number of candidates so far.
   */
  method AddTokens(g: DependencyGraph, head: nat, tokens: seq<nat>, candidates: seq<CompetingHead>)
    returns (out: seq<CompetingHead>)
    requires NodesIn(g, tokens)
    ensures out == candidates + AddedCandidates(g, head, tokens, |candidates|)
  {
    out := candidates;
    ghost var relevant: seq<nat> := [];
    var i := 0;
    while i < |tokens|
      invariant i <= |tokens|
      invariant forall j {:trigger Holds(g, tokens[j], PosPresent)} :: 0 <= j < i ==> Holds(g, tokens[j], PosPresent)
      invariant relevant == RelevantNodes(g, tokens[..i])
      invariant out == candidates + Ranked(head, relevant, |candidates|)
    {
      var idx := tokens[i];
      var pos := Pos(g, idx);
      if pos.None? {
        assert !Holds(g, idx, PosPresent);
        break;
      }
      assert Holds(g, idx, PosPresent);
      var headRank := -(|out| + 1);
      RelevantStep(g, tokens, i);
      RankedSnoc(head, relevant, idx, |candidates|);
      if RelevantHeadTag(pos.value) {
        out := out + [CompetingHead(idx, headRank, head == idx)];
        relevant := relevant + [idx];
      }
      i := i + 1;
    }
    LeadingAt(g, tokens, PosPresent, i);
  }

  // ---------------------------------------------------------------------
  // traverse_c_to_vc
  // ---------------------------------------------------------------------

  /**
   * The right-bracket verb of a complementizer-field token: the first
   * ancestor of `k` whose field is not "C", when that field is "VC".
   */
  function CToVc(g: DependencyGraph, k: nat): Option<nat>
    requires WellFormed(g) && Acyclic(g) && k < |g.nodes|
  {
    var ancestors := AncestorTokens(g, k);
    var i := Leading(g, ancestors, InFields({TopoCField}));
    if i < |ancestors| && Tf(g, ancestors[i]) == Some(TopoRkField) then Some(ancestors[i]) else None
  }

  /** `traverse_c_to_vc`: the loop over the ancestors with its early returns. */
  method TraverseCToVc(g: DependencyGraph, k: nat) returns (r: Option<nat>)
    requires WellFormed(g) && Acyclic(g) && k < |g.nodes|
    ensures r == CToVc(g, k)
  {
    var ancestors := AncestorTokens(g, k);
    var i := 0;
    while i < |ancestors|
      invariant i <= |ancestors|
      invariant forall j :: 0 <= j < i ==> Tf(g, ancestors[j]) == Some(TopoCField)
    {
      var idx := ancestors[i];
      var field := Tf(g, idx);
      if field.None? {
        break;
      }
      if field.value == TopoRkField {
        LeadingAt(g, ancestors, InFields({TopoCField}), i);
        return Some(idx);
      } else if field.value != TopoCField {
        LeadingAt(g, ancestors, InFields({TopoCField}), i);
        return None;
      }
      i := i + 1;
    }
    LeadingAt(g, ancestors, InFields({TopoCField}), i);
    return None;
  }

  // ---------------------------------------------------------------------
  // find_competition_mf
  // ---------------------------------------------------------------------

  /**
   * The outcome of the MF scan at the token `k` where it stops, given the
   * candidates collected before it.
   */
  function MfStop(g: DependencyGraph, k: nat, head: nat, candidates: seq<CompetingHead>): Option<seq<CompetingHead>>
    requires WellFormed(g) && Acyclic(g) && k < |g.nodes|
  {
    if Pos(g, k).None? || Tf(g, k).None? then None
    else if Pos(g, k).value in FiniteVerbTags then
      var verb := ResolveVerb(g, k);
      Some(candidates + [CompetingHead(verb, if verb == k then -(|candidates| + 1) else 1, verb == head)])
    else if Tf(g, k).value == TopoCField then
      match CToVc(g, k)
      case Some(finite) =>
        var verb := ResolveVerb(g, finite);
        Some(candidates + [CompetingHead(verb, 1, head == verb)])
      case None => None
    else None
  }

  /**
   * The MF scan over `tokens` (nearest first) with `candidates` collected
   * so far: tokens passing the scan add themselves when relevant, and the
   * first token that does not pass decides the outcome.
   */
  function MfScan(g: DependencyGraph, head: nat, tokens: seq<nat>, candidates: seq<CompetingHead>): Option<seq<CompetingHead>>
    requires WellFormed(g) && Acyclic(g) && NodesIn(g, tokens)
  {
    if tokens == [] then None
    else
      var k := tokens[0];
      if !Holds(g, k, MfPasses) then MfStop(g, k, head, candidates)
      else
        MfScan(g, head, tokens[1..],
               if RelevantAt(g, k) then candidates + [CompetingHead(k, -(|candidates| + 1), head == k)] else candidates)
  }

  /** The competitors of a PP in the middle field. */
  function CompetitionMf(g: DependencyGraph, p: nat, head: nat): Option<seq<CompetingHead>>
    requires WellFormed(g) && Acyclic(g) && p < |g.nodes|
  {
    MfScan(g, head, AdjacentTokens(g, p, Preceding), [])
  }

  /** `find_competition_mf`: the leftward scan with its early returns. */
  method FindCompetitionMf(g: DependencyGraph, p: nat, head: nat) returns (r: Option<seq<CompetingHead>>)
    requires WellFormed(g) && Acyclic(g) && p < |g.nodes|
    ensures r == CompetitionMf(g, p, head)
  {
    var candidates: seq<CompetingHead> := [];
    var tokens := AdjacentTokens(g, p, Preceding);
    var i := 0;
    while i < |tokens|
      invariant i <= |tokens|
      invariant MfScan(g, head, tokens[i..], candidates) == CompetitionMf(g, p, head)
    {
      var idx := tokens[i];
      assert tokens[i..][0] == idx && tokens[i..][1..] == tokens[i + 1..];
      var pos := Pos(g, idx);
      if pos.None? {
        break;
      }
      var tf := Tf(g, idx);
      if tf.None? {
        break;
      }
      var headRank := -(|candidates| + 1);
      if pos.value in FiniteVerbTags {
        var verbIdx := ResolveVerb(g, idx);
        candidates := candidates + [CompetingHead(verbIdx, if verbIdx == idx then headRank else 1, verbIdx == head)];
        return Some(candidates);
      } else if tf.value == TopoCField {
        var finiteIdx := TraverseCToVc(g, idx);
        if finiteIdx.Some? {
          var verbIdx := ResolveVerb(g, finiteIdx.value);
          candidates := candidates + [CompetingHead(verbIdx, 1, head == verbIdx)];
          return Some(candidates);
        } else {
          return None;
        }
      } else if tf.value == "MF" || tf.value == "UK" {
        if RelevantHeadTag(pos.value) {
          candidates := candidates + [CompetingHead(idx, headRank, head == idx)];
        }
      } else {
        return None;
      }
      i := i + 1;
    }
    return None;
  }

  // ---------------------------------------------------------------------
  // find_competition_vf
  // ---------------------------------------------------------------------

  /** The token just before the PP has a POS tag starting with "N". */
  predicate PrecedingIsNoun(g: DependencyGraph, p: nat)
    requires p < |g.nodes| && (p > 0 ==> Pos(g, p - 1).Some?)
  {
    var preceding := AdjacentTokens(g, p, Preceding);
    preceding != [] && StartsWith(Pos(g, preceding[0]).value, "N")
  }

  /** The head flag of the bracket verb: the gold head is the verb or one of its ancestors. */
  predicate VerbCovers(g: DependencyGraph, verb: nat, head: nat)
    requires WellFormed(g) && Acyclic(g) && verb < |g.nodes|
  {
    verb == head || head in AncestorTokens(g, verb)
  }

  /** The left bracket after `p`: the first following token whose field is "LK". */
  function LeftBracket(g: DependencyGraph, p: nat): (r: Option<nat>)
    requires p < |g.nodes|
    ensures r.Some? ==> p < r.value < |g.nodes|
  {
    var following := AdjacentTokens(g, p, Succeeding);
    var l := Leading(g, following, NotField("LK"));
    if l == |following| then None else Some(following[l])
  }

  /**
   * The `unwrap` of the POS tag of the token before the PP cannot fail. It
   * is reached only once a left bracket is found, and then it needs that
   * token, if there is one, to have a POS tag.
   */
  predicate VfUnwrapSafe(g: DependencyGraph, p: nat)
    requires p < |g.nodes|
  {
    LeftBracket(g, p).Some? && p > 0 ==> Pos(g, p - 1).Some?
  }

  /** What `add_tokens` appends, at `base`, from the tokens before `p` whose field is in `allowed`. */
  function PrecedingRun(g: DependencyGraph, p: nat, head: nat, allowed: set<string>, base: nat): seq<CompetingHead>
    requires p < |g.nodes|
  {
    AddedCandidates(g, head, TakeWhileFields(g, AdjacentTokens(g, p, Preceding), allowed), base)
  }

  /** What `add_tokens` appends, at `base`, from the tokens after `lk` whose field is in `allowed`. */
  function SucceedingRun(g: DependencyGraph, lk: nat, head: nat, allowed: set<string>, base: nat): seq<CompetingHead>
    requires lk < |g.nodes|
  {
    AddedCandidates(g, head, TakeWhileFields(g, AdjacentTokens(g, lk, Succeeding), allowed), base)
  }

  /**
   * The competitors of a PP in the prefield whose left bracket is `lk`: the
   * verb of the bracket, the relevant VF/UK tokens before the PP (nearest
   * first) and, unless a noun precedes the PP, the relevant MF/UK tokens
   * after the bracket.
   */
  function VfCandidates(g: DependencyGraph, p: nat, lk: nat, head: nat): seq<CompetingHead>
    requires WellFormed(g) && Acyclic(g) && p < |g.nodes| && lk < |g.nodes|
    requires p > 0 ==> Pos(g, p - 1).Some?
  {
    var verb := ResolveVerb(g, lk);
    var first := [CompetingHead(verb, 1, VerbCovers(g, verb, head))];
    var withVf := first + PrecedingRun(g, p, head, {"VF", "UK"}, |first|);
    if PrecedingIsNoun(g, p) then withVf
    else withVf + SucceedingRun(g, lk, head, {"MF", "UK"}, |withVf|)
  }

  /** The competitors of a PP in the prefield; None when no left bracket follows it. */
  function CompetitionVf(g: DependencyGraph, p: nat, head: nat): Option<seq<CompetingHead>>
    requires WellFormed(g) && Acyclic(g) && p < |g.nodes| && VfUnwrapSafe(g, p)
  {
    match LeftBracket(g, p)
    case None => None
    case Some(lk) => Some(VfCandidates(g, p, lk, head))
  }

  /** The VF candidates, assembled from the candidate lists of the three stages. */
  lemma VfCandidatesBy(g: DependencyGraph, p: nat, lk: nat, head: nat,
                       first: seq<CompetingHead>, withVf: seq<CompetingHead>, all: seq<CompetingHead>)
    requires WellFormed(g) && Acyclic(g) && p < |g.nodes| && lk < |g.nodes|
    requires p > 0 ==> Pos(g, p - 1).Some?
    requires first == [CompetingHead(ResolveVerb(g, lk), 1, VerbCovers(g, ResolveVerb(g, lk), head))]
    requires withVf == first + AddedCandidates(g, head, TakeWhileFields(g, AdjacentTokens(g, p, Preceding), {"VF", "UK"}), |first|)
    requires PrecedingIsNoun(g, p) ==> all == withVf
    requires !PrecedingIsNoun(g, p) ==>
      all == withVf + AddedCandidates(g, head, TakeWhileFields(g, AdjacentTokens(g, lk, Succeeding), {"MF", "UK"}), |withVf|)
    ensures all == VfCandidates(g, p, lk, head)
  {
  }

  /** `find_competition_vf`. */
  method FindCompetitionVf(g: DependencyGraph, p: nat, head: nat) returns (r: Option<seq<CompetingHead>>)
    requires WellFormed(g) && Acyclic(g) && p < |g.nodes| && VfUnwrapSafe(g, p)
    ensures r == CompetitionVf(g, p, head)
  {
    var candidates: seq<CompetingHead> := [];

    // Find the left bracket.
    var following := AdjacentTokens(g, p, Succeeding);
    var l := 0;
    while l < |following| && Tf(g, following[l]) != Some("LK")
      invariant l <= |following|
      invariant forall j {:trigger Holds(g, following[j], NotField("LK"))} :: 0 <= j < l ==> Holds(g, following[j], NotField("LK"))
    {
      l := l + 1;
    }
    LeadingAt(g, following, NotField("LK"), l);
    assert LeftBracket(g, p) == if l == |following| then None else Some(following[l]);
    if l == |following| {
      return None;
    }
    var lkIdx := following[l];
    var verbIdx := ResolveVerb(g, lkIdx);

    var isHead := verbIdx == head;
    if !isHead {
      var ancestors := AncestorTokens(g, verbIdx);
      var i := 0;
      while i < |ancestors| && ancestors[i] != head
        invariant i <= |ancestors|
        invariant forall j :: 0 <= j < i ==> ancestors[j] != head
      {
        i := i + 1;
      }
      isHead := i < |ancestors|;
    }
    assert isHead == VerbCovers(g, verbIdx, head);
    candidates := candidates + [CompetingHead(verbIdx, 1, isHead)];
    ghost var first := candidates;

    var preceding := AdjacentTokens(g, p, Preceding);
    var precedingIsNoun := if preceding != [] then StartsWith(Pos(g, preceding[0]).value, "N") else false;
    assert precedingIsNoun == PrecedingIsNoun(g, p);

    var vfTokens := TakeWhileFields(g, preceding, {"VF", "UK"});
    candidates := AddTokens(g, head, vfTokens, candidates);
    ghost var withVf := candidates;

    // Only add MF tokens when the preceding token is not a noun.
    if !precedingIsNoun {
      var mfTokens := TakeWhileFields(g, AdjacentTokens(g, lkIdx, Succeeding), {"MF", "UK"});
      candidates := AddTokens(g, head, mfTokens, candidates);
      assert candidates == withVf + AddedCandidates(g, head, mfTokens, |withVf|);
    }
    VfCandidatesBy(g, p, lkIdx, head, first, withVf, candidates);
    return Some(candidates);
  }

  // ---------------------------------------------------------------------
  // The selection of print_ambiguous_pps
  // ---------------------------------------------------------------------

  /** One reported PP: the PP node, its PN complement and its competitors. */
  datatype Instance = Instance(pp: nat, complement: nat, candidates: seq<CompetingHead>)

  /** `extract_form`: the lemma or the form of a token. */
  function ExtractForm(t: Token, useLemma: bool): Option<string> {
    if useLemma then t.lemmaForm else t.form
  }

  const PpEdge: DependencyEdge := Relation(Some(PpRelation))
  const PnEdge: EdgeFilter := Weight(Relation(Some(PrepComplRelation)))

  /**
   * The edge passes every check of `print_ambiguous_pps` that comes before
   * the competition is computed.
   */
  predicate PassesFilters(g: DependencyGraph, e: Edge, useLemma: bool, field: Field)
    requires WellFormed(g) && field != NF && e.source < |g.nodes| && e.target < |g.nodes|
  {
    && e.weight == PpEdge
    && Pos(g, e.source).Some? && RelevantHeadTag(Pos(g, e.source).value)
    && Tf(g, e.target) == Some(StringValue(field))
    && FirstMatchingEdge(g, e.target, Outgoing, PnEdge).Some?
    && FirstMatchingEdge(g, e.target, Outgoing, PnEdge).value < |g.nodes|
    && ExtractForm(g.nodes[e.target].token, useLemma).Some?
    && ExtractForm(g.nodes[FirstMatchingEdge(g, e.target, Outgoing, PnEdge).value].token, useLemma).Some?
    && Pos(g, e.target).Some? && Pos(g, FirstMatchingEdge(g, e.target, Outgoing, PnEdge).value).Some?
  }

  /** The `unwrap` in `find_competition_vf` cannot fail on this edge, if the edge gets that far. */
  predicate UnwrapSafe(g: DependencyGraph, e: Edge, useLemma: bool, field: Field)
    requires WellFormed(g) && field != NF && e.source < |g.nodes| && e.target < |g.nodes|
  {
    field == VF && PassesFilters(g, e, useLemma, field) ==> VfUnwrapSafe(g, e.target)
  }

  /** The instance reported for one edge of the graph, if any. */
  function InstanceFor(g: DependencyGraph, e: Edge, useLemma: bool, all: bool, field: Field): Option<Instance>
    requires WellFormed(g) && Acyclic(g) && field != NF
    requires e.source < |g.nodes| && e.target < |g.nodes| && UnwrapSafe(g, e, useLemma, field)
  {
    if e.weight != PpEdge then None
    else if Pos(g, e.source).None? || !RelevantHeadTag(Pos(g, e.source).value) then None
    else if Tf(g, e.target).None? || Tf(g, e.target).value != StringValue(field) then None
    else
      NeighbourInRange(g, e.target, Outgoing, PnEdge);
      match FirstMatchingEdge(g, e.target, Outgoing, PnEdge)
      case None => None
      case Some(pn) =>
        if ExtractForm(g.nodes[e.target].token, useLemma).None? || ExtractForm(g.nodes[pn].token, useLemma).None?
        then None
        else if Pos(g, e.target).None? || Pos(g, pn).None? then None
        else
          var competition := if field == VF then CompetitionVf(g, e.target, e.source)
                             else CompetitionMf(g, e.target, e.source);
          match competition
          case None => None
          case Some(candidates) =>
            if !all && |candidates| == 1 then None else Some(Instance(e.target, pn, candidates))
  }

  /** No PP edge of the graph makes the VF finder take apart a missing POS tag. */
  ghost predicate AllUnwrapSafe(g: DependencyGraph, useLemma: bool, field: Field)
    requires WellFormed(g) && field != NF
  {
    forall j {:trigger UnwrapSafe(g, g.edges[j], useLemma, field)} :: 0 <= j < |g.edges| ==>
      UnwrapSafe(g, g.edges[j], useLemma, field)
  }

  /**
   * The instances reported for the edges `edges[k..]`, in the order
   * `raw_edges` lists them: oldest first, i.e. from the end of `edges`.
   */
  function Reports(g: DependencyGraph, k: nat, useLemma: bool, all: bool, field: Field): seq<Instance>
    requires WellFormed(g) && Acyclic(g) && field != NF && AllUnwrapSafe(g, useLemma, field) && k <= |g.edges|
    decreases |g.edges| - k
  {
    if k == |g.edges| then []
    else
      var e := g.edges[k];
      Reports(g, k + 1, useLemma, all, field) +
      match InstanceFor(g, e, useLemma, all, field)
      case None => []
      case Some(inst) => [inst]
  }

  /**
   * The body of the loop of `print_ambiguous_pps` for one edge: None where
   * the source continues with the next edge, otherwise the instance whose
   * line it writes.
   */
  method ExamineEdge(g: DependencyGraph, edge: Edge, useLemma: bool, all: bool, field: Field)
    returns (r: Option<Instance>)
    requires WellFormed(g) && Acyclic(g) && field != NF
    requires edge.source < |g.nodes| && edge.target < |g.nodes| && UnwrapSafe(g, edge, useLemma, field)
    ensures r == InstanceFor(g, edge, useLemma, all, field)
  {
    if edge.weight != PpEdge {
      return None;
    }
    var headPos := Pos(g, edge.source);
    if headPos.None? || !RelevantHeadTag(headPos.value) {
      return None;
    }
    var ppField := Tf(g, edge.target);
    if ppField.None? || ppField.value != StringValue(field) {
      return None;
    }
    NeighbourInRange(g, edge.target, Outgoing, PnEdge);
    var pnRel := FirstMatchingEdge(g, edge.target, Outgoing, PnEdge);
    if pnRel.None? {
      return None;
    }
    var depN := pnRel.value;
    var depForm := ExtractForm(g.nodes[edge.target].token, useLemma);
    var depNForm := ExtractForm(g.nodes[depN].token, useLemma);
    if depForm.None? || depNForm.None? {
      return None;
    }
    var depPos := Pos(g, edge.target);
    var depNPos := Pos(g, depN);
    if depPos.None? || depNPos.None? {
      return None;
    }
    var competition;
    if field == VF {
      competition := FindCompetitionVf(g, edge.target, edge.source);
    } else {
      competition := FindCompetitionMf(g, edge.target, edge.source);
    }
    if competition.None? {
      return None;
    }
    // Don't report when there is no ambiguity.
    if !all && |competition.value| == 1 {
      return None;
    }
    return Some(Instance(edge.target, depN, competition.value));
  }

  /**
   * The selection done by `print_ambiguous_pps`: the instances of every
   * edge, in the order `raw_edges` lists the edges (from the end of
   * `edges`); the writing of the lines is left out.
   */
  method SelectAmbiguousPps(g: DependencyGraph, useLemma: bool, all: bool, field: Field)
    returns (instances: seq<Instance>)
    requires WellFormed(g) && Acyclic(g) && field != NF && AllUnwrapSafe(g, useLemma, field)
    ensures instances == Reports(g, 0, useLemma, all, field)
  {
    instances := [];
    var k: nat := |g.edges|;
    while k > 0
      invariant k <= |g.edges|
      invariant instances == Reports(g, k, useLemma, all, field)
    {
      k := k - 1;
      var edge := g.edges[k];
      assert UnwrapSafe(g, edge, useLemma, field);
      var instance := ExamineEdge(g, edge, useLemma, all, field);
      if instance.Some? {
        instances := instances + [instance.value];
      }
    }
  }
}
