/**
 * Path keys (`PathKey`): the source path gets the symbols a, b, c, ...; each
 * node of a candidate path gets the symbol of the first source node it
 * matches, or else a fresh symbol; candidates are ranked by how close their
 * key is to the source key and the best three are kept.
 */
module PathKeys {
  import opened Options
  import opened Decompose
  import opened EditDistance
  import opened Matcher
  import opened TopK

  /** Code point of 'a', the symbol of the first source node. */
  const FirstSymbol: nat := 97

  /** The node threshold `matchNodes` passes to `match`. */
  const NodeThreshold: real := 0.6

  /** The source key: one symbol per source node, a, b, c, ... in path order. */
  function Letters(n: nat): (key: seq<nat>)
    ensures |key| == n
  {
    seq(n, i => FirstSymbol + i)
  }

  /** The loop that builds the source key by appending `chr(i)` for i from 97 upward. */
  method SourceKey(n: nat) returns (key: seq<nat>)
    ensures key == Letters(n)
    ensures forall i, k :: 0 <= i < k < n ==> key[i] < key[k]
  {
    key := [];
    for i := FirstSymbol to FirstSymbol + n
      invariant |key| == i - FirstSymbol
      invariant forall k :: 0 <= k < |key| ==> key[k] == FirstSymbol + k
    {
      key := key + [i];
    }
  }

  /** Every source set that may be tried can be compared with the node. */
  predicate NodeComparable(ex: seq<set<string>>, n: nat, node: string) {
    n <= |ex| && forall k :: 0 <= k < n ==> Comparable(ex[k], SplitComposite(node))
  }

  predicate NodesComparable(ex: seq<set<string>>, n: nat, nodes: seq<string>) {
    forall m :: 0 <= m < |nodes| ==> NodeComparable(ex, n, nodes[m])
  }

  predicate CandidatesComparable(ex: seq<set<string>>, n: nat, cands: seq<seq<string>>) {
    forall c :: 0 <= c < |cands| ==> NodesComparable(ex, n, cands[c])
  }

  /** Source node `j`'s extended set matches `node` at the node threshold. */
  ghost predicate NodeMatches(ex: seq<set<string>>, j: nat, node: string)
    requires j < |ex| && Comparable(ex[j], SplitComposite(node))
  {
    Matches([ex[j]], node, NodeThreshold)
  }

  /** The first source node at or after `j` (and before `n`) that `node` matches. */
  ghost function FirstMatchFrom(ex: seq<set<string>>, n: nat, node: string, j: nat): (r: Option<nat>)
    requires NodeComparable(ex, n, node)
    ensures r.Some? ==> j <= r.value < n && NodeMatches(ex, r.value, node)
    ensures r.Some? ==> forall k :: j <= k < r.value ==> !NodeMatches(ex, k, node)
    ensures r.None? ==> forall k :: j <= k < n ==> !NodeMatches(ex, k, node)
    decreases n - j
  {
    if j >= n then None
    else if NodeMatches(ex, j, node) then Some(j)
    else FirstMatchFrom(ex, n, node, j + 1)
  }

  /** The first source node that `node` matches, if any. */
  ghost function FirstMatch(ex: seq<set<string>>, n: nat, node: string): Option<nat>
    requires NodeComparable(ex, n, node)
  {
    FirstMatchFrom(ex, n, node, 0)
  }

  /** The search over the source nodes, stopping at the first match. */
  method FindNode(ex: seq<set<string>>, n: nat, node: string) returns (nodeMatch: bool, j: nat)
    requires NodeComparable(ex, n, node)
    ensures nodeMatch <==> FirstMatch(ex, n, node).Some?
    ensures nodeMatch ==> FirstMatch(ex, n, node) == Some(j)
  {
    j := 0;
    nodeMatch := false;
    while j < n
      invariant j <= n
      invariant FirstMatchFrom(ex, n, node, j) == FirstMatch(ex, n, node)
    {
      assert [ex[j]][0] == ex[j];
      var m := Match([ex[j]], node, NodeThreshold);
      if m {
        nodeMatch := true;
        break;
      }
      j := j + 1;
    }
  }

  /** Number of nodes in `nodes` that match no source node. */
  ghost function UnmatchedIn(ex: seq<set<string>>, n: nat, nodes: seq<string>): nat
    requires NodesComparable(ex, n, nodes)
  {
    if nodes == [] then 0
    else
      var last := nodes[|nodes| - 1];
      UnmatchedIn(ex, n, nodes[..|nodes| - 1]) + (if FirstMatch(ex, n, last).None? then 1 else 0)
  }

  /** Number of nodes, over all candidates in `cands`, that match no source node. */
  ghost function UnmatchedAll(ex: seq<set<string>>, n: nat, cands: seq<seq<string>>): nat
    requires CandidatesComparable(ex, n, cands)
  {
    if cands == [] then 0
    else UnmatchedAll(ex, n, cands[..|cands| - 1]) + UnmatchedIn(ex, n, cands[|cands| - 1])
  }

  /**
   * The symbol of node `m` of candidate `c`: that of the first source node
   * it matches, or else the fresh symbol counting every unmatched node read
   * before it, starting right after the source symbols.
   */
  ghost function Symbol(ex: seq<set<string>>, n: nat, cands: seq<seq<string>>, c: nat, m: nat): nat
    requires CandidatesComparable(ex, n, cands) && c < |cands| && m < |cands[c]|
  {
    match FirstMatch(ex, n, cands[c][m])
    case Some(j) => FirstSymbol + j
    case None => FirstSymbol + n + UnmatchedAll(ex, n, cands[..c]) + UnmatchedIn(ex, n, cands[c][..m])
  }

  /** The candidate keys: one symbol per node of each candidate. */
  ghost function Keys(ex: seq<set<string>>, n: nat, cands: seq<seq<string>>): (keys: seq<seq<nat>>)
    requires CandidatesComparable(ex, n, cands)
    ensures |keys| == |cands|
    ensures forall c :: 0 <= c < |cands| ==> |keys[c]| == |cands[c]|
    ensures forall c, m :: 0 <= c < |cands| && 0 <= m < |cands[c]| ==> keys[c][m] == Symbol(ex, n, cands, c, m)
  {
    seq(|cands|, c requires 0 <= c < |cands| =>
      seq(|cands[c]|, m requires 0 <= m < |cands[c]| => Symbol(ex, n, cands, c, m)))
  }

  /** Counting one more node of a candidate. */
  lemma UnmatchedInStep(ex: seq<set<string>>, n: nat, nodes: seq<string>, m: nat)
    requires NodesComparable(ex, n, nodes) && m < |nodes|
    ensures UnmatchedIn(ex, n, nodes[..m + 1])
         == UnmatchedIn(ex, n, nodes[..m]) + (if FirstMatch(ex, n, nodes[m]).None? then 1 else 0)
  {
    assert nodes[..m + 1][..m] == nodes[..m];
  }

  /** Counting one more candidate. */
  lemma UnmatchedAllStep(ex: seq<set<string>>, n: nat, cands: seq<seq<string>>, c: nat)
    requires CandidatesComparable(ex, n, cands) && c < |cands|
    ensures UnmatchedAll(ex, n, cands[..c + 1]) == UnmatchedAll(ex, n, cands[..c]) + UnmatchedIn(ex, n, cands[c])
  {
    assert cands[..c + 1][..c] == cands[..c];
  }

  /**
   * The inner loop of `matchNodes` for candidate `c`: one symbol per node,
   * drawing fresh symbols from the counter `start`.
   */
  method CandidateKey(ex: seq<set<string>>, n: nat, cands: seq<seq<string>>, c: nat, start: nat)
    returns (candidateKey: seq<nat>, next: nat)
    requires CandidatesComparable(ex, n, cands) && c < |cands|
    requires start == FirstSymbol + n + UnmatchedAll(ex, n, cands[..c])
    ensures |candidateKey| == |cands[c]|
    ensures forall m :: 0 <= m < |cands[c]| ==> candidateKey[m] == Symbol(ex, n, cands, c, m)
    ensures next == FirstSymbol + n + UnmatchedAll(ex, n, cands[..c + 1])
  {
    var category := cands[c];
    candidateKey := [];
    next := start;
    for m := 0 to |category|
      invariant |candidateKey| == m
      invariant forall m' :: 0 <= m' < m ==> candidateKey[m'] == Symbol(ex, n, cands, c, m')
      invariant next == start + UnmatchedIn(ex, n, category[..m])
    {
      var node := category[m];
      var nodeMatch, j := FindNode(ex, n, node);
      UnmatchedInStep(ex, n, category, m);
      ghost var symbol := Symbol(ex, n, cands, c, m);
      var prev := candidateKey;
      if nodeMatch {
        assert FirstSymbol + j == symbol;
        candidateKey := candidateKey + [FirstSymbol + j];
      } else {
        assert next == symbol;
        candidateKey := candidateKey + [next];
        next := next + 1;
      }
      assert candidateKey == prev + [symbol];
    }
    assert category[..|category|] == category;
    UnmatchedAllStep(ex, n, cands, c);
  }

  /**
   * The loop of `matchNodes` that builds the candidate keys with one counter
   * for fresh symbols shared by all candidates.
   */
  method CandidateKeys(ex: seq<set<string>>, n: nat, cands: seq<seq<string>>) returns (keys: seq<seq<nat>>)
    requires CandidatesComparable(ex, n, cands)
    ensures keys == Keys(ex, n, cands)
  {
    var i := FirstSymbol + n;
    keys := [];
    for c := 0 to |cands|
      invariant |keys| == c
      invariant forall c' :: 0 <= c' < c ==> |keys[c']| == |cands[c']|
      invariant forall c', m :: 0 <= c' < c && 0 <= m < |cands[c']| ==> keys[c'][m] == Symbol(ex, n, cands, c', m)
      invariant i == FirstSymbol + n + UnmatchedAll(ex, n, cands[..c])
    {
      var candidateKey;
      candidateKey, i := CandidateKey(ex, n, cands, c, i);
      keys := keys + [candidateKey];
    }
    var spec := Keys(ex, n, cands);
    forall c | 0 <= c < |cands|
      ensures keys[c] == spec[c]
    {
    }
  }

  /** Counting unmatched nodes over a longer prefix never gives less, and strictly more past an unmatched node. */
  lemma {:induction false} UnmatchedInGrows(ex: seq<set<string>>, n: nat, nodes: seq<string>, a: nat, b: nat)
    requires NodesComparable(ex, n, nodes) && a <= b <= |nodes|
    ensures UnmatchedIn(ex, n, nodes[..a]) <= UnmatchedIn(ex, n, nodes[..b])
    ensures a < b && FirstMatch(ex, n, nodes[a]).None? ==> UnmatchedIn(ex, n, nodes[..a]) < UnmatchedIn(ex, n, nodes[..b])
    decreases b
  {
    if a < b {
      UnmatchedInGrows(ex, n, nodes, a, b - 1);
      assert nodes[..b][..b - 1] == nodes[..b - 1];
      if a == b - 1 {
        assert nodes[..b][b - 1] == nodes[a];
      }
    }
  }

  /** The unmatched nodes of the candidates before `c` and of `c` itself are all counted before `d`. */
  lemma {:induction false} UnmatchedAllGrows(ex: seq<set<string>>, n: nat, cands: seq<seq<string>>, c: nat, d: nat)
    requires CandidatesComparable(ex, n, cands) && c < d <= |cands|
    ensures UnmatchedAll(ex, n, cands[..c]) + UnmatchedIn(ex, n, cands[c]) <= UnmatchedAll(ex, n, cands[..d])
    decreases d
  {
    assert cands[..d][..d - 1] == cands[..d - 1];
    if c < d - 1 {
      UnmatchedAllGrows(ex, n, cands, c, d - 1);
    }
  }

  /** Fresh symbols grow strictly in reading order: candidate by candidate, node by node. */
  lemma FreshIncreasing(ex: seq<set<string>>, n: nat, cands: seq<seq<string>>, c: nat, m: nat, d: nat, k: nat)
    requires CandidatesComparable(ex, n, cands)
    requires c < |cands| && m < |cands[c]| && d < |cands| && k < |cands[d]|
    requires FirstMatch(ex, n, cands[c][m]).None? && FirstMatch(ex, n, cands[d][k]).None?
    requires c < d || (c == d && m < k)
    ensures Symbol(ex, n, cands, c, m) < Symbol(ex, n, cands, d, k)
  {
    if c == d {
      UnmatchedInGrows(ex, n, cands[c], m, k);
    } else {
      UnmatchedInGrows(ex, n, cands[c], m, |cands[c]|);
      assert cands[c][..|cands[c]|] == cands[c];
      UnmatchedAllGrows(ex, n, cands, c, d);
    }
  }

  /**
   * What the candidate keys promise: a matched node carries the source
   * symbol of the first source node it matches, below every fresh symbol;
   * an unmatched node carries a fresh symbol no other node carries.
   */
  lemma KeysShape(ex: seq<set<string>>, n: nat, cands: seq<seq<string>>, c: nat, m: nat)
    requires CandidatesComparable(ex, n, cands) && c < |cands| && m < |cands[c]|
    ensures FirstMatch(ex, n, cands[c][m]).Some? ==>
      var j := FirstMatch(ex, n, cands[c][m]).value;
      && j < n && Keys(ex, n, cands)[c][m] == Letters(n)[j]
      && NodeMatches(ex, j, cands[c][m])
      && forall i :: 0 <= i < j ==> !NodeMatches(ex, i, cands[c][m])
    ensures FirstMatch(ex, n, cands[c][m]).None? ==>
      && FirstSymbol + n <= Keys(ex, n, cands)[c][m]
      && forall i :: 0 <= i < n ==> !NodeMatches(ex, i, cands[c][m])
    ensures FirstMatch(ex, n, cands[c][m]).None? ==>
      forall d, k :: 0 <= d < |cands| && 0 <= k < |cands[d]| && (d != c || k != m) ==>
        Keys(ex, n, cands)[d][k] != Keys(ex, n, cands)[c][m]
  {
    if FirstMatch(ex, n, cands[c][m]).None? {
      forall d, k | 0 <= d < |cands| && 0 <= k < |cands[d]| && (d != c || k != m)
        ensures Keys(ex, n, cands)[d][k] != Keys(ex, n, cands)[c][m]
      {
        if FirstMatch(ex, n, cands[d][k]).None? {
          if d < c || (d == c && k < m) {
            FreshIncreasing(ex, n, cands, d, k, c, m);
          } else {
            FreshIncreasing(ex, n, cands, c, m, d, k);
          }
        }
      }
    }
  }

  /**
   * A node whose terms all sit in the extended set of source node `k` matches
   * that node, so its first match is `k` or an earlier one.
   */
  lemma OwnSetMatches(ex: seq<set<string>>, n: nat, node: string, k: nat)
    requires NodeComparable(ex, n, node) && k < n && SplitComposite(node) <= ex[k]
    ensures FirstMatch(ex, n, node).Some? && FirstMatch(ex, n, node).value <= k
  {
    SplitCompositeShape(node);
    var s :| s in SplitComposite(node);
    SharedTermHits(ex[k], SplitComposite(node), s, NodeThreshold);
    assert [ex[k]][0] == ex[k];
    assert NodeMatches(ex, k, node);
  }

  /**
   * A candidate node holding no more terms than source node `k`'s extended
   * set never gets a fresh symbol: it gets `k`'s letter or an earlier one,
   * and `k`'s letter exactly when no earlier source node matches it.
   */
  lemma OwnSetKey(ex: seq<set<string>>, n: nat, cands: seq<seq<string>>, c: nat, m: nat, k: nat)
    requires CandidatesComparable(ex, n, cands) && c < |cands| && m < |cands[c]|
    requires k < n && SplitComposite(cands[c][m]) <= ex[k]
    ensures Keys(ex, n, cands)[c][m] <= FirstSymbol + k
    ensures Keys(ex, n, cands)[c][m] == FirstSymbol + k <==>
      forall j :: 0 <= j < k ==> !NodeMatches(ex, j, cands[c][m])
  {
    OwnSetMatches(ex, n, cands[c][m], k);
    assert NodeMatches(ex, k, cands[c][m]) by {
      SplitCompositeShape(cands[c][m]);
      var s :| s in SplitComposite(cands[c][m]);
      SharedTermHits(ex[k], SplitComposite(cands[c][m]), s, NodeThreshold);
      assert [ex[k]][0] == ex[k];
    }
  }

  /**
   * A candidate that repeats the source path node for node, each node's
   * terms inside that source node's extended set, gets exactly the source
   * key, and so rank 1, when no node also matches an earlier source node.
   */
  lemma IdenticalCandidateKey(ex: seq<set<string>>, n: nat, cands: seq<seq<string>>, c: nat)
    requires CandidatesComparable(ex, n, cands) && c < |cands| && |cands[c]| == n
    requires forall k :: 0 <= k < n ==> SplitComposite(cands[c][k]) <= ex[k]
    ensures Keys(ex, n, cands)[c] == Letters(n) <==>
      forall k, j :: 0 <= j < k < n ==> !NodeMatches(ex, j, cands[c][k])
    ensures 0 < n ==> (Rank(Letters(n), Keys(ex, n, cands)[c]) == 1.0 <==>
      forall k, j :: 0 <= j < k < n ==> !NodeMatches(ex, j, cands[c][k]))
  {
    var key := Keys(ex, n, cands)[c];
    forall k | 0 <= k < n
      ensures key[k] <= FirstSymbol + k
      ensures key[k] == FirstSymbol + k <==> forall j :: 0 <= j < k ==> !NodeMatches(ex, j, cands[c][k])
    {
      OwnSetKey(ex, n, cands, c, k, k);
    }
    if key == Letters(n) {
      forall k, j | 0 <= j < k < n ensures !NodeMatches(ex, j, cands[c][k]) {
        assert key[k] == Letters(n)[k];
      }
    }
  }

  /**
   * The source path "tv/tv" against the identical candidate: its second node
   * also matches the first source node, so its key is "aa", not "ab", and
   * its rank falls below 1.
   */
  lemma RepeatedNodeRanksBelowOne(ex: seq<set<string>>, cands: seq<seq<string>>)
    requires ex == [{"tv"}, {"tv"}] && cands == [["tv", "tv"]]
    ensures CandidatesComparable(ex, 2, cands)
    ensures Keys(ex, 2, cands)[0] != Letters(2)
    ensures Rank(Letters(2), Keys(ex, 2, cands)[0]) < 1.0
  {
    WordSplit("tv");
    assert cands[0][0] == "tv" && cands[0][1] == "tv";
    IdenticalCandidateKey(ex, 2, cands, 0);
    OwnSetKey(ex, 2, cands, 0, 1, 0);
  }

  /** `len(set(tgt) - set(src))`: the distinct symbols of `tgt` missing from `src`. */
  function Missing(src: seq<nat>, tgt: seq<nat>): (p: nat)
    ensures src == tgt ==> p == 0
  {
    var d := (set x | x in tgt) - (set x | x in src);
    assert src == tgt ==> d == {};
    |d|
  }

  /** `1 - a / b` for a part `a` of a positive whole `b`: in [0, 1], and 1 exactly when `a` is 0. */
  function Complement(a: real, b: real): (r: real)
    requires 0.0 <= a <= b && 0.0 < b
    ensures 0.0 <= r <= 1.0
    ensures r == 1.0 <==> a == 0.0
  {
    QuotientFacts(a, b);
    1.0 - a / b
  }

  /**
   * `rank(src, tgt)`: one minus the normalized Damerau-Levenshtein distance
   * of the keys, both sides increased by the number of distinct symbols of
   * `tgt` missing from `src`. It lies in [0, 1] and is 1 exactly when the
   * keys are equal.
   */
  function Rank(src: seq<nat>, tgt: seq<nat>): (r: real)
    requires |src| > 0 || |tgt| > 0
    ensures 0.0 <= r <= 1.0
    ensures r == 1.0 <==> src == tgt
  {
    var p := Missing(src, tgt);
    var a := NormalizedDamerau(src, tgt) + p as real;
    var b := Max(|src|, |tgt|) as real + p as real;
    Complement(a, b)
  }

  /** The scores `matchNodes` offers to the board: each candidate key ranked against the source key. */
  ghost function Offered(ex: seq<set<string>>, n: nat, cands: seq<seq<string>>): (xs: seq<real>)
    requires 0 < n && CandidatesComparable(ex, n, cands)
    ensures |xs| == |cands|
  {
    seq(|cands|, i requires 0 <= i < |cands| => Rank(Letters(n), Keys(ex, n, cands)[i]))
  }

  /**
   * The ranking loop of `matchNodes`: offers the rank of every candidate key
   * to a fresh board of three slots, updated in place.
   */
  method BestThree(key: seq<nat>, targetPathKey: seq<seq<nat>>, candidates: seq<seq<string>>)
    returns (bestScore: array<real>, bestCandidate: array<Option<seq<string>>>)
    requires |key| > 0 && |targetPathKey| == |candidates|
    ensures fresh(bestScore) && fresh(bestCandidate)
    ensures bestScore[..] == Run(seq(|targetPathKey|, i requires 0 <= i < |targetPathKey| => Rank(key, targetPathKey[i]))).0
    ensures bestCandidate[..] == Resolve(Run(seq(|targetPathKey|, i requires 0 <= i < |targetPathKey| => Rank(key, targetPathKey[i]))).1, candidates)
  {
    ghost var xs := seq(|targetPathKey|, i requires 0 <= i < |targetPathKey| => Rank(key, targetPathKey[i]));
    bestScore := new real[Slots](_ => 0.0);
    bestCandidate := new Option<seq<string>>[Slots](_ => None);
    for i := 0 to |targetPathKey|
      invariant bestScore[..] == Run(xs[..i]).0
      invariant bestCandidate[..] == Resolve(Run(xs[..i]).1, candidates)
    {
      var score := Rank(key, targetPathKey[i]);
      assert xs[..i + 1][..i] == xs[..i];
      ResolveOffer(bestScore[..], Run(xs[..i]).1, candidates, score, i);
      OfferInPlace(bestScore, bestCandidate, score, Some(candidates[i]));
    }
    assert xs[..|targetPathKey|] == xs;
  }

  /**
   * A source path with its candidate paths; constructing it ranks the
   * candidates and keeps the best three with their scores.
   */
  class PathKey {
    const wcategory: seq<string>
    const candidates: seq<seq<string>>
    const extendedSplitTermSet: seq<set<string>>
    var bestCandidate: array<Option<seq<string>>>
    var bestScore: array<real>

    /** The inputs `matchNodes` can run on: every comparison it may make is defined. */
    ghost predicate Inputs() {
      0 < |wcategory| && CandidatesComparable(extendedSplitTermSet, |wcategory|, candidates)
    }

    /** The scores offered to the board, in candidate order. */
    ghost function Offers(): seq<real>
      requires Inputs()
    {
      Offered(extendedSplitTermSet, |wcategory|, candidates)
    }

    constructor(wcategory: string, candidates: seq<seq<string>>, extendedSplitTermSet: seq<set<string>>)
      requires CandidatesComparable(extendedSplitTermSet, |SplitCategory(wcategory)|, candidates)
      ensures this.wcategory == SplitCategory(wcategory)
      ensures this.candidates == candidates && this.extendedSplitTermSet == extendedSplitTermSet
      ensures Inputs() && fresh(bestScore) && fresh(bestCandidate)
      ensures bestScore[..] == Run(Offers()).0
      ensures bestCandidate[..] == Resolve(Run(Offers()).1, candidates)
    {
      this.wcategory := SplitCategory(wcategory);
      this.candidates := candidates;
      this.extendedSplitTermSet := extendedSplitTermSet;
      bestCandidate := new Option<seq<string>>[0](_ => None);
      bestScore := new real[0];
      new;
      MatchNodes();
    }

    /**
     * `matchNodes()`: builds the source key and the candidate keys, ranks
     * every candidate and leaves the best three, with their scores, in
     * `bestCandidate` and `bestScore`.
     */
    method MatchNodes()
      requires Inputs()
      modifies this
      ensures fresh(bestScore) && fresh(bestCandidate)
      ensures bestScore[..] == Run(Offers()).0
      ensures bestCandidate[..] == Resolve(Run(Offers()).1, candidates)
    {
      var n := |wcategory|;
      var key := SourceKey(n);
      var targetPathKey := CandidateKeys(extendedSplitTermSet, n, candidates);
      bestScore, bestCandidate := BestThree(key, targetPathKey, candidates);
    }
  }
}
