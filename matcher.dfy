/**
 * The semantic matcher (`SemanticMatcher.match` and `getCandidate`): a target
 * category matches when every extended set of the source hits some composite
 * term of the target, by containment or by a close enough edit similarity.
 */
module Matcher {
  import opened Text
  import opened Decompose
  import opened EditDistance
  import opened Similarity

  /** The node threshold `match` uses unless told otherwise. */
  const DefaultThreshold: real := 0.7

  /** Some pair of `S` and `W` can be compared: they do not both hold the empty term. */
  predicate Comparable(S: set<string>, W: set<string>) {
    !("" in S && "" in W)
  }

  /** Source term `s` hits target term `t`: `s` occurs in `t`, or their edit similarity reaches `tnode`. */
  predicate PairHit(s: string, t: string, tnode: real)
    requires |s| > 0 || |t| > 0
  {
    ContainsAsSeparateComponent(t, s) || EditSimilarity(s, t) >= tnode
  }

  /** Some term of `S` hits some term of `W`. */
  ghost predicate SetHits(S: set<string>, W: set<string>, tnode: real)
    requires Comparable(S, W)
  {
    exists s, t :: s in S && t in W && PairHit(s, t, tnode)
  }

  /** Every set of `E` is comparable with the composite terms of `wtarget`. */
  predicate Admissible(E: seq<set<string>>, wtarget: string) {
    forall k :: 0 <= k < |E| ==> Comparable(E[k], SplitComposite(wtarget))
  }

  /** `match(E, wtarget, tnode)`: `E` is non-empty and each of its sets hits a term of `wtarget`. */
  ghost predicate Matches(E: seq<set<string>>, wtarget: string, tnode: real)
    requires Admissible(E, wtarget)
  {
    |E| > 0 && forall k :: 0 <= k < |E| ==> SetHits(E[k], SplitComposite(wtarget), tnode)
  }

  /**
   * One pass of `match` over a single source set: runs through every
   * (source term, target term) pair and reports whether any of them hit.
   */
  method FindMatch(S: set<string>, W: set<string>, tnode: real) returns (matchFound: bool)
    requires Comparable(S, W)
    ensures matchFound == SetHits(S, W, tnode)
  {
    var pairs := set s, t | s in S && t in W :: (s, t);
    assert forall p :: p in pairs ==> p.0 in S && p.1 in W;
    matchFound := false;
    var todo := pairs;
    while todo != {}
      invariant todo <= pairs
      invariant matchFound <==> exists p :: p in pairs && p !in todo && PairHit(p.0, p.1, tnode)
      decreases todo
    {
      var p :| p in todo;
      var (s, t) := p;
      // the similarity is computed before the containment test, so both are evaluated
      var editDist := Levenshtein(s, t);
      var similarity := 1.0 - editDist as real / Max(|s|, |t|) as real;
      if ContainsAsSeparateComponent(t, s) {
        matchFound := true;
      } else if similarity >= tnode {
        matchFound := true;
      }
      todo := todo - {p};
    }
    if SetHits(S, W, tnode) {
      var s, t :| s in S && t in W && PairHit(s, t, tnode);
      assert (s, t) in pairs;
    }
  }

  /** `match(E, wtarget, tnode)`. */
  method Match(E: seq<set<string>>, wtarget: string, tnode: real) returns (subSetOf: bool)
    requires Admissible(E, wtarget)
    ensures subSetOf == Matches(E, wtarget, tnode)
  {
    var W := SplitComposite(wtarget);
    subSetOf := true;
    if |E| == 0 {
      return false;
    }
    for k := 0 to |E|
      invariant subSetOf <==> forall m :: 0 <= m < k ==> SetHits(E[m], W, tnode)
    {
      var matchFound := FindMatch(E[k], W, tnode);
      if !matchFound {
        subSetOf := false;
      }
    }
  }

  /** A containment hit matches whatever the threshold. */
  lemma ContainmentHits(S: set<string>, W: set<string>, s: string, t: string, tnode: real)
    requires Comparable(S, W) && s in S && t in W && Occurs(s, t)
    ensures SetHits(S, W, tnode)
  {
    assert |s| > 0 || |t| > 0;
    ContainsIsOccurs(t, s);
    assert PairHit(s, t, tnode);
  }

  /** A source term that is itself a term of the target hits it whatever the threshold. */
  lemma SharedTermHits(S: set<string>, W: set<string>, s: string, tnode: real)
    requires Comparable(S, W) && s in S && s in W
    ensures SetHits(S, W, tnode)
  {
    assert OccursAt(s, s, 0);
    ContainmentHits(S, W, s, s, tnode);
  }

  /** Raising the threshold never turns a non-match into a match. */
  lemma {:induction false} MatchesAntitone(E: seq<set<string>>, wtarget: string, lo: real, hi: real)
    requires Admissible(E, wtarget) && lo <= hi
    ensures Matches(E, wtarget, hi) ==> Matches(E, wtarget, lo)
  {
    if Matches(E, wtarget, hi) {
      var W := SplitComposite(wtarget);
      forall k | 0 <= k < |E|
        ensures SetHits(E[k], W, lo)
      {
        var s, t :| s in E[k] && t in W && PairHit(s, t, hi);
        assert PairHit(s, t, lo);
      }
    }
  }

  /** The entries of `ys` whose flag in `keep` is set, in order. */
  function Filter(ys: seq<string>, keep: seq<bool>): seq<string>
    requires |keep| == |ys|
  {
    if ys == [] then []
    else Filter(ys[..|ys| - 1], keep[..|ys| - 1]) + (if keep[|ys| - 1] then [ys[|ys| - 1]] else [])
  }

  /** `idx` lists, in increasing order, positions of `ys` whose entries make up `xs`. */
  ghost predicate Selection(xs: seq<string>, ys: seq<string>, idx: seq<nat>) {
    && |idx| == |xs|
    && (forall i :: 0 <= i < |idx| ==> idx[i] < |ys| && xs[i] == ys[idx[i]])
    && (forall i, j :: 0 <= i < j < |idx| ==> idx[i] < idx[j])
  }

  /** The flagged positions: all of them, only them, in increasing order. */
  function FlaggedPositions(keep: seq<bool>): (p: seq<nat>)
    ensures forall i :: 0 <= i < |p| ==> p[i] < |keep| && keep[p[i]]
    ensures forall i, j :: 0 <= i < j < |p| ==> p[i] < p[j]
    ensures forall j :: 0 <= j < |keep| && keep[j] ==> j in p
  {
    if keep == [] then []
    else
      var n := |keep| - 1;
      var front := FlaggedPositions(keep[..n]);
      assert forall j :: 0 <= j < n ==> keep[..n][j] == keep[j];
      front + (if keep[n] then [n] else [])
  }

  /** Filtering picks the entries at the flagged positions. */
  lemma {:induction false} FilterPicksFlagged(ys: seq<string>, keep: seq<bool>)
    requires |keep| == |ys|
    ensures |Filter(ys, keep)| == |FlaggedPositions(keep)|
    ensures forall i :: 0 <= i < |Filter(ys, keep)| ==> Filter(ys, keep)[i] == ys[FlaggedPositions(keep)[i]]
  {
    if ys != [] {
      var n := |ys| - 1;
      FilterPicksFlagged(ys[..n], keep[..n]);
      var xs, p := Filter(ys[..n], keep[..n]), FlaggedPositions(keep[..n]);
      assert Filter(ys, keep) == xs + (if keep[n] then [ys[n]] else []);
      assert FlaggedPositions(keep) == p + (if keep[n] then [n] else []);
      forall i | 0 <= i < |xs|
        ensures Filter(ys, keep)[i] == ys[FlaggedPositions(keep)[i]]
      {
        assert ys[..n][p[i]] == ys[p[i]];
      }
    }
  }

  /** Every target category is comparable with the extended sets. */
  predicate AllAdmissible(E: seq<set<string>>, targets: seq<string>) {
    forall i :: 0 <= i < |targets| ==> Admissible(E, targets[i])
  }

  /** Whether each target category matches, position by position. */
  ghost function Verdicts(E: seq<set<string>>, targets: seq<string>, tnode: real): (v: seq<bool>)
    requires AllAdmissible(E, targets)
    ensures |v| == |targets|
  {
    seq(|targets|, j requires 0 <= j < |targets| => Matches(E, targets[j], tnode))
  }

  /** The target categories `getCandidate` keeps at threshold `tnode`. */
  ghost function Kept(E: seq<set<string>>, targets: seq<string>, tnode: real): seq<string>
    requires AllAdmissible(E, targets)
  {
    Filter(targets, Verdicts(E, targets, tnode))
  }

  /**
   * `getCandidate` is an order-preserving filter: the kept categories are
   * the entries at exactly the matching positions of the input, in input order.
   */
  lemma KeptIsOrderedFilter(E: seq<set<string>>, targets: seq<string>, tnode: real)
    requires AllAdmissible(E, targets)
    ensures exists idx ::
      && Selection(Kept(E, targets, tnode), targets, idx)
      && (forall j :: 0 <= j < |targets| ==> (j in idx <==> Matches(E, targets[j], tnode)))
  {
    var v := Verdicts(E, targets, tnode);
    FilterPicksFlagged(targets, v);
    var idx := FlaggedPositions(v);
    assert forall j :: 0 <= j < |targets| ==> v[j] == Matches(E, targets[j], tnode);
    assert Selection(Kept(E, targets, tnode), targets, idx);
  }

  /** `getCandidate(extendedSet, target_category)`. */
  method GetCandidate(E: seq<set<string>>, targets: seq<string>) returns (candidates: seq<string>)
    requires AllAdmissible(E, targets)
    ensures candidates == Kept(E, targets, DefaultThreshold)
  {
    ghost var v := Verdicts(E, targets, DefaultThreshold);
    candidates := [];
    for i := 0 to |targets|
      invariant candidates == Filter(targets[..i], v[..i])
    {
      assert targets[..i + 1][..i] == targets[..i] && v[..i + 1][..i] == v[..i];
      var matched := Match(E, targets[i], DefaultThreshold);
      if matched {
        candidates := candidates + [targets[i]];
      }
    }
    assert targets[..|targets|] == targets && v[..|targets|] == v;
  }
}
