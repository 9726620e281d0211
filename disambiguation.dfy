/**
 * Sense disambiguation (`ExtendedSplitTermSet.disambiguate` and
 * `get_related`): each sense of a word is scored by how much the glosses of
 * its neighbourhood overlap the context terms, and the first sense with the
 * strictly highest positive score wins.
 */
module Disambiguation {
  import opened Options
  import opened WordNet
  import opened Similarity

  /**
   * `get_related(S)`: the sense itself followed by its hypernyms, hyponyms,
   * part meronyms and part holonyms. As a set it is exactly that neighbourhood.
   */
  function Related(lex: Lexicon, s: Synset): (r: seq<Synset>)
    ensures |r| >= 1 && r[0] == s
    ensures forall x :: x in r <==>
      x == s || x in lex.hypernyms(s) || x in lex.hyponyms(s) || x in lex.partMeronyms(s) || x in lex.partHolonyms(s)
  {
    [s] + lex.hypernyms(s) + lex.hyponyms(s) + lex.partMeronyms(s) + lex.partHolonyms(s)
  }

  /** Every gloss in the neighbourhood of every sense of `w` is non-empty. */
  ghost predicate GlossesNonEmpty(lex: Lexicon, w: string) {
    forall s, r :: s in lex.synsets(w) && r in Related(lex, s) ==> lex.definition(r) != ""
  }

  /**
   * Scoring the senses of `w` against `ctx` never divides by zero: that
   * happens only when an empty gloss meets the empty context term.
   */
  ghost predicate ScoresDefined(lex: Lexicon, w: string, ctx: set<string>) {
    "" in ctx ==> GlossesNonEmpty(lex, w)
  }

  /** The pairs `itertools.product(set(get_related(s)), Wcontext)` runs through. */
  function Pairs(lex: Lexicon, s: Synset, ctx: set<string>): set<(Synset, string)> {
    set r, c | r in Related(lex, s) && c in ctx :: (r, c)
  }

  /** Every pair compares a non-empty gloss or a non-empty context term. */
  ghost predicate PairsDefined(lex: Lexicon, pairs: set<(Synset, string)>) {
    forall p :: p in pairs ==> lex.definition(p.0) != "" || p.1 != ""
  }

  /** Sum of the longest-common-substring ratios of gloss and context term over a set of pairs. */
  ghost function Overlap(lex: Lexicon, pairs: set<(Synset, string)>): real
    requires PairsDefined(lex, pairs)
    decreases pairs
  {
    if pairs == {} then 0.0
    else
      var p :| p in pairs;
      LcsRatio(lex.definition(p.0), p.1) + Overlap(lex, pairs - {p})
  }

  /** The sum does not depend on the order the pairs are visited in: any pair may go first. */
  lemma {:induction false} OverlapRemove(lex: Lexicon, pairs: set<(Synset, string)>, q: (Synset, string))
    requires PairsDefined(lex, pairs) && q in pairs
    ensures Overlap(lex, pairs) == LcsRatio(lex.definition(q.0), q.1) + Overlap(lex, pairs - {q})
    decreases pairs
  {
    var p :| p in pairs && Overlap(lex, pairs) == LcsRatio(lex.definition(p.0), p.1) + Overlap(lex, pairs - {p});
    if p != q {
      OverlapRemove(lex, pairs - {p}, q);
      OverlapRemove(lex, pairs - {q}, p);
      assert pairs - {p} - {q} == pairs - {q} - {p};
    }
  }

  /** The score `disambiguate` gives sense `s` against the context terms. */
  ghost function Score(lex: Lexicon, s: Synset, ctx: set<string>): real
    requires "" in ctx ==> forall r :: r in Related(lex, s) ==> lex.definition(r) != ""
  {
    Overlap(lex, Pairs(lex, s, ctx))
  }

  /** The scores of the senses of `w`, in the database's order. */
  ghost function Scores(lex: Lexicon, w: string, ctx: set<string>): (xs: seq<real>)
    requires ScoresDefined(lex, w, ctx)
    ensures |xs| == |lex.synsets(w)|
  {
    var z := lex.synsets(w);
    seq(|z|, k requires 0 <= k < |z| => Score(lex, z[k], ctx))
  }

  /**
   * The running best of the selection loop after visiting `xs`: the best score
   * so far (starting from 0) and the position that first reached it, replaced
   * only by a strictly greater score.
   */
  function Pick(xs: seq<real>): (real, Option<nat>) {
    if xs == [] then (0.0, None)
    else
      var (best, at) := Pick(xs[..|xs| - 1]);
      if xs[|xs| - 1] > best then (xs[|xs| - 1], Some(|xs| - 1)) else (best, at)
  }

  /**
   * The selection rule: nothing is picked when every score is at most 0;
   * otherwise the pick is positive, strictly above every earlier score and at
   * least every later one.
   */
  lemma {:induction false} PickIsFirstStrictMax(xs: seq<real>)
    ensures Pick(xs).1.None? <==> forall k :: 0 <= k < |xs| ==> xs[k] <= 0.0
    ensures Pick(xs).1.None? ==> Pick(xs).0 == 0.0
    ensures Pick(xs).1.Some? ==>
      var i := Pick(xs).1.value;
      && i < |xs| && Pick(xs).0 == xs[i] && 0.0 < xs[i]
      && (forall k :: 0 <= k < i ==> xs[k] < xs[i])
      && (forall k :: i < k < |xs| ==> xs[k] <= xs[i])
  {
    if xs != [] {
      var front := xs[..|xs| - 1];
      PickIsFirstStrictMax(front);
      assert forall k :: 0 <= k < |front| ==> front[k] == xs[k];
    }
  }

  /** The sense `disambiguate(w, ctx)` returns. */
  ghost function Chosen(lex: Lexicon, w: string, ctx: set<string>): Option<Synset>
    requires ScoresDefined(lex, w, ctx)
  {
    match Pick(Scores(lex, w, ctx)).1
    case None => None
    case Some(i) => if i < |lex.synsets(w)| then Some(lex.synsets(w)[i]) else None
  }

  /**
   * What `disambiguate` promises: no sense when `w` has no sense or none
   * scores above 0; otherwise the first sense whose score is strictly the
   * highest so far and not beaten later.
   */
  lemma ChosenIsFirstBest(lex: Lexicon, w: string, ctx: set<string>)
    requires ScoresDefined(lex, w, ctx)
    ensures Chosen(lex, w, ctx).None? <==>
      forall k :: 0 <= k < |lex.synsets(w)| ==> Score(lex, lex.synsets(w)[k], ctx) <= 0.0
    ensures Chosen(lex, w, ctx).Some? ==>
      exists i :: 0 <= i < |lex.synsets(w)| && Chosen(lex, w, ctx) == Some(lex.synsets(w)[i])
        && 0.0 < Score(lex, lex.synsets(w)[i], ctx)
        && (forall k :: 0 <= k < i ==> Score(lex, lex.synsets(w)[k], ctx) < Score(lex, lex.synsets(w)[i], ctx))
        && (forall k :: i < k < |lex.synsets(w)| ==> Score(lex, lex.synsets(w)[k], ctx) <= Score(lex, lex.synsets(w)[i], ctx))
  {
    var xs := Scores(lex, w, ctx);
    var z := lex.synsets(w);
    PickIsFirstStrictMax(xs);
    assert forall k :: 0 <= k < |z| ==> xs[k] == Score(lex, z[k], ctx);
    if Pick(xs).1.Some? {
      var i := Pick(xs).1.value;
      assert Chosen(lex, w, ctx) == Some(lex.synsets(w)[i]);
    }
  }

  /**
   * The inner loop of `disambiguate`: the ratio of every (related gloss,
   * context term) pair of sense `s`, summed in any order.
   */
  method SenseScore(lex: Lexicon, s: Synset, ctx: set<string>) returns (senseScore: real)
    requires "" in ctx ==> forall r :: r in Related(lex, s) ==> lex.definition(r) != ""
    ensures senseScore == Score(lex, s, ctx)
  {
    senseScore := 0.0;
    var pairs := Pairs(lex, s, ctx);
    var todo := pairs;
    while todo != {}
      invariant todo <= pairs
      invariant senseScore + Overlap(lex, todo) == Overlap(lex, pairs)
      decreases todo
    {
      var p :| p in todo;
      var (r, c) := p;
      var ratio := LongestCommonSubstring(lex.definition(r), c);
      OverlapRemove(lex, todo, p);
      senseScore := senseScore + ratio;
      todo := todo - {p};
    }
  }

  /**
   * `disambiguate(w, Wcontext)`: scores every sense of `w` by summing the
   * ratio of every (related gloss, context term) pair and keeps the first
   * strictly best one.
   */
  method Disambiguate(lex: Lexicon, w: string, ctx: set<string>) returns (best: Option<Synset>)
    requires ScoresDefined(lex, w, ctx)
    ensures best == Chosen(lex, w, ctx)
  {
    var z := lex.synsets(w);
    ghost var xs := Scores(lex, w, ctx);
    var bestScore := 0.0;
    best := None;
    ghost var at: Option<nat> := None;
    for k := 0 to |z|
      invariant (bestScore, at) == Pick(xs[..k])
      invariant at.Some? ==> at.value < k && best == Some(z[at.value])
      invariant at.None? ==> best == None
    {
      var s := z[k];
      var senseScore := SenseScore(lex, s, ctx);
      assert senseScore == xs[k];
      assert xs[..k + 1][..k] == xs[..k];
      if senseScore > bestScore {
        bestScore := senseScore;
        best := Some(s);
        at := Some(k);
      }
    }
    assert xs[..|z|] == xs;
  }
}
