/**
 * Extended split term sets (`ExtendedSplitTermSet.split_terms` and
 * `getExtendedSplitSet`): for each node of a category path, its composite
 * terms together with the lemma names of the sense that the rest of the path
 * selects for each term.
 */
module ExtendedSets {
  import opened Options
  import opened Text
  import opened Decompose
  import opened WordNet
  import opened Disambiguation

  /**
   * The context string `getExtendedSplitSet` builds for `node` while walking
   * `nodes` in order: " & " followed by each node that differs from `node`.
   */
  function Context(nodes: seq<string>, node: string): string
  {
    if nodes == [] then ""
    else
      var last := nodes[|nodes| - 1];
      Context(nodes[..|nodes| - 1], node) + (if last == node then "" else " & " + last)
  }

  /** The nodes of `nodes` that differ from `node`, in order. */
  function Others(nodes: seq<string>, node: string): (r: seq<string>)
    ensures forall n :: n in r <==> n in nodes && n != node
  {
    if nodes == [] then []
    else (if nodes[0] == node then [] else [nodes[0]]) + Others(nodes[1..], node)
  }

  /** Each string of `xs` preceded by " & ", concatenated. */
  function Joined(xs: seq<string>): string
  {
    if xs == [] then "" else " & " + xs[0] + Joined(xs[1..])
  }

  lemma {:induction false} OthersAppend(nodes: seq<string>, x: string, node: string)
    ensures Others(nodes + [x], node) == Others(nodes, node) + (if x == node then [] else [x])
  {
    if nodes == [] {
      assert nodes + [x] == [x];
    } else {
      assert (nodes + [x])[1..] == nodes[1..] + [x];
      OthersAppend(nodes[1..], x, node);
    }
  }

  lemma {:induction false} JoinedAppend(xs: seq<string>, ys: seq<string>)
    ensures Joined(xs + ys) == Joined(xs) + Joined(ys)
  {
    if xs == [] {
      assert xs + ys == ys;
    } else {
      assert (xs + ys)[1..] == xs[1..] + ys;
      JoinedAppend(xs[1..], ys);
    }
  }

  /**
   * A node's context is built from the other nodes only: every node equal to
   * it is skipped, every other one contributes " & " and itself, in path order.
   */
  lemma {:induction false} ContextIsJoinedOthers(nodes: seq<string>, node: string)
    ensures Context(nodes, node) == Joined(Others(nodes, node))
  {
    if nodes != [] {
      var front, last := nodes[..|nodes| - 1], nodes[|nodes| - 1];
      assert nodes == front + [last];
      ContextIsJoinedOthers(front, node);
      OthersAppend(front, last, node);
      JoinedAppend(Others(front, node), if last == node then [] else [last]);
      if last != node {
        assert Joined([last]) == " & " + last;
      }
    }
  }

  /** The context is empty exactly when every node equals `node`; otherwise it starts with " & ". */
  lemma {:induction false} ContextShape(nodes: seq<string>, node: string)
    ensures Context(nodes, node) == "" <==> forall k :: 0 <= k < |nodes| ==> nodes[k] == node
    ensures Context(nodes, node) == "" || StartsWith(Context(nodes, node), " & ")
  {
    if nodes != [] {
      var front, last := nodes[..|nodes| - 1], nodes[|nodes| - 1];
      ContextShape(front, node);
      assert forall k :: 0 <= k < |front| ==> front[k] == nodes[k];
      var c := Context(front, node);
      var tail: string := if last == node then "" else " & " + last;
      assert Context(nodes, node) == c + tail;
      if c != "" {
        assert (c + tail)[..3] == c[..3];
      } else if tail != "" {
        assert c + tail == tail;
      }
    }
  }

  /**
   * The context term set always holds the empty term: the context is either
   * empty or starts with the separator " & ".
   */
  lemma ContextHasEmptyTerm(nodes: seq<string>, node: string)
    ensures "" in SplitComposite(Context(nodes, node))
  {
    ContextShape(nodes, node);
    LeadingSeparatorGivesEmptyTerm(Context(nodes, node));
  }

  /** Every term of `terms` can be disambiguated against `ctx` without dividing by zero. */
  ghost predicate TermsDefined(lex: Lexicon, terms: set<string>, ctx: set<string>) {
    forall t :: t in terms ==> ScoresDefined(lex, t, ctx)
  }

  /** The lemma names of the sense chosen for `t`, or nothing when no sense is chosen. */
  ghost function Synonyms(lex: Lexicon, t: string, ctx: set<string>): set<string>
    requires ScoresDefined(lex, t, ctx)
  {
    match Chosen(lex, t, ctx)
    case None => {}
    case Some(s) => set l | l in lex.lemmaNames(s)
  }

  /** The extended split term set of the terms `terms` against the context terms `ctx`. */
  ghost function Extended(lex: Lexicon, terms: set<string>, ctx: set<string>): set<string>
    requires TermsDefined(lex, terms, ctx)
  {
    terms + set t, l | t in terms && l in Synonyms(lex, t, ctx) :: l
  }

  /**
   * What an extended set holds: every term, every lemma name of every sense
   * chosen for a term, and nothing else.
   */
  lemma ExtendedMembers(lex: Lexicon, terms: set<string>, ctx: set<string>, x: string)
    requires TermsDefined(lex, terms, ctx)
    ensures terms <= Extended(lex, terms, ctx)
    ensures x in Extended(lex, terms, ctx) <==>
      x in terms || exists t :: t in terms && Chosen(lex, t, ctx).Some? && x in lex.lemmaNames(Chosen(lex, t, ctx).value)
  {
    if exists t :: t in terms && Chosen(lex, t, ctx).Some? && x in lex.lemmaNames(Chosen(lex, t, ctx).value) {
      var t :| t in terms && Chosen(lex, t, ctx).Some? && x in lex.lemmaNames(Chosen(lex, t, ctx).value);
      assert x in Synonyms(lex, t, ctx);
    }
  }

  /** Adding one term adds that term and the lemma names of its chosen sense. */
  lemma ExtendedAdd(lex: Lexicon, done: set<string>, t: string, ctx: set<string>)
    requires TermsDefined(lex, done + {t}, ctx)
    ensures Extended(lex, done + {t}, ctx) == Extended(lex, done, ctx) + ({t} + Synonyms(lex, t, ctx))
  {
    forall x | x in Synonyms(lex, t, ctx)
      ensures x in Extended(lex, done + {t}, ctx)
    {
    }
  }

  /**
   * `split_terms(wcategory, wcontext)`: every composite term of the node,
   * disambiguated against the composite terms of the context, joined with the
   * lemma names of its chosen sense.
   */
  method SplitTerms(lex: Lexicon, wcategory: string, wcontext: string) returns (extended: set<string>)
    requires TermsDefined(lex, SplitComposite(wcategory), SplitComposite(wcontext))
    ensures extended == Extended(lex, SplitComposite(wcategory), SplitComposite(wcontext))
    ensures SplitComposite(wcategory) <= extended
  {
    var ctx := SplitComposite(wcontext);
    var terms := SplitComposite(wcategory);
    extended := {};
    var todo := terms;
    while todo != {}
      invariant todo <= terms
      invariant extended == Extended(lex, terms - todo, ctx)
      decreases todo
    {
      var t :| t in todo;
      var sense := Disambiguate(lex, t, ctx);
      var ext: set<string> := {};
      if sense.Some? {
        ext := set l | l in lex.lemmaNames(sense.value);
      }
      ext := ext + {t};
      ExtendedAdd(lex, terms - todo, t, ctx);
      assert (terms - todo) + {t} == terms - (todo - {t});
      extended := extended + ext;
      todo := todo - {t};
    }
    assert terms - todo == terms;
  }

  /** Every composite term of every node can be disambiguated against any context. */
  ghost predicate NodesDefined(lex: Lexicon, nodes: seq<string>) {
    forall node, t :: node in nodes && t in SplitComposite(node) ==> GlossesNonEmpty(lex, t)
  }

  /** The extended set of the `k`-th node, disambiguated against the rest of the path. */
  ghost function NodeTerms(lex: Lexicon, nodes: seq<string>, k: nat): set<string>
    requires NodesDefined(lex, nodes) && k < |nodes|
  {
    Extended(lex, SplitComposite(nodes[k]), SplitComposite(Context(nodes, nodes[k])))
  }

  /** The inner loop of `getExtendedSplitSet`: the context string of `node`. */
  method BuildContext(nodes: seq<string>, node: string) returns (context: string)
    ensures context == Context(nodes, node)
  {
    context := "";
    for m := 0 to |nodes|
      invariant context == Context(nodes[..m], node)
    {
      assert nodes[..m + 1][..m] == nodes[..m];
      if nodes[m] == node {
        continue;
      }
      context := context + " & " + nodes[m];
    }
    assert nodes[..|nodes|] == nodes;
  }

  /**
   * `getExtendedSplitSet(category)`: one extended set per path node, in path
   * order, each holding at least the node's composite terms.
   */
  method GetExtendedSplitSet(lex: Lexicon, category: string) returns (extendedSet: seq<set<string>>)
    requires NodesDefined(lex, SplitCategory(category))
    ensures |extendedSet| == |SplitCategory(category)|
    ensures forall k :: 0 <= k < |extendedSet| ==> extendedSet[k] == NodeTerms(lex, SplitCategory(category), k)
    ensures forall k :: 0 <= k < |extendedSet| ==> SplitComposite(SplitCategory(category)[k]) <= extendedSet[k]
  {
    var nodes := SplitCategory(category);
    extendedSet := [];
    for k := 0 to |nodes|
      invariant |extendedSet| == k
      invariant forall m :: 0 <= m < k ==> extendedSet[m] == NodeTerms(lex, nodes, m)
    {
      var node := nodes[k];
      var context := BuildContext(nodes, node);
      var e := SplitTerms(lex, node, context);
      extendedSet := extendedSet + [e];
    }
  }
}
