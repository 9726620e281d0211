# Schema category matcher, modelled in Dafny

This project models the core of `schema/schema.py`. That file matches a source
product category against target categories. It:

- splits a category path on `/` into nodes;
- splits each node's composite name into terms;
- extends every term with the WordNet synonyms of the sense its path context
  selects;
- keeps the target categories whose terms are hit by every extended set;
- ranks candidate paths with path keys, keeping the best three.

Each component of the source has its own module:

| module | file | models |
|---|---|---|
| `Text` | `text.dfy` | lower-casing, newline removal, substring search |
| `Decompose` | `decompose.dfy` | `_split_category` and `_split_composite` |
| `EditDistance` | `editdistance.dfy` | the Levenshtein and normalised Damerau–Levenshtein library distances |
| `Similarity` | `similarity.dfy` | `_longest_common_substring`, the edit similarity of `match`, `_contains_as_separate_component` |
| `WordNet` | `wordnet.dfy` | the lexical database as a value |
| `Disambiguation` | `disambiguation.dfy` | `disambiguate` and `get_related` |
| `ExtendedSets` | `extended.dfy` | `split_terms` and `getExtendedSplitSet` |
| `Matcher` | `matcher.dfy` | `SemanticMatcher.match` and `getCandidate` |
| `TopK` | `topk.dfy` | the three-slot leaderboard of `matchNodes` |
| `PathKeys` | `pathkey.dfy` | the `PathKey` class, `matchNodes` and `rank` |

## How the model is built

- **The lexical database.** WordNet is the `WordNet.Lexicon` datatype. Its
  fields are functions: senses of a word, hypernyms, hyponyms, part meronyms,
  part holonyms, gloss and lemma names. Every operation that consults WordNet
  takes a `Lexicon` as a parameter.
- **Numbers.** Python floats are modelled as exact reals.
- **Division by zero.** Where the source would raise `ZeroDivisionError`, that
  case is a precondition. Examples: two empty terms in `match`, an empty gloss
  against the empty context term in `disambiguate`.
- **Iteration order.** Python sets iterate in hash order. The model picks set
  elements in an arbitrary order (`:|`), so every result is proved for any
  order.
- **Loops.** Loops in the source are `method`s with loop invariants. Each is
  proved equal to a specification function:

  | method | specification |
  |---|---|
  | `Similarity.LongestCommonSubstring` | `LcsRatio`, over a 2-D array table |
  | `Disambiguation.Disambiguate` | `Chosen` |
  | `ExtendedSets.SplitTerms` | `Extended` |
  | `Matcher.Match` | `Matches` |
  | `Matcher.GetCandidate` | `Kept` |
  | `PathKeys.CandidateKeys` | `Keys` |

  The properties the source promises are lemmas about those functions.
- **The leaderboard.** `bestScore` and `bestCandidate` are arrays that
  `TopK.OfferInPlace` updates in place. It is proved equal to the functional
  `TopK.Offer`. `TopK.RunRanked` proves the board always holds a strict top
  three: by score, ties resolved in favour of the earlier candidate.

`getCandidate` passes the per-node list of extended sets to `match`
unchanged, so every node's set must hit the target; nothing is flattened.

A consequence worth noting: the context string of a node is either empty or
starts with `" & "`. So its composite split always holds the empty term
(`ExtendedSets.ContextHasEmptyTerm`). Every sense is therefore scored against
`""` as well. That is harmless for a non-empty gloss. For an empty gloss it
divides by zero, so `GetExtendedSplitSet` requires every gloss it may reach to
be non-empty.

Splitting a term a second time gives back just that term
(`Decompose.SplitCompositeIdempotent`), unless the term holds ` and `. The
separators are matched before lower-casing, so `"A AND B"` stays one term,
`"a and b"`. Split again, that term becomes `"a"` and `"b"`
(`Decompose.UpperAndIsNotCut`, `Decompose.LowerAndIsCut`).

A candidate path that repeats the source path node for node never gets a
fresh symbol. Still, it gets the source key, and rank 1, only when no node
also matches an earlier source node (`PathKeys.IdenticalCandidateKey`).
For the source path `tv/tv` and the identical candidate, the second node
matches the first source node. Its key is `aa`, not `ab`, so its rank is
below 1 (`PathKeys.RepeatedNodeRanksBelowOne`).

## Model

| member | source | states |
|---|---|---|
| Text.ContainsIsOccurs | schema/schema.py:51 | the substring test `wb in wa` holds exactly when `wb` occurs at some position of `wa` |
| Text.RemoveNewlinesClean | schema/schema.py:10 | after `replace('\n', '')` no newline is left |
| Text.LowerShape | schema/schema.py:12 | lower-casing keeps the length, leaves no capital and changes nothing in a string that has none |
| Text.LowerKeepsNonLetters | schema/schema.py:12 | lower-casing leaves every character that is not a capital where it was |
| Decompose.SplitOnSlashJoins | schema/schema.py:17 | `split('/')` gives one more piece than there are slashes; the pieces joined with `/` give back the string; no piece holds a slash |
| Decompose.SplitCategoryShape | schema/schema.py:14-18 | the node count is the slash count of the newline-free path plus one; the nodes joined with `/` are the lower-cased path; every node is lower-case, with no `/` and no newline |
| Decompose.SeparatorFreeAvoids | schema/schema.py:11 | a piece of the separator split holds none of the separators `, `, ` & ` and `/` |
| Decompose.LowerPieceClean | schema/schema.py:11-12 | lower-casing a newline-free piece gives a lower-case term with none of `, `, ` & `, `/` and newline; ` and ` can remain, because lower-casing turns ` AND ` into one |
| Decompose.SplitCompositeShape | schema/schema.py:7-12 | the composite split is never empty; each term is lower-case and holds none of `, `, ` & `, `/` and newline; ` and ` can remain, because ` AND ` is not cut and lower-casing turns it into one |
| Decompose.PiecesRejoin | schema/schema.py:11 | the split loses nothing: one separator fewer than pieces, each one of `, `, ` & `, ` and `, `/`, and the pieces rejoined with them give back the string |
| Decompose.SplitCompositeRejoins | schema/schema.py:7-12 | the terms are the lower-cased pieces of a cut of the newline-free name into separator-free pieces and separators that rejoin to it |
| Decompose.PiecesOfSeparatorFree | schema/schema.py:11 | a string in which no separator starts is a single piece |
| Decompose.SplitCompositeIdempotent | schema/schema.py:7-12 | splitting a lower-case term with no separator, no ` and ` and no newline gives back just that term |
| Decompose.WordSplit | schema/schema.py:7-12 | a plain lower-case word is its own single term |
| Decompose.UpperAndIsNotCut | schema/schema.py:11-12 | `"A AND B"` is not cut and becomes the single term `"a and b"` |
| Decompose.LowerAndIsCut | schema/schema.py:11-12 | `"a and b"` is cut into `"a"` and `"b"`, so the term above does not split to itself |
| Decompose.LeadingSeparatorGivesEmptyTerm | schema/schema.py:11 | an empty name, or one starting with ` & `, splits into a set holding the empty term |
| EditDistance.DistanceZeroIffEqual | schema/schema.py:177 | an edit distance is 0 exactly when the two strings are equal |
| EditDistance.DistanceAtMostLonger | schema/schema.py:178 | an edit distance never exceeds the longer length, so the similarity of `match` stays in [0, 1] |
| EditDistance.NormalizedDamerau | schema/schema.py:255 | the normalised Damerau–Levenshtein distance lies in [0, 1] and is 0 exactly for equal inputs |
| Similarity.CommonSuffixIsLongestRun | schema/schema.py:27-39 | a table cell is the longest common run ending at that position of both strings |
| Similarity.CellStep | schema/schema.py:31-38 | a cell is its diagonal neighbour plus one when the characters agree, otherwise 0 |
| Similarity.LongestCommonIsLongestRun | schema/schema.py:20-46 | the length found is the length of a common run, and no common run is longer |
| Similarity.LongestCommonSymmetric | schema/schema.py:20-46 | the longest common run does not depend on argument order |
| Similarity.LongestCommonBounds | schema/schema.py:46 | the longest common run is at most each length, and a string shares all of itself with itself |
| Similarity.LcsRatio | schema/schema.py:46 | the ratio lies in [0, 1] |
| Similarity.LcsRatioSymmetric | schema/schema.py:46 | the ratio does not depend on argument order |
| Similarity.LcsRatioOne | schema/schema.py:46 | the ratio is 1 exactly when the two strings are equal |
| Similarity.LongestCommonSubstring | schema/schema.py:20-46 | the dynamic-programming table over a 2-D array returns the longest-run ratio |
| Similarity.EditSimilarity | schema/schema.py:177-178 | `1 - distance / longer length` lies in [0, 1] and is 1 exactly for equal terms |
| Similarity.ContainsAsSeparateComponent | schema/schema.py:48-53 | true exactly when `wb` occurs somewhere in `wa` |
| Disambiguation.Related | schema/schema.py:129-138 | the related senses start with the sense itself, then hold exactly its hypernyms, hyponyms, part meronyms and part holonyms |
| Disambiguation.OverlapRemove | schema/schema.py:113-118 | a sense's score adds, for every (related sense, context term) pair, the longest-run ratio of the gloss and the term, whatever the iteration order |
| Disambiguation.PickIsFirstStrictMax | schema/schema.py:110-121 | the selection loop picks nothing when every score is at most 0; otherwise it picks a positive score strictly above all earlier scores and at least all later ones |
| Disambiguation.ChosenIsFirstBest | schema/schema.py:106-122 | the chosen sense is absent exactly when no sense scores above 0; otherwise it is the first sense with the highest positive score |
| Disambiguation.SenseScore | schema/schema.py:113-118 | the inner loop sums the ratios of every (related gloss, context term) pair into the sense's score, whatever order the set gives |
| Disambiguation.Disambiguate | schema/schema.py:106-122 | the loop returns the chosen sense |
| ExtendedSets.Others | schema/schema.py:75-77 | the context nodes are exactly the path nodes different from the node |
| ExtendedSets.ContextIsJoinedOthers | schema/schema.py:74-78 | the context is ` & ` followed by each other node, in path order; nodes equal to the node are skipped |
| ExtendedSets.ContextShape | schema/schema.py:74-78 | the context is empty exactly when every node equals the node; otherwise it starts with ` & ` |
| ExtendedSets.ContextHasEmptyTerm | schema/schema.py:78-88 | the split context always holds the empty term |
| ExtendedSets.BuildContext | schema/schema.py:74-78 | the inner loop builds the context string of the node |
| ExtendedSets.ExtendedMembers | schema/schema.py:92-103 | the extended set holds every term and every lemma name of every chosen sense, and nothing else |
| ExtendedSets.ExtendedAdd | schema/schema.py:93-100 | one loop step adds the term and the lemma names of its chosen sense |
| ExtendedSets.SplitTerms | schema/schema.py:83-104 | the loop returns the extended set of the node's terms against the context terms; that set contains every term of the node |
| ExtendedSets.GetExtendedSplitSet | schema/schema.py:64-81 | one set per path node, in path order; each is that node's extended set against the rest of the path and contains the node's own terms |
| Matcher.FindMatch | schema/schema.py:174-182 | the pass over all pairs reports a hit exactly when some source term occurs in, or is edit-similar enough to, some target term |
| Matcher.Match | schema/schema.py:158-185 | `match` is true exactly when `E` is non-empty and every set of `E` hits some composite term of the target |
| Matcher.ContainmentHits | schema/schema.py:179-180 | a source term occurring in a target term hits at any threshold |
| Matcher.SharedTermHits | schema/schema.py:179-180 | a term the source set and the target share hits at any threshold |
| Matcher.MatchesAntitone | schema/schema.py:181 | whatever matches at a higher threshold matches at every lower one |
| Matcher.FlaggedPositions | schema/schema.py:153-155 | the positions kept are all and only the matching ones, in increasing order |
| Matcher.FilterPicksFlagged | schema/schema.py:152-156 | the kept list holds the entries at the kept positions, in order |
| Matcher.KeptIsOrderedFilter | schema/schema.py:151-156 | `getCandidate` returns exactly the matching targets, each taken from the input, in input order |
| Matcher.GetCandidate | schema/schema.py:151-156 | the loop returns the ordered filter of the targets by `match` at 0.7 |
| TopK.InsertAt | schema/schema.py:239-240 | the slot taken is the first whose score the new score strictly beats |
| TopK.Shifted | schema/schema.py:242-246 | the slice shift keeps the earlier slots, puts the new entry at the slot and moves the later slots down one, dropping the last |
| TopK.ShiftIn | schema/schema.py:242-246 | the in-place array shift produces the shifted list |
| TopK.OfferInPlace | schema/schema.py:239-247 | one ranking step updates the score and candidate arrays in place exactly as the functional offer does |
| TopK.NonIncreasing | schema/schema.py:239-247 | the board's scores are non-negative and non-increasing |
| TopK.OfferKeepsRanked | schema/schema.py:238-247 | offering a score keeps the board a strict top three of the scores seen so far |
| TopK.RunRanked | schema/schema.py:234-247 | after all candidates the board holds the three best positive scores, best first; earlier candidates win ties; empty slots stay at 0 |
| TopK.ResolveOffer | schema/schema.py:245-246 | offering candidate indices and resolving them afterwards equals offering the candidates themselves |
| PathKeys.SourceKey | schema/schema.py:204-207 | the loop builds the source key `a`, `b`, …, one strictly increasing symbol per node |
| PathKeys.FirstMatchFrom | schema/schema.py:219-223 | the search returns the first source node from `j` on that matches, or none when no later one does |
| PathKeys.FindNode | schema/schema.py:219-223 | the breaking loop reports a match exactly when some source node matches, and returns the first one |
| PathKeys.UnmatchedInStep | schema/schema.py:225-229 | the fresh-symbol counter grows by one exactly at unmatched nodes |
| PathKeys.UnmatchedAllStep | schema/schema.py:214-230 | the counter carries on across candidates |
| PathKeys.UnmatchedInGrows | schema/schema.py:227-229 | the counter never decreases, and it grows past an unmatched node |
| PathKeys.UnmatchedAllGrows | schema/schema.py:214-230 | the counter never decreases across candidates |
| PathKeys.CandidateKey | schema/schema.py:217-230 | the inner loop builds one candidate's key and hands on the counter |
| PathKeys.CandidateKeys | schema/schema.py:210-230 | the outer loop builds every candidate's key |
| PathKeys.FreshIncreasing | schema/schema.py:214-229 | fresh symbols strictly increase in candidate-then-node order |
| PathKeys.KeysShape | schema/schema.py:218-229 | a matched node carries the source symbol of the first source node it matches; an unmatched node carries a fresh symbol above every source symbol, matches no source node, and no other node shares its symbol |
| PathKeys.OwnSetMatches | schema/schema.py:219-223 | a node whose terms lie in source node `k`'s extended set matches `k`, so its first match is `k` or earlier |
| PathKeys.OwnSetKey | schema/schema.py:218-229 | such a node gets `k`'s letter or an earlier one, never a fresh symbol, and `k`'s letter exactly when no earlier source node matches it |
| PathKeys.IdenticalCandidateKey | schema/schema.py:201-257 | a candidate repeating the source path node for node gets the source key, and rank 1, exactly when no node also matches an earlier source node |
| PathKeys.RepeatedNodeRanksBelowOne | schema/schema.py:201-257 | for the source path `tv/tv`, the identical candidate gets key `aa` and ranks below 1 |
| PathKeys.Missing | schema/schema.py:254 | a key that equals the source key has no missing symbols |
| PathKeys.Complement | schema/schema.py:257 | `1 - a/b` lies in [0, 1] and is 1 exactly when `a` is 0 |
| PathKeys.Rank | schema/schema.py:252-258 | the rank lies in [0, 1] and is 1 exactly when the candidate key equals the source key |
| PathKeys.BestThree | schema/schema.py:233-250 | the ranking loop leaves fresh arrays holding the board after every candidate's rank, with the board's candidates |
| PathKeys.PathKey.constructor | schema/schema.py:195-199 | the constructor stores the split source path, the candidates and the extended sets, then runs `matchNodes` |
| PathKeys.PathKey.MatchNodes | schema/schema.py:201-250 | `bestScore` and `bestCandidate` become the top three of the candidates' ranks |

## Left out

- `schema/main_scipt.py` is not part of this model. It reads the input files and prints the results.
- The WordNet corpus is not modelled; `get_synsets`, `get_gloss` and the relation lookups of `get_related` read the `Lexicon` parameter instead.
- `EditDistance`: the `Levenshtein` and `pyxdameraulevenshtein` library code is not part of this model. Both are written out from their textbook definitions. Damerau–Levenshtein is written as its optimal-string-alignment variant.
- Float rounding is not modelled: every division is exact.
- Python's Unicode `lower()` is not modelled: `Text.Lower` folds only `A`–`Z`. The regular-expression engine behind `re.split` is not modelled either: `Decompose.Pieces` cuts at every separator in one left-to-right scan.
- `chr` raising `ValueError` past code point 0x10FFFF is not modelled: path-key symbols are unbounded natural numbers.
- The loop at lines 40-44 of `_longest_common_substring` is not modelled: it builds a string that is never used.
- The placeholder `0` of an empty `bestCandidate` slot is modelled as `None`.
- `getBestCandidate` and `getBestScore` are not modelled: they only return the public fields `bestCandidate` and `bestScore`.
- `ExtendedSets.SplitTerms`: the `None` filter at line 103 is not modelled, because every lemma name and term is a string and so the filter removes nothing.
- `Similarity.ContainsAsSeparateComponent`: word boundaries are not checked, because the source performs a plain substring test whatever its docstring says.
- PathKeys.FindNode, PathKeys.CandidateKey, PathKeys.CandidateKeys, PathKeys.PathKey.MatchNodes, PathKeys.PathKey.constructor: the precondition over-requires. It asks that every source set can be compared with every candidate node. The loop breaks at the first match, so the source only needs this for the sets it reaches.
