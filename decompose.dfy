/**
 * The term decomposers of schema/schema.py: a category path is cut into its
 * nodes at every '/', and a node is cut into its composite terms at the
 * separators ", ", " & ", " and " and "/".
 */
module Decompose {
  import opened Text

  // ---------------------------------------------------------------------------
  // Path nodes: `w.replace('\n', '').split('/')`, each piece lower-cased
  // ---------------------------------------------------------------------------

  /** `s.split('/')`: the pieces between the slashes, in order, empty ones included. */
  function SplitOnSlash(s: string): (r: seq<string>)
    ensures |r| >= 1
  {
    if s == [] then [""]
    else if s[0] == '/' then [""] + SplitOnSlash(s[1..])
    else
      var rest := SplitOnSlash(s[1..]);
      [[s[0]] + rest[0]] + rest[1..]
  }

  /** The nodes of a category path. */
  function SplitCategory(w: string): seq<string> {
    var pieces := SplitOnSlash(RemoveNewlines(w));
    seq(|pieces|, i requires 0 <= i < |pieces| => Lower(pieces[i]))
  }

  /** Number of occurrences of `c` in `s`. */
  function Count(c: char, s: string): nat {
    if s == [] then 0 else (if s[0] == c then 1 else 0) + Count(c, s[1..])
  }

  /** The nodes written back with '/' between them. */
  function JoinSlash(nodes: seq<string>): string
    requires |nodes| >= 1
  {
    if |nodes| == 1 then nodes[0] else nodes[0] + "/" + JoinSlash(nodes[1..])
  }

  lemma {:induction false} JoinSlashCons(c: char, nodes: seq<string>)
    requires |nodes| >= 1
    ensures JoinSlash([[c] + nodes[0]] + nodes[1..]) == [c] + JoinSlash(nodes)
  {
    var ns := [[c] + nodes[0]] + nodes[1..];
    assert ns[1..] == nodes[1..];
  }

  /** Splitting on '/' and joining again gives the input back. */
  lemma {:induction false} SplitOnSlashJoins(s: string)
    ensures JoinSlash(SplitOnSlash(s)) == s
    ensures |SplitOnSlash(s)| == Count('/', s) + 1
    ensures forall k, i :: 0 <= k < |SplitOnSlash(s)| && 0 <= i < |SplitOnSlash(s)[k]| ==>
              SplitOnSlash(s)[k][i] != '/' && SplitOnSlash(s)[k][i] in s
  {
    if s == [] {
    } else if s[0] == '/' {
      SplitOnSlashJoins(s[1..]);
      var ps := [""] + SplitOnSlash(s[1..]);
      assert ps[1..] == SplitOnSlash(s[1..]);
      assert s == "/" + s[1..];
      forall k, i | 0 <= k < |ps| && 0 <= i < |ps[k]|
        ensures ps[k][i] != '/' && ps[k][i] in s
      {
        assert ps[k][i] in s[1..];
      }
    } else {
      SplitOnSlashJoins(s[1..]);
      var rest := SplitOnSlash(s[1..]);
      JoinSlashCons(s[0], rest);
      assert s == [s[0]] + s[1..];
      var ps := [[s[0]] + rest[0]] + rest[1..];
      forall k, i | 0 <= k < |ps| && 0 <= i < |ps[k]|
        ensures ps[k][i] != '/' && ps[k][i] in s
      {
        if k == 0 {
          if i > 0 {
            assert ps[k][i] == rest[0][i - 1];
            assert rest[0][i - 1] in s[1..];
          }
        } else {
          assert ps[k] == rest[k];
          assert ps[k][i] in s[1..];
        }
      }
    }
  }

  lemma LowerAppend(a: string, b: string)
    ensures Lower(a + b) == Lower(a) + Lower(b)
  {
  }

  /** Lower-casing every node and joining equals joining and lower-casing. */
  lemma {:induction false} JoinSlashLower(nodes: seq<string>)
    requires |nodes| >= 1
    ensures JoinSlash(seq(|nodes|, i requires 0 <= i < |nodes| => Lower(nodes[i]))) == Lower(JoinSlash(nodes))
  {
    var lowered := seq(|nodes|, i requires 0 <= i < |nodes| => Lower(nodes[i]));
    if |nodes| > 1 {
      var tail := nodes[1..];
      JoinSlashLower(tail);
      assert lowered[1..] == seq(|tail|, i requires 0 <= i < |tail| => Lower(tail[i]));
      LowerAppend(nodes[0] + "/", JoinSlash(tail));
      LowerAppend(nodes[0], "/");
      assert Lower("/") == "/";
    }
  }

  /**
   * The shape of a split path: once the newlines are gone there is one node
   * more than there are slashes, the nodes joined by '/' give back the
   * lower-cased path, and no node holds a '/', a '\n' or a capital.
   */
  lemma SplitCategoryShape(w: string)
    ensures |SplitCategory(w)| == Count('/', RemoveNewlines(w)) + 1
    ensures JoinSlash(SplitCategory(w)) == Lower(RemoveNewlines(w))
    ensures forall k :: 0 <= k < |SplitCategory(w)| ==>
              IsLower(SplitCategory(w)[k]) &&
              !Contains(SplitCategory(w)[k], "/") && !Contains(SplitCategory(w)[k], "\n")
  {
    var s := RemoveNewlines(w);
    var pieces := SplitOnSlash(s);
    SplitOnSlashJoins(s);
    JoinSlashLower(pieces);
    RemoveNewlinesClean(w);
    var r := SplitCategory(w);
    forall k | 0 <= k < |r|
      ensures IsLower(r[k]) && !Contains(r[k], "/") && !Contains(r[k], "\n")
    {
      forall i | 0 <= i < |r[k]| ensures r[k][i] != '/' && r[k][i] != '\n' {
        assert pieces[k][i] in s;
      }
      NoCharNoContains(r[k], '/');
      NoCharNoContains(r[k], '\n');
    }
  }

  lemma NoCharNoContains(x: string, c: char)
    requires forall i :: 0 <= i < |x| ==> x[i] != c
    ensures !Contains(x, [c])
  {
    ContainsIsOccurs(x, [c]);
    forall i | 0 <= i < |x| ensures !OccursAt([c], x, i) {
      assert x[i..i + 1][0] == x[i];
    }
  }

  // ---------------------------------------------------------------------------
  // Composite terms: `re.split(', | & | and |/', w.replace('\n', ''))`
  // ---------------------------------------------------------------------------

  /**
   * Length of the separator that starts `s`, or 0 when none does. The four
   * alternatives begin with different characters (or differ in their second
   * one), so at most one of them matches at any position and the order in
   * which the regular expression tries them does not matter.
   */
  function SeparatorAt(s: string): (n: nat)
    ensures n <= |s|
  {
    if StartsWith(s, ", ") then 2
    else if StartsWith(s, " & ") then 3
    else if StartsWith(s, " and ") then 5
    else if StartsWith(s, "/") then 1
    else 0
  }

  /** The pieces `re.split` produces, by a left-to-right scan that cuts at every separator. */
  function Pieces(s: string): (r: seq<string>)
    ensures |r| >= 1
    decreases |s|
  {
    if s == [] then [""]
    else if SeparatorAt(s) > 0 then [""] + Pieces(s[SeparatorAt(s)..])
    else
      var rest := Pieces(s[1..]);
      [[s[0]] + rest[0]] + rest[1..]
  }

  /** No separator starts anywhere inside `p`. */
  ghost predicate SeparatorFree(p: string) {
    forall i :: 0 <= i < |p| ==> SeparatorAt(p[i..]) == 0
  }

  /** A separator at the head of a prefix of `s` is also one at the head of `s`. */
  lemma SeparatorAtPrefix(p: string, s: string)
    requires |p| <= |s| && s[..|p|] == p
    requires SeparatorAt(p) > 0
    ensures SeparatorAt(s) > 0
  {
    if StartsWith(p, ", ") {
      assert s[..2] == p[..2];
    } else if StartsWith(p, " & ") {
      assert s[..3] == p[..3];
    } else if StartsWith(p, " and ") {
      assert s[..5] == p[..5];
    } else {
      assert s[..1] == p[..1];
    }
  }

  /** The first piece is a prefix of `s`. */
  lemma {:induction false} PiecesFirstIsPrefix(s: string)
    ensures |Pieces(s)[0]| <= |s| && s[..|Pieces(s)[0]|] == Pieces(s)[0]
    decreases |s|
  {
    if s != [] && SeparatorAt(s) == 0 {
      PiecesFirstIsPrefix(s[1..]);
      var first := [s[0]] + Pieces(s[1..])[0];
      assert Pieces(s)[0] == first;
      assert s[..|first|] == [s[0]] + s[1..][..|first| - 1];
    }
  }

  /** Every character of every piece is a character of `s`. */
  lemma {:induction false} PiecesChars(s: string)
    ensures forall k, i :: 0 <= k < |Pieces(s)| && 0 <= i < |Pieces(s)[k]| ==> Pieces(s)[k][i] in s
    decreases |s|
  {
    if s == [] {
    } else if SeparatorAt(s) > 0 {
      var t := s[SeparatorAt(s)..];
      PiecesChars(t);
      var ps := Pieces(s);
      assert ps == [""] + Pieces(t);
      forall k, i | 0 <= k < |ps| && 0 <= i < |ps[k]| ensures ps[k][i] in s {
        assert ps[k] == Pieces(t)[k - 1];
        assert ps[k][i] in t;
      }
    } else {
      PiecesChars(s[1..]);
      var rest := Pieces(s[1..]);
      var ps := Pieces(s);
      assert ps == [[s[0]] + rest[0]] + rest[1..];
      forall k, i | 0 <= k < |ps| && 0 <= i < |ps[k]| ensures ps[k][i] in s {
        if k == 0 {
          if i > 0 {
            assert ps[0][i] == rest[0][i - 1];
            assert rest[0][i - 1] in s[1..];
          }
        } else {
          assert ps[k] == rest[k];
          assert ps[k][i] in s[1..];
        }
      }
    }
  }

  /** No piece holds a separator. */
  lemma {:induction false} PiecesSeparatorFree(s: string)
    ensures forall k :: 0 <= k < |Pieces(s)| ==> SeparatorFree(Pieces(s)[k])
    decreases |s|
  {
    if s == [] {
    } else if SeparatorAt(s) > 0 {
      var t := s[SeparatorAt(s)..];
      PiecesSeparatorFree(t);
      assert Pieces(s) == [""] + Pieces(t);
    } else {
      PiecesSeparatorFree(s[1..]);
      PiecesFirstIsPrefix(s[1..]);
      var rest := Pieces(s[1..]);
      var first := [s[0]] + rest[0];
      var ps := Pieces(s);
      assert ps == [first] + rest[1..];
      assert s[..|first|] == first;
      forall i | 0 <= i < |first| ensures SeparatorAt(first[i..]) == 0 {
        if i == 0 {
          if SeparatorAt(first) > 0 {
            SeparatorAtPrefix(first, s);
          }
        } else {
          assert first[i..] == rest[0][i - 1..];
        }
      }
      forall k | 0 <= k < |ps| ensures SeparatorFree(ps[k]) {
        if k > 0 {
          assert ps[k] == rest[k];
        }
      }
    }
  }

  /** A separator-free piece contains none of the separators that need no letter. */
  lemma {:induction false} SeparatorFreeAvoids(p: string)
    requires SeparatorFree(p)
    ensures !Contains(p, ", ") && !Contains(p, " & ") && !Contains(p, "/")
  {
    if p != [] {
      assert SeparatorAt(p[0..]) == 0;
      assert p[0..] == p;
      assert SeparatorFree(p[1..]) by {
        forall i | 0 <= i < |p[1..]| ensures SeparatorAt(p[1..][i..]) == 0 {
          assert p[1..][i..] == p[i + 1..];
        }
      }
      SeparatorFreeAvoids(p[1..]);
    }
  }

  /** A literal that holds no lower-case letter. */
  predicate LetterFree(lit: string) {
    forall j :: 0 <= j < |lit| ==> !('a' <= lit[j] <= 'z')
  }

  /** Lower-casing cannot create a letter-free literal that was not there. */
  lemma LowerCreatesNoLetterFree(p: string, lit: string)
    requires LetterFree(lit)
    requires Contains(Lower(p), lit)
    ensures Contains(p, lit)
  {
    ContainsIsOccurs(Lower(p), lit);
    ContainsIsOccurs(p, lit);
    var i :| OccursAt(lit, Lower(p), i);
    forall j | 0 <= j < |lit| ensures p[i + j] == lit[j] {
      assert Lower(p)[i..i + |lit|][j] == lit[j];
    }
    assert p[i..i + |lit|] == lit;
    assert OccursAt(lit, p, i);
  }

  /** The separators and the newline are letter-free. */
  predicate Separated(x: string) {
    Contains(x, ", ") || Contains(x, " & ") || Contains(x, "/") || Contains(x, "\n")
  }

  /** `_split_composite`: the set of the lower-cased pieces of `w` without its newlines. */
  function SplitComposite(w: string): set<string> {
    var pieces := Pieces(RemoveNewlines(w));
    set i | 0 <= i < |pieces| :: Lower(pieces[i])
  }

  /**
   * The terms of a composite name: there is at least one (the empty string
   * counts as a piece), every term is lower-case, and no term holds a newline
   * or any of the separators ", ", " & " and "/". A term may still hold
   * " and ": separators are matched before lower-casing, so " AND " is not one.
   */
  lemma SplitCompositeShape(w: string)
    ensures SplitComposite(w) != {}
    ensures forall x :: x in SplitComposite(w) ==> IsLower(x) && !Separated(x)
  {
    var s := RemoveNewlines(w);
    var pieces := Pieces(s);
    PiecesSeparatorFree(s);
    PiecesChars(s);
    RemoveNewlinesClean(w);
    LowerPiecesClean(s, pieces);
    assert Lower(pieces[0]) in SplitComposite(w);
  }

  lemma LowerPiecesClean(s: string, pieces: seq<string>)
    requires pieces == Pieces(s)
    requires forall i :: 0 <= i < |s| ==> s[i] != '\n'
    requires forall k :: 0 <= k < |pieces| ==> SeparatorFree(pieces[k])
    requires forall k, i :: 0 <= k < |pieces| && 0 <= i < |pieces[k]| ==> pieces[k][i] in s
    ensures forall k :: 0 <= k < |pieces| ==> IsLower(Lower(pieces[k])) && !Separated(Lower(pieces[k]))
  {
    forall k | 0 <= k < |pieces|
      ensures IsLower(Lower(pieces[k])) && !Separated(Lower(pieces[k]))
    {
      var p := pieces[k];
      forall i | 0 <= i < |p| ensures p[i] != '\n' {
        assert p[i] in s;
      }
      LowerPieceClean(p);
    }
  }

  lemma LowerPieceClean(p: string)
    requires SeparatorFree(p)
    requires forall i :: 0 <= i < |p| ==> p[i] != '\n'
    ensures IsLower(Lower(p)) && !Separated(Lower(p))
  {
    SeparatorFreeAvoids(p);
    NoCharNoContains(p, '\n');
    if Contains(Lower(p), ", ") { LowerCreatesNoLetterFree(p, ", "); }
    if Contains(Lower(p), " & ") { LowerCreatesNoLetterFree(p, " & "); }
    if Contains(Lower(p), "/") { LowerCreatesNoLetterFree(p, "/"); }
    if Contains(Lower(p), "\n") { LowerCreatesNoLetterFree(p, "\n"); }
  }

  /**
   * A string that is empty or starts with " & " yields the empty term: the
   * split puts an empty piece before a leading separator.
   */
  lemma LeadingSeparatorGivesEmptyTerm(w: string)
    requires w == "" || StartsWith(w, " & ")
    ensures "" in SplitComposite(w)
  {
    var s := RemoveNewlines(w);
    if w != "" {
      assert w == " & " + w[3..];
      RemoveNewlinesAppend(" & ", w[3..]);
      RemoveNewlinesNoop(" & ");
      assert StartsWith(s, " & ") && !StartsWith(s, ", ");
      assert SeparatorAt(s) == 3;
    }
    assert Pieces(s)[0] == "";
    assert Lower(Pieces(s)[0]) == "";
  }

  // ---------------------------------------------------------------------------
  // What the composite split keeps of its input
  // ---------------------------------------------------------------------------

  /** One of the four separators of the composite split. */
  predicate IsSeparator(x: string) {
    x == ", " || x == " & " || x == " and " || x == "/"
  }

  /** The separators the scan of `Pieces` cuts out of `s`, in order. */
  function Cuts(s: string): seq<string>
    decreases |s|
  {
    if s == [] then []
    else if SeparatorAt(s) > 0 then [s[..SeparatorAt(s)]] + Cuts(s[SeparatorAt(s)..])
    else Cuts(s[1..])
  }

  /** The pieces put back together with the separators between them. */
  function Rejoin(pieces: seq<string>, seps: seq<string>): string
    requires |pieces| == |seps| + 1
    decreases |seps|
  {
    if seps == [] then pieces[0] else pieces[0] + seps[0] + Rejoin(pieces[1..], seps[1..])
  }

  /** A character in front of the first piece ends up in front of the whole. */
  lemma {:induction false} RejoinCons(c: char, pieces: seq<string>, seps: seq<string>)
    requires |pieces| == |seps| + 1
    ensures Rejoin([[c] + pieces[0]] + pieces[1..], seps) == [c] + Rejoin(pieces, seps)
  {
    var ps := [[c] + pieces[0]] + pieces[1..];
    if seps != [] {
      assert ps[1..] == pieces[1..];
    }
  }

  /** There is one separator fewer than there are pieces. */
  lemma {:induction false} CutsCount(s: string)
    ensures |Pieces(s)| == |Cuts(s)| + 1
    decreases |s|
  {
    if s == [] {
    } else if SeparatorAt(s) > 0 {
      CutsCount(s[SeparatorAt(s)..]);
    } else {
      CutsCount(s[1..]);
    }
  }

  /** Everything cut out is one of the four separators. */
  lemma {:induction false} CutsAreSeparators(s: string)
    ensures forall k :: 0 <= k < |Cuts(s)| ==> IsSeparator(Cuts(s)[k])
    decreases |s|
  {
    if s == [] {
    } else if SeparatorAt(s) > 0 {
      var n := SeparatorAt(s);
      CutsAreSeparators(s[n..]);
      assert IsSeparator(s[..n]);
      assert Cuts(s) == [s[..n]] + Cuts(s[n..]);
    } else {
      CutsAreSeparators(s[1..]);
    }
  }

  /** Rejoining a first piece and a first separator in front of the rest. */
  lemma {:induction false} RejoinFront(p: string, pieces: seq<string>, sep: string, seps: seq<string>)
    requires |pieces| == |seps| + 1
    ensures Rejoin([p] + pieces, [sep] + seps) == p + sep + Rejoin(pieces, seps)
  {
    assert ([p] + pieces)[1..] == pieces;
    assert ([sep] + seps)[1..] == seps;
  }

  /** A leading separator: an empty piece, the separator, then the rest rejoined. */
  lemma {:induction false} RejoinSeparatorStep(s: string)
    requires s != [] && SeparatorAt(s) > 0
    requires |Pieces(s[SeparatorAt(s)..])| == |Cuts(s[SeparatorAt(s)..])| + 1
    requires Rejoin(Pieces(s[SeparatorAt(s)..]), Cuts(s[SeparatorAt(s)..])) == s[SeparatorAt(s)..]
    ensures |Pieces(s)| == |Cuts(s)| + 1 && Rejoin(Pieces(s), Cuts(s)) == s
  {
    var n := SeparatorAt(s);
    var t := s[n..];
    assert Pieces(s) == [""] + Pieces(t);
    assert Cuts(s) == [s[..n]] + Cuts(t);
    RejoinFront("", Pieces(t), s[..n], Cuts(t));
    assert s == "" + s[..n] + t;
  }

  /** A leading character that starts no separator joins the first piece. */
  lemma {:induction false} RejoinCharStep(s: string)
    requires s != [] && SeparatorAt(s) == 0
    requires |Pieces(s[1..])| == |Cuts(s[1..])| + 1
    requires Rejoin(Pieces(s[1..]), Cuts(s[1..])) == s[1..]
    ensures |Pieces(s)| == |Cuts(s)| + 1 && Rejoin(Pieces(s), Cuts(s)) == s
  {
    var t := s[1..];
    assert Pieces(s) == [[s[0]] + Pieces(t)[0]] + Pieces(t)[1..];
    assert Cuts(s) == Cuts(t);
    RejoinCons(s[0], Pieces(t), Cuts(t));
    assert s == [s[0]] + t;
  }

  /** Rejoining the pieces with the separators cut gives back `s`. */
  lemma {:induction false} RejoinPieces(s: string)
    ensures |Pieces(s)| == |Cuts(s)| + 1 && Rejoin(Pieces(s), Cuts(s)) == s
    decreases |s|
  {
    if s == [] {
    } else if SeparatorAt(s) > 0 {
      RejoinPieces(s[SeparatorAt(s)..]);
      RejoinSeparatorStep(s);
    } else {
      RejoinPieces(s[1..]);
      RejoinCharStep(s);
    }
  }

  /**
   * The split loses nothing: there is one separator fewer than there are
   * pieces, each is one of the four, and the pieces rejoined with them give
   * back `s`.
   */
  lemma PiecesRejoin(s: string)
    ensures |Pieces(s)| == |Cuts(s)| + 1
    ensures forall k :: 0 <= k < |Cuts(s)| ==> IsSeparator(Cuts(s)[k])
    ensures Rejoin(Pieces(s), Cuts(s)) == s
  {
    CutsAreSeparators(s);
    RejoinPieces(s);
  }

  /**
   * `_split_composite(w)` is the set of the lower-cased pieces of a cut of
   * `w` (newlines removed) into separator-free pieces and separators.
   */
  lemma SplitCompositeRejoins(w: string)
    ensures exists pieces, seps ::
      && |pieces| == |seps| + 1
      && Rejoin(pieces, seps) == RemoveNewlines(w)
      && (forall k :: 0 <= k < |seps| ==> IsSeparator(seps[k]))
      && (forall k :: 0 <= k < |pieces| ==> SeparatorFree(pieces[k]))
      && SplitComposite(w) == set k | 0 <= k < |pieces| :: Lower(pieces[k])
  {
    var s := RemoveNewlines(w);
    PiecesRejoin(s);
    PiecesSeparatorFree(s);
    var pieces, seps := Pieces(s), Cuts(s);
    assert Rejoin(pieces, seps) == s;
  }

  /** A string none of whose positions starts a separator is a single piece. */
  lemma {:induction false} PiecesOfSeparatorFree(s: string)
    requires SeparatorFree(s)
    ensures Pieces(s) == [s]
    decreases |s|
  {
    if s != [] {
      assert s[0..] == s;
      assert SeparatorFree(s[1..]) by {
        forall i | 0 <= i < |s[1..]| ensures SeparatorAt(s[1..][i..]) == 0 {
          assert s[1..][i..] == s[i + 1..];
        }
      }
      PiecesOfSeparatorFree(s[1..]);
      assert [s[0]] + s[1..] == s;
    }
  }

  /** A separator at the head of `s[i..]` is an occurrence of it in `s`. */
  lemma StartsWithOccurs(s: string, i: int, sep: string)
    requires 0 <= i <= |s|
    ensures StartsWith(s[i..], sep) ==> OccursAt(sep, s, i)
  {
    if StartsWith(s[i..], sep) {
      assert s[i..][..|sep|] == s[i..i + |sep|];
    }
  }

  /** A string holding none of the separators is separator-free. */
  lemma AvoidsAllSeparators(s: string)
    requires !Contains(s, ", ") && !Contains(s, " & ") && !Contains(s, " and ") && !Contains(s, "/")
    ensures SeparatorFree(s)
  {
    ContainsIsOccurs(s, ", ");
    ContainsIsOccurs(s, " & ");
    ContainsIsOccurs(s, " and ");
    ContainsIsOccurs(s, "/");
    forall i | 0 <= i < |s| ensures SeparatorAt(s[i..]) == 0 {
      StartsWithOccurs(s, i, ", ");
      StartsWithOccurs(s, i, " & ");
      StartsWithOccurs(s, i, " and ");
      StartsWithOccurs(s, i, "/");
    }
  }

  /**
   * Splitting a term again gives back just that term, provided it is
   * lower-case, holds no separator or newline and, in particular, no " and ".
   */
  lemma SplitCompositeIdempotent(x: string)
    requires IsLower(x) && !Separated(x) && !Contains(x, " and ")
    ensures SplitComposite(x) == {x}
  {
    ContainsIsOccurs(x, "\n");
    forall i | 0 <= i < |x| ensures x[i] != '\n' {
      assert x[i..i + 1] == [x[i]];
      assert !OccursAt("\n", x, i);
    }
    RemoveNewlinesNoop(x);
    AvoidsAllSeparators(x);
    PiecesOfSeparatorFree(x);
    OnePieceSplit(x, x);
    LowerShape(x);
  }

  /** A separator starts with ',' or '/', or with a space followed by '&' or 'a'. */
  lemma SeparatorHead(s: string)
    ensures SeparatorAt(s) > 0 ==>
      && |s| >= 1
      && (s[0] == ',' || s[0] == '/' || (|s| >= 2 && s[0] == ' ' && (s[1] == '&' || s[1] == 'a')))
  {
    var n := SeparatorAt(s);
    if n > 0 {
      assert s[..n][0] == s[0];
      if n > 1 {
        assert s[..n][1] == s[1];
      }
    }
  }

  /** A name that is one piece splits into that piece, lower-cased. */
  lemma OnePieceSplit(w: string, p: string)
    requires Pieces(RemoveNewlines(w)) == [p]
    ensures SplitComposite(w) == {Lower(p)}
  {
    assert Lower(Pieces(RemoveNewlines(w))[0]) in SplitComposite(w);
  }

  /** A name that is two pieces splits into both, lower-cased. */
  lemma TwoPieceSplit(w: string, p: string, q: string)
    requires Pieces(RemoveNewlines(w)) == [p, q]
    ensures SplitComposite(w) == {Lower(p), Lower(q)}
  {
    var ps := Pieces(RemoveNewlines(w));
    assert Lower(ps[0]) in SplitComposite(w);
    assert Lower(ps[1]) in SplitComposite(w);
  }

  /** A plain lower-case word is a single term: itself. */
  lemma WordSplit(w: string)
    requires forall i :: 0 <= i < |w| ==> 'a' <= w[i] <= 'z'
    ensures SplitComposite(w) == {w}
  {
    RemoveNewlinesNoop(w);
    forall i | 0 <= i < |w| ensures SeparatorAt(w[i..]) == 0 {
      SeparatorHead(w[i..]);
      assert w[i..][0] == w[i];
    }
    PiecesOfSeparatorFree(w);
    OnePieceSplit(w, w);
    LowerShape(w);
  }

  /**
   * Where idempotence stops: separators are matched before lower-casing, so
   * " AND " is not cut and leaves a single term holding " and " ...
   */
  lemma UpperAndIsNotCut(u: string)
    requires u == "A AND B"
    ensures SplitComposite(u) == {"a and b"}
  {
    RemoveNewlinesNoop(u);
    forall i | 0 <= i < |u| ensures SeparatorAt(u[i..]) == 0 {
      SeparatorHead(u[i..]);
      assert u[i..][0] == u[i];
      if i + 1 < |u| {
        assert u[i..][1] == u[i + 1];
      }
    }
    PiecesOfSeparatorFree(u);
    OnePieceSplit(u, u);
    assert Lower(u) == "a and b";
  }

  /** ... which is cut when split again. */
  lemma LowerAndIsCut(l: string)
    requires l == "a and b"
    ensures SplitComposite(l) == {"a", "b"}
  {
    RemoveNewlinesNoop(l);
    var t := l[1..];
    assert t[..5] == " and ";
    SeparatorHead(t);
    assert t[0] == ' ' && t[1] == 'a';
    assert SeparatorAt(t) == 5;
    assert t[5..] == "b";
    assert SeparatorFree("b") by {
      SeparatorHead("b");
      assert "b"[0..] == "b";
    }
    PiecesOfSeparatorFree("b");
    assert Pieces(t) == ["", "b"];
    SeparatorHead(l);
    assert SeparatorAt(l) == 0;
    assert Pieces(l) == [[l[0]] + Pieces(t)[0]] + Pieces(t)[1..];
    assert [l[0]] + "" == "a";
    assert Pieces(l) == ["a", "b"];
    TwoPieceSplit(l, "a", "b");
    assert Lower("a") == "a" && Lower("b") == "b";
  }
}
