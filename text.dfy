/** Character-level helpers shared by the term decomposers and the matcher. */
module Text {

  /** True of the ASCII capitals, the only letters the model lower-cases. */
  predicate IsUpper(c: char) {
    'A' <= c <= 'Z'
  }

  function LowerChar(c: char): char {
    if IsUpper(c) then (c as int + 32) as char else c
  }

  /** `str.lower()` restricted to ASCII. */
  function Lower(s: string): string {
    seq(|s|, i requires 0 <= i < |s| => LowerChar(s[i]))
  }

  /** A string with no capital letter left in it. */
  predicate IsLower(s: string) {
    forall i :: 0 <= i < |s| ==> !IsUpper(s[i])
  }

  /** `s.replace('\n', '')`. */
  function RemoveNewlines(s: string): (r: string)
    ensures |r| <= |s|
  {
    if s == [] then []
    else (if s[0] == '\n' then [] else [s[0]]) + RemoveNewlines(s[1..])
  }

  predicate StartsWith(s: string, prefix: string) {
    |prefix| <= |s| && s[..|prefix|] == prefix
  }

  /** Python's `needle in hay`, by a scan over the start positions. */
  function Contains(hay: string, needle: string): bool
    decreases |hay|
  {
    StartsWith(hay, needle) || (|hay| > 0 && Contains(hay[1..], needle))
  }

  /** `needle` sits in `hay` starting at position `i`. */
  predicate OccursAt(needle: string, hay: string, i: int) {
    0 <= i <= |hay| - |needle| && hay[i..i + |needle|] == needle
  }

  /** `needle` occurs in `hay` as a contiguous run of characters. */
  ghost predicate Occurs(needle: string, hay: string) {
    exists i :: OccursAt(needle, hay, i)
  }

  /** The scan finds `needle` exactly when it occurs somewhere in `hay`. */
  lemma ContainsIsOccurs(hay: string, needle: string)
    ensures Contains(hay, needle) <==> Occurs(needle, hay)
  {
    if Contains(hay, needle) {
      ContainsGivesPosition(hay, needle);
    }
    if Occurs(needle, hay) {
      var i :| OccursAt(needle, hay, i);
      PositionGivesContains(hay, needle, i);
    }
  }

  lemma {:induction false} ContainsGivesPosition(hay: string, needle: string)
    requires Contains(hay, needle)
    ensures Occurs(needle, hay)
    decreases |hay|
  {
    if StartsWith(hay, needle) {
      assert OccursAt(needle, hay, 0);
    } else {
      ContainsGivesPosition(hay[1..], needle);
      var i :| OccursAt(needle, hay[1..], i);
      assert hay[i + 1..i + 1 + |needle|] == hay[1..][i..i + |needle|];
      assert OccursAt(needle, hay, i + 1);
    }
  }

  lemma {:induction false} PositionGivesContains(hay: string, needle: string, i: int)
    requires OccursAt(needle, hay, i)
    ensures Contains(hay, needle)
    decreases i
  {
    if i > 0 {
      assert hay[1..][i - 1..i - 1 + |needle|] == hay[i..i + |needle|];
      PositionGivesContains(hay[1..], needle, i - 1);
    } else {
      assert hay[..|needle|] == hay[i..i + |needle|];
    }
  }

  /**
   * Lower-casing keeps the length, leaves no capital behind and changes
   * nothing in a string that has none.
   */
  lemma LowerShape(s: string)
    ensures |Lower(s)| == |s|
    ensures IsLower(Lower(s))
    ensures IsLower(s) ==> Lower(s) == s
  {
  }

  /** Lower-casing leaves the newline and the separator characters where they were. */
  lemma LowerKeepsNonLetters(s: string, i: int)
    requires 0 <= i < |s|
    ensures !IsUpper(s[i]) ==> Lower(s)[i] == s[i]
  {
  }

  /** A string without '\n' is left unchanged by newline removal. */
  lemma {:induction false} RemoveNewlinesNoop(s: string)
    requires forall i :: 0 <= i < |s| ==> s[i] != '\n'
    ensures RemoveNewlines(s) == s
  {
    if s != [] {
      RemoveNewlinesNoop(s[1..]);
    }
  }

  /** Newline removal leaves no newline behind. */
  lemma {:induction false} RemoveNewlinesClean(s: string)
    ensures forall i :: 0 <= i < |RemoveNewlines(s)| ==> RemoveNewlines(s)[i] != '\n'
  {
    if s != [] {
      RemoveNewlinesClean(s[1..]);
    }
  }

  /** Newline removal distributes over concatenation. */
  lemma {:induction false} RemoveNewlinesAppend(a: string, b: string)
    ensures RemoveNewlines(a + b) == RemoveNewlines(a) + RemoveNewlines(b)
  {
    if a == [] {
      assert a + b == b;
    } else {
      assert (a + b)[1..] == a[1..] + b;
      RemoveNewlinesAppend(a[1..], b);
    }
  }
}
