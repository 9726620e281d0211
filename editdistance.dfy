/**
 * The edit distances the matcher borrows from foreign libraries
 * (`Levenshtein.distance` and pyxdameraulevenshtein's
 * `normalized_damerau_levenshtein_distance`), given here by their classic
 * recursive definitions rather than by the libraries' code.
 */
module EditDistance {

  function Max(a: nat, b: nat): nat {
    if a >= b then a else b
  }

  function Min(a: nat, b: nat): nat {
    if a <= b then a else b
  }

  /**
   * Fewest single-character insertions, deletions and substitutions turning
   * `a` into `b`; with `transpositions`, swapping two adjacent characters
   * counts as one edit too (the optimal-string-alignment form of the
   * Damerau-Levenshtein distance).
   */
  function Distance<T(==)>(a: seq<T>, b: seq<T>, transpositions: bool): nat
    decreases |a| + |b|
  {
    if |a| == 0 then |b|
    else if |b| == 0 then |a|
    else
      var d := Min(Min(Distance(a[1..], b, transpositions) + 1, Distance(a, b[1..], transpositions) + 1),
                   Distance(a[1..], b[1..], transpositions) + (if a[0] == b[0] then 0 else 1));
      if transpositions && |a| >= 2 && |b| >= 2 && a[0] == b[1] && a[1] == b[0]
      then Min(d, Distance(a[2..], b[2..], transpositions) + 1)
      else d
  }

  /** The distance is zero exactly between equal sequences. */
  lemma {:induction false} DistanceZeroIffEqual<T>(a: seq<T>, b: seq<T>, transpositions: bool)
    ensures Distance(a, b, transpositions) == 0 <==> a == b
    decreases |a| + |b|
  {
    if |a| > 0 && |b| > 0 {
      DistanceZeroIffEqual(a[1..], b[1..], transpositions);
      if Distance(a, b, transpositions) == 0 {
        assert a[0] == b[0] && Distance(a[1..], b[1..], transpositions) == 0;
        assert a == [a[0]] + a[1..] && b == [b[0]] + b[1..];
      }
      if a == b {
        assert a[1..] == b[1..];
      }
    }
  }

  /** No more edits are needed than the longer sequence has characters. */
  lemma {:induction false} DistanceAtMostLonger<T>(a: seq<T>, b: seq<T>, transpositions: bool)
    ensures Distance(a, b, transpositions) <= Max(|a|, |b|)
    decreases |a| + |b|
  {
    if |a| > 0 && |b| > 0 {
      DistanceAtMostLonger(a[1..], b[1..], transpositions);
    }
  }

  /** `Levenshtein.distance`. */
  function Levenshtein(a: string, b: string): nat {
    Distance(a, b, false)
  }

  /**
   * `normalized_damerau_levenshtein_distance`: the Damerau-Levenshtein
   * distance divided by the length of the longer sequence. It lies in [0, 1]
   * and is zero exactly when the two sequences are equal.
   */
  function NormalizedDamerau<T(==)>(a: seq<T>, b: seq<T>): (r: real)
    requires |a| > 0 || |b| > 0
    ensures 0.0 <= r <= 1.0
    ensures r == 0.0 <==> a == b
  {
    DistanceAtMostLonger(a, b, true);
    DistanceZeroIffEqual(a, b, true);
    Ratio(Distance(a, b, true), Max(|a|, |b|))
  }

  /** `d / m` for a count `d` out of a positive total `m`. */
  function Ratio(d: nat, m: nat): (r: real)
    requires 0 < m
    ensures 0.0 <= r
    ensures d <= m ==> r <= 1.0
    ensures r == 0.0 <==> d == 0
    ensures r == 1.0 <==> d == m
  {
    QuotientFacts(d as real, m as real);
    d as real / m as real
  }

  lemma QuotientFacts(d: real, m: real)
    requires 0.0 <= d && 0.0 < m
    ensures 0.0 <= d / m
    ensures d <= m ==> d / m <= 1.0
    ensures d / m == 0.0 <==> d == 0.0
    ensures d / m == 1.0 <==> d == m
  {
    var r := d / m;
    assert r * m == d;
    assert r < 0.0 ==> r * m < 0.0;
    assert r > 1.0 ==> r * m > m;
  }
}
