/**
 * The three-slot leaderboard `PathKey.matchNodes` keeps while ranking the
 * candidate keys: a new score enters at the first slot it strictly beats,
 * pushing the later slots one place down and the last one out.
 */
module TopK {
  import opened Options

  /** Number of slots: `bestScore` and `bestCandidate` are lists of three. */
  const Slots: nat := 3

  /** The first slot whose score `x` strictly beats, or `|scores|` when there is none. */
  function InsertAt(scores: seq<real>, x: real): (j: nat)
    ensures j <= |scores|
    ensures forall k :: 0 <= k < j ==> x <= scores[k]
    ensures j < |scores| ==> scores[j] < x
  {
    if scores == [] then 0
    else if x > scores[0] then 0
    else 1 + InsertAt(scores[1..], x)
  }

  /**
   * `buf[j+1:] = buf[j:-1]` followed by `buf[j] = x`: the entry enters at
   * `j`, the ones after it move one place down and the last one drops out.
   */
  function Shifted<X>(buf: seq<X>, j: nat, x: X): (r: seq<X>)
    requires j < |buf|
    ensures |r| == |buf| && r[j] == x
    ensures forall k :: 0 <= k < j ==> r[k] == buf[k]
    ensures forall k :: j < k < |buf| ==> r[k] == buf[k - 1]
  {
    buf[..j] + [x] + buf[j..|buf| - 1]
  }

  /** One step of the ranking loop: offer score `x` with its `item` to the board. */
  function Offer<X>(scores: seq<real>, items: seq<X>, x: real, item: X): (r: (seq<real>, seq<X>))
    requires |scores| == |items|
    ensures |r.0| == |scores| && |r.1| == |items|
  {
    var j := InsertAt(scores, x);
    if j < |scores| then (Shifted(scores, j, x), Shifted(items, j, item)) else (scores, items)
  }

  /**
   * The board after offering the scores `xs` in order, each with its own
   * position as item; `None` is the placeholder 0 an unfilled slot keeps.
   */
  function Run(xs: seq<real>): (r: (seq<real>, seq<Option<nat>>))
    ensures |r.0| == Slots && |r.1| == Slots
  {
    if xs == [] then (seq(Slots, _ => 0.0), seq(Slots, _ => None))
    else
      var b := Run(xs[..|xs| - 1]);
      Offer(b.0, b.1, xs[|xs| - 1], Some(|xs| - 1))
  }

  /** Score of a slot: the offered score of its entry, or 0 when it is unfilled. */
  function Val(xs: seq<real>, s: Option<nat>): real {
    if s.Some? && s.value < |xs| then xs[s.value] else 0.0
  }

  /** Entry `a` ranks above entry `b`: a higher score, or the same score offered earlier. */
  predicate Beats(xs: seq<real>, a: nat, b: nat) {
    a < |xs| && b < |xs| && (xs[a] > xs[b] || (xs[a] == xs[b] && a < b))
  }

  /** Each slot holds a positive offered score with its position, or is unfilled with score 0. */
  ghost predicate WellFormed(scores: seq<real>, slots: seq<Option<nat>>, xs: seq<real>) {
    && |scores| == Slots && |slots| == Slots
    && (forall k :: 0 <= k < Slots ==> scores[k] == Val(xs, slots[k]))
    && (forall k :: 0 <= k < Slots && slots[k].Some? ==> slots[k].value < |xs| && xs[slots[k].value] > 0.0)
  }

  /** Filled slots come first and rank strictly in slot order. */
  ghost predicate Ordered(slots: seq<Option<nat>>, xs: seq<real>)
    requires |slots| == Slots
  {
    forall k, l :: 0 <= k < l < Slots && slots[l].Some? ==> slots[k].Some? && Beats(xs, slots[k].value, slots[l].value)
  }

  /** Every positive entry left off the board is outranked by all three slots. */
  ghost predicate Complete(slots: seq<Option<nat>>, xs: seq<real>)
    requires |slots| == Slots
  {
    forall i :: 0 <= i < |xs| && xs[i] > 0.0 && Some(i) !in slots ==>
      forall k :: 0 <= k < Slots ==> slots[k].Some? && Beats(xs, slots[k].value, i)
  }

  /** The board holds the best three positive entries, best first, earlier entries winning ties. */
  ghost predicate Ranked(scores: seq<real>, slots: seq<Option<nat>>, xs: seq<real>) {
    WellFormed(scores, slots, xs) && Ordered(slots, xs) && Complete(slots, xs)
  }

  /** On a ranked board the scores never increase from one slot to the next. */
  lemma NonIncreasing(scores: seq<real>, slots: seq<Option<nat>>, xs: seq<real>)
    requires WellFormed(scores, slots, xs) && Ordered(slots, xs)
    ensures forall k, l :: 0 <= k < l < Slots ==> scores[l] <= scores[k]
    ensures forall k :: 0 <= k < Slots ==> 0.0 <= scores[k]
  {
  }

  /** The facts about an old board carry over when one more score is appended. */
  lemma Extend(scores: seq<real>, slots: seq<Option<nat>>, xs: seq<real>, x: real)
    requires Ranked(scores, slots, xs)
    ensures forall i :: 0 <= i < |xs| ==> (xs + [x])[i] == xs[i]
    ensures WellFormed(scores, slots, xs + [x]) && Ordered(slots, xs + [x])
    ensures forall k :: 0 <= k < Slots ==> slots[k] != Some(|xs|)
  {
    var ys := xs + [x];
    assert forall i :: 0 <= i < |xs| ==> ys[i] == xs[i];
    forall k | 0 <= k < Slots
      ensures scores[k] == Val(ys, slots[k])
    {
    }
  }

  /** Offering a score that beats no slot leaves a ranked board. */
  lemma OfferBelow(scores: seq<real>, slots: seq<Option<nat>>, xs: seq<real>, x: real)
    requires Ranked(scores, slots, xs)
    requires forall k :: 0 <= k < Slots ==> x <= scores[k]
    ensures Ranked(scores, slots, xs + [x])
  {
    var ys, n := xs + [x], |xs|;
    Extend(scores, slots, xs, x);
    forall i | 0 <= i < |ys| && ys[i] > 0.0 && Some(i) !in slots
      ensures forall k :: 0 <= k < Slots ==> slots[k].Some? && Beats(ys, slots[k].value, i)
    {
      if i == n {
        forall k | 0 <= k < Slots
          ensures slots[k].Some? && Beats(ys, slots[k].value, i)
        {
          assert scores[k] >= x > 0.0;
        }
      } else {
        assert ys[i] == xs[i];
      }
    }
  }

  /** Offering a score that beats slot `j` keeps the board ordered. */
  lemma OfferOrdered(scores: seq<real>, slots: seq<Option<nat>>, xs: seq<real>, x: real, j: nat)
    requires Ranked(scores, slots, xs)
    requires j < Slots && (forall k :: 0 <= k < j ==> x <= scores[k]) && scores[j] < x
    ensures Ordered(Shifted(slots, j, Some(|xs|)), xs + [x])
  {
    var ys, n := xs + [x], |xs|;
    var s' := Shifted(slots, j, Some(n));
    Extend(scores, slots, xs, x);
    NonIncreasing(scores, slots, xs);
    forall k, l | 0 <= k < l < Slots && s'[l].Some?
      ensures s'[k].Some? && Beats(ys, s'[k].value, s'[l].value)
    {
      if l < j {
      } else if l == j {
        assert scores[k] >= x > 0.0;
      } else if k < j {
        assert s'[l] == slots[l - 1];
      } else if k == j {
        assert s'[l] == slots[l - 1] && scores[l - 1] <= scores[j];
      } else {
        assert s'[k] == slots[k - 1] && s'[l] == slots[l - 1];
      }
    }
  }

  /** Offering a score that beats slot `j` keeps every left-out entry outranked. */
  lemma OfferComplete(scores: seq<real>, slots: seq<Option<nat>>, xs: seq<real>, x: real, j: nat)
    requires Ranked(scores, slots, xs)
    requires j < Slots && (forall k :: 0 <= k < j ==> x <= scores[k]) && scores[j] < x
    ensures Complete(Shifted(slots, j, Some(|xs|)), xs + [x])
  {
    var ys, n := xs + [x], |xs|;
    var s' := Shifted(slots, j, Some(n));
    Extend(scores, slots, xs, x);
    NonIncreasing(scores, slots, xs);
    assert s'[j] == Some(n);
    forall i | 0 <= i < |ys| && ys[i] > 0.0 && Some(i) !in s'
      ensures forall k :: 0 <= k < Slots ==> s'[k].Some? && Beats(ys, s'[k].value, i)
    {
      assert i < n && ys[i] == xs[i];
      // every old slot but the last is still on the board
      forall k | 0 <= k < Slots - 1
        ensures slots[k] != Some(i)
      {
        if k < j {
          assert s'[k] == slots[k];
        } else {
          assert s'[k + 1] == slots[k];
        }
      }
      if Some(i) !in slots {
        assert slots[j].Some? && Beats(xs, slots[j].value, i);
      } else {
        assert slots[Slots - 1] == Some(i);
        assert scores[Slots - 1] == xs[i];
      }
      forall k | 0 <= k < Slots
        ensures s'[k].Some? && Beats(ys, s'[k].value, i)
      {
        if k > j {
          assert s'[k] == slots[k - 1];
        }
      }
    }
  }

  /** Offering a score keeps the board ranked. */
  lemma OfferKeepsRanked(scores: seq<real>, slots: seq<Option<nat>>, xs: seq<real>, x: real)
    requires Ranked(scores, slots, xs)
    ensures var b := Offer(scores, slots, x, Some(|xs|)); Ranked(b.0, b.1, xs + [x])
  {
    var j := InsertAt(scores, x);
    if j < Slots {
      var ys, n := xs + [x], |xs|;
      var sc', s' := Shifted(scores, j, x), Shifted(slots, j, Some(n));
      Extend(scores, slots, xs, x);
      NonIncreasing(scores, slots, xs);
      forall k | 0 <= k < Slots
        ensures sc'[k] == Val(ys, s'[k])
        ensures s'[k].Some? ==> s'[k].value < |ys| && ys[s'[k].value] > 0.0
      {
        if k > j {
          assert sc'[k] == scores[k - 1] && s'[k] == slots[k - 1];
        }
      }
      OfferOrdered(scores, slots, xs, x, j);
      OfferComplete(scores, slots, xs, x, j);
    } else {
      OfferBelow(scores, slots, xs, x);
    }
  }

  /**
   * After the ranking loop the board holds the three best positive scores in
   * non-increasing order, each with the position it was offered at; an equal
   * score never displaces an earlier one, a score at most 0 never enters and
   * unfilled slots keep the placeholder.
   */
  lemma {:induction false} RunRanked(xs: seq<real>)
    ensures Ranked(Run(xs).0, Run(xs).1, xs)
    ensures forall k, l :: 0 <= k < l < Slots ==> Run(xs).0[l] <= Run(xs).0[k]
  {
    if xs == [] {
    } else {
      var front := xs[..|xs| - 1];
      RunRanked(front);
      assert front + [xs[|xs| - 1]] == xs;
      OfferKeepsRanked(Run(front).0, Run(front).1, front, xs[|xs| - 1]);
    }
    NonIncreasing(Run(xs).0, Run(xs).1, xs);
  }

  /** The board's entries replaced by the things they stand for; an unfilled slot stays `None`. */
  function Resolve<X>(slots: seq<Option<nat>>, things: seq<X>): (r: seq<Option<X>>)
    ensures |r| == |slots|
    ensures forall k :: 0 <= k < |slots| ==>
      r[k] == (if slots[k].Some? && slots[k].value < |things| then Some(things[slots[k].value]) else None)
  {
    seq(|slots|, k requires 0 <= k < |slots| =>
      if slots[k].Some? && slots[k].value < |things| then Some(things[slots[k].value]) else None)
  }

  /** Resolving commutes with an offer: the board of things moves exactly like the board of positions. */
  lemma ResolveOffer<X>(scores: seq<real>, slots: seq<Option<nat>>, things: seq<X>, x: real, i: nat)
    requires |scores| == |slots| && i < |things|
    ensures Offer(scores, Resolve(slots, things), x, Some(things[i]))
         == (Offer(scores, slots, x, Some(i)).0, Resolve(Offer(scores, slots, x, Some(i)).1, things))
  {
    var j := InsertAt(scores, x);
    if j < |scores| {
      var a := Shifted(Resolve(slots, things), j, Some(things[i]));
      var b := Resolve(Shifted(slots, j, Some(i)), things);
      forall k | 0 <= k < |slots|
        ensures a[k] == b[k]
      {
      }
      assert a == b;
    }
  }

  /** `a[j+1:] = a[j:-1]; a[j] = x`, on the array in place. */
  method ShiftIn<X>(a: array<X>, j: nat, x: X)
    requires j < a.Length
    modifies a
    ensures a[..] == Shifted(old(a[..]), j, x)
  {
    var prev := a[..];
    forall m | j < m < a.Length {
      a[m] := prev[m - 1];
    }
    a[j] := x;
  }

  /**
   * The inner loop of the ranking: find the first slot the score beats,
   * shift both boards there and stop.
   */
  method OfferInPlace<X>(scores: array<real>, items: array<X>, x: real, item: X)
    requires scores.Length == items.Length && scores as object != items as object
    modifies scores, items
    ensures (scores[..], items[..]) == Offer(old(scores[..]), old(items[..]), x, item)
  {
    for j := 0 to scores.Length
      invariant forall k :: 0 <= k < j ==> x <= scores[k]
      invariant scores[..] == old(scores[..]) && items[..] == old(items[..])
    {
      if x > scores[j] {
        assert InsertAt(scores[..], x) == j;
        ShiftIn(scores, j, x);
        ShiftIn(items, j, item);
        return;
      }
    }
    assert InsertAt(scores[..], x) == scores.Length;
  }
}
