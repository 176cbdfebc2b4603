/**
 `trait_feedback`, `median_of_range` and `sanitize_name` of game/utils.py.
 Midpoints and tolerances are exact reals: float rounding at the band edge is not modelled.
 */
module Feedback {
  import opened Wrappers
  import opened Text
  import opened Catalog

  datatype Verdict = Match | Mismatch

  /** Which way the target lies from the guess: `"same"`, `"up"` (higher) or `"down"`. */
  datatype Direction = Same | Up | Down

  /**
   The dict `trait_feedback` returns. `size` and `lifespan` are `None` where the
   source stores an empty dict under the key.
   */
  datatype TraitFeedback = TraitFeedback(
    animalClass: Verdict,
    diet: Verdict,
    habitat: nat,
    continents: nat,
    size: Option<Direction>,
    lifespan: Option<Direction>)

  /** Both numeric comparisons use a 20% band (the `cmp_field` default of 15% is never used). */
  const SizeTolerance: real := 0.2
  const LifespanTolerance: real := 0.2

  function Abs(x: real): real { if x < 0.0 then -x else x }

  /** `median_of_range`: the midpoint of a two-element list, `None` for anything else. */
  function MedianOfRange(r: Option<seq<real>>): Option<real> {
    if r.Some? && |r.value| == 2 then Some((r.value[0] + r.value[1]) / 2.0) else None
  }

  /**
   `cmp_field`: no direction unless both sides are two-element ranges; otherwise
   `Same` inside a band of `tolerance` times the target midpoint's magnitude, else
   `Up` when the target midpoint is the larger and `Down` when it is the smaller.
   */
  function CompareRange(target: Option<seq<real>>, guess: Option<seq<real>>, tolerance: real): (d: Option<Direction>)
    ensures d.None? <==> MedianOfRange(target).None? || MedianOfRange(guess).None?
    ensures d.Some? ==>
      var tr, gr := MedianOfRange(target).value, MedianOfRange(guess).value;
      && (d.value == Same <==> Abs(tr - gr) <= Abs(tr) * tolerance)
      && (d.value == Up <==> Abs(tr - gr) > Abs(tr) * tolerance && tr > gr)
      && (d.value == Down <==> Abs(tr - gr) > Abs(tr) * tolerance && tr <= gr)
  {
    var tr := MedianOfRange(target);
    var gr := MedianOfRange(guess);
    if tr.None? || gr.None? then None
    else
      var tol := Abs(tr.value) * tolerance;
      var diff := tr.value - gr.value;
      if Abs(diff) <= tol then Some(Same)
      else Some(if diff > 0.0 then Up else Down)
  }

  /** A range compared with itself is `Same`, and a missing one gives no direction. */
  lemma CompareRangeSelf(r: Option<seq<real>>, tolerance: real)
    requires tolerance >= 0.0
    ensures CompareRange(r, r, tolerance) == (if r.Some? && |r.value| == 2 then Some(Same) else None)
  {
  }

  /** The target can never be higher than the guess both ways round. */
  lemma NeverUpBothWays(a: Option<seq<real>>, b: Option<seq<real>>, tolerance: real)
    ensures !(CompareRange(a, b, tolerance) == Some(Up) && CompareRange(b, a, tolerance) == Some(Up))
  {
  }

  /** For non-negative midpoints (sizes, lifespans), `Up` one way is `Down` the other way. */
  lemma UpMirrorsDown(a: Option<seq<real>>, b: Option<seq<real>>, tolerance: real)
    requires 0.0 <= tolerance
    requires MedianOfRange(a).Some? && MedianOfRange(a).value >= 0.0
    requires MedianOfRange(b).Some? && MedianOfRange(b).value >= 0.0
    requires CompareRange(a, b, tolerance) == Some(Up)
    ensures CompareRange(b, a, tolerance) == Some(Down)
  {
    var ta, tb := MedianOfRange(a).value, MedianOfRange(b).value;
    assert ta - tb > ta * tolerance >= tb * tolerance;
  }

  /** The band scales with the target only: 100 against 80 is `Same`, 80 against 100 is `Down`. */
  lemma BandIsAsymmetric()
    ensures CompareRange(Some([100.0, 100.0]), Some([80.0, 80.0]), SizeTolerance) == Some(Same)
    ensures CompareRange(Some([80.0, 80.0]), Some([100.0, 100.0]), SizeTolerance) == Some(Down)
  {
  }

  /** The worked example: target midpoint 100, guesses with midpoints 85 and 70. */
  lemma BandExample()
    ensures CompareRange(Some([50.0, 150.0]), Some([80.0, 90.0]), SizeTolerance) == Some(Same)
    ensures CompareRange(Some([50.0, 150.0]), Some([60.0, 80.0]), SizeTolerance) == Some(Up)
  {
  }

  /** `set(xs)` */
  function SetOf(xs: seq<string>): set<string> {
    set x | x in xs
  }

  /** `len(set(a) & set(b))`: how many tags the two lists share. */
  function Overlap(a: seq<string>, b: seq<string>): nat {
    |SetOf(a) * SetOf(b)|
  }

  lemma {:induction false} SetOfSize(xs: seq<string>)
    ensures |SetOf(xs)| <= |xs|
    decreases |xs|
  {
    if |xs| > 0 {
      var init := xs[..|xs| - 1];
      SetOfSize(init);
      assert SetOf(xs) == SetOf(init) + {xs[|xs| - 1]} by {
        assert xs == init + [xs[|xs| - 1]];
      }
    }
  }

  lemma IntersectionSize(a: set<string>, b: set<string>)
    ensures |a * b| <= |a| && |a * b| <= |b|
  {
    assert a == (a * b) + (a - b);
    assert (a * b) * (a - b) == {};
    assert b == (a * b) + (b - a);
    assert (a * b) * (b - a) == {};
  }

  /**
   The overlap count is symmetric, bounded by both distinct-tag counts and both
   list lengths, and a list overlaps itself in all its distinct tags.
   */
  lemma OverlapProperties(a: seq<string>, b: seq<string>)
    ensures Overlap(a, b) == Overlap(b, a)
    ensures Overlap(a, b) <= |SetOf(a)| && Overlap(a, b) <= |SetOf(b)|
    ensures Overlap(a, b) <= |a| && Overlap(a, b) <= |b|
    ensures Overlap(a, a) == |SetOf(a)|
  {
    IntersectionSize(SetOf(a), SetOf(b));
    SetOfSize(a);
    SetOfSize(b);
    assert SetOf(a) * SetOf(a) == SetOf(a);
    assert SetOf(a) * SetOf(b) == SetOf(b) * SetOf(a);
  }

  function VerdictOf(same: bool): Verdict {
    if same then Match else Mismatch
  }

  /** `trait_feedback(target, guess)` */
  function CompareTraits(target: Animal, guess: Animal): (tf: TraitFeedback)
    ensures tf.animalClass == Match <==> target.animalClass == guess.animalClass
    ensures tf.diet == Match <==> target.diet == guess.diet
    ensures tf.habitat == Overlap(target.habitat, guess.habitat)
    ensures tf.habitat <= |SetOf(target.habitat)| && tf.habitat <= |SetOf(guess.habitat)|
    ensures tf.continents == Overlap(target.continents, guess.continents)
    ensures tf.continents <= |SetOf(target.continents)| && tf.continents <= |SetOf(guess.continents)|
    ensures tf.size == CompareRange(target.sizeKg, guess.sizeKg, SizeTolerance)
    ensures tf.size.None? <==> MedianOfRange(target.sizeKg).None? || MedianOfRange(guess.sizeKg).None?
    ensures tf.lifespan == CompareRange(target.lifespanYears, guess.lifespanYears, LifespanTolerance)
    ensures tf.lifespan.None? <==>
      MedianOfRange(target.lifespanYears).None? || MedianOfRange(guess.lifespanYears).None?
  {
    OverlapProperties(target.habitat, guess.habitat);
    OverlapProperties(target.continents, guess.continents);
    TraitFeedback(
      VerdictOf(target.animalClass == guess.animalClass),
      VerdictOf(target.diet == guess.diet),
      Overlap(target.habitat, guess.habitat),
      Overlap(target.continents, guess.continents),
      CompareRange(target.sizeKg, guess.sizeKg, SizeTolerance),
      CompareRange(target.lifespanYears, guess.lifespanYears, LifespanTolerance))
  }

  /**
   Guessing the target itself: both verdicts match, every distinct tag overlaps, and
   each numeric trait is `Same` or, where the record has no range, absent.
   */
  lemma CompareTraitsSelf(a: Animal)
    ensures var tf := CompareTraits(a, a);
      && tf.animalClass == Match && tf.diet == Match
      && tf.habitat == |SetOf(a.habitat)| && tf.continents == |SetOf(a.continents)|
      && tf.size != Some(Up) && tf.size != Some(Down)
      && tf.lifespan != Some(Up) && tf.lifespan != Some(Down)
  {
    OverlapProperties(a.habitat, a.habitat);
    OverlapProperties(a.continents, a.continents);
    CompareRangeSelf(a.sizeKg, SizeTolerance);
    CompareRangeSelf(a.lifespanYears, LifespanTolerance);
  }

  /** Swapping target and guess changes neither verdict nor either overlap count. */
  lemma CompareTraitsSwap(a: Animal, b: Animal)
    ensures CompareTraits(a, b).animalClass == CompareTraits(b, a).animalClass
    ensures CompareTraits(a, b).diet == CompareTraits(b, a).diet
    ensures CompareTraits(a, b).habitat == CompareTraits(b, a).habitat
    ensures CompareTraits(a, b).continents == CompareTraits(b, a).continents
  {
    OverlapProperties(a.habitat, b.habitat);
    OverlapProperties(a.continents, b.continents);
  }

  // ---------------------------------------------------------------------------
  // sanitize_name

  /** The alphabetic characters of `s`, in order. */
  function KeepLetters(s: string): (r: string)
    ensures forall c :: c in r ==> c in s && IsAlpha(c)
  {
    if |s| == 0 then ""
    else (if IsAlpha(s[0]) then [s[0]] else []) + KeepLetters(s[1..])
  }

  /** `sanitize_name`: lower-case, then keep only the letters. */
  function SanitizeName(s: string): (r: string)
    ensures forall c :: c in r ==> IsLowerAlpha(c)
  {
    KeepLetters(Lower(s))
  }

  lemma {:induction false} KeepLettersAppend(a: string, b: string)
    ensures KeepLetters(a + b) == KeepLetters(a) + KeepLetters(b)
    decreases |a|
  {
    if |a| == 0 {
      assert a + b == b;
    } else {
      assert (a + b)[0] == a[0];
      assert (a + b)[1..] == a[1..] + b;
      KeepLettersAppend(a[1..], b);
    }
  }

  /** Sanitising works piece by piece, so it keeps the letters' order. */
  lemma SanitizeAppend(a: string, b: string)
    ensures SanitizeName(a + b) == SanitizeName(a) + SanitizeName(b)
  {
    assert Lower(a + b) == Lower(a) + Lower(b);
    KeepLettersAppend(Lower(a), Lower(b));
  }

  /** Lower-casing first or last makes no difference: the result is the letters, lower-cased. */
  lemma {:induction false} SanitizeIsLoweredLetters(s: string)
    ensures SanitizeName(s) == Lower(KeepLetters(s))
    decreases |s|
  {
    if |s| > 0 {
      SanitizeIsLoweredLetters(s[1..]);
      assert Lower(s) == [ToLower(s[0])] + Lower(s[1..]);
      assert KeepLetters(s) == (if IsAlpha(s[0]) then [s[0]] else []) + KeepLetters(s[1..]);
      assert Lower(KeepLetters(s)) ==
        Lower(if IsAlpha(s[0]) then [s[0]] else []) + Lower(KeepLetters(s[1..]));
    }
  }

  /** The strings `sanitize_name` leaves unchanged are exactly the all-lower-case-letter ones. */
  lemma {:induction false} SanitizeFixpoint(s: string)
    ensures SanitizeName(s) == s <==> forall c :: c in s ==> IsLowerAlpha(c)
    decreases |s|
  {
    if forall c :: c in s ==> IsLowerAlpha(c) {
      if |s| > 0 {
        assert s[0] in s;
        assert forall c :: c in s[1..] ==> c in s;
        SanitizeFixpoint(s[1..]);
        assert Lower(s) == [s[0]] + Lower(s[1..]);
        assert s == [s[0]] + s[1..];
      }
    }
  }

  /** `sanitize_name(sanitize_name(s)) == sanitize_name(s)` */
  lemma SanitizeIdempotent(s: string)
    ensures SanitizeName(SanitizeName(s)) == SanitizeName(s)
  {
    SanitizeFixpoint(SanitizeName(s));
  }

}
