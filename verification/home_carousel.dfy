/** The hero carousel of the home page (src/pages/Home.tsx): the slide
    index, its autoplay step, the indicator buttons and the highlight. */
module HomeCarousel {

  /** The number of hero slides. */
  const SlideCount := 3

  /** The index the page starts on. */
  const InitialSlide := 0

  /** A slide index. */
  predicate ValidSlide(i: int) {
    0 <= i < SlideCount
  }

  /** The autoplay tick: `(prev + 1) % heroSlides.length`. The index is
      never negative, so the truncating remainder of the source agrees with
      Dafny's. */
  function Step(i: nat): (next: nat)
    ensures ValidSlide(next)
    ensures ValidSlide(i) ==> next == if i == SlideCount - 1 then 0 else i + 1
  {
    (i + 1) % SlideCount
  }

  /** Clicking the indicator of slide `k` shows slide `k`. What the click
      means for the carousel — `k` is highlighted and autoplay carries on
      from `k`, whatever was shown before — is `IndicatorRestartsRotation`. */
  function SelectIndicator(current: nat, k: nat): (next: nat)
    requires ValidSlide(k)
    ensures next == k && ValidSlide(next)
  {
    k
  }

  /** A slide and its indicator are highlighted when their index is the current one. */
  predicate Highlighted(index: nat, current: nat) {
    index == current
  }

  /** The index after `n` autoplay ticks. */
  function StepN(i: nat, n: nat): nat
    decreases n
  {
    if n == 0 then i else Step(StepN(i, n - 1))
  }

  /** After `n` ticks from a valid index the carousel shows slide
      `(i + n) mod 3`: it cycles through every slide in turn and is back
      where it started after every three ticks. */
  lemma {:induction false} StepNIsRotation(i: nat, n: nat)
    requires ValidSlide(i)
    ensures StepN(i, n) == (i + n) % SlideCount
    ensures StepN(i, n + SlideCount) == StepN(i, n)
    decreases n
  {
    if n > 0 {
      StepNIsRotation(i, n - 1);
      assert StepN(i, n) == ((i + n - 1) % SlideCount + 1) % SlideCount;
    }
    assert StepN(i, n + 3) == Step(Step(Step(StepN(i, n))));
  }

  /** From the start, autoplay reaches every slide, each after fewer than three ticks. */
  lemma AutoplayReachesEverySlide(k: nat)
    requires ValidSlide(k)
    ensures StepN(InitialSlide, k) == k
  {
    StepNIsRotation(InitialSlide, k);
  }

  /** Clicking an indicator restarts the rotation from that slide: after
      `n` further ticks the carousel shows slide `(k + n) mod 3`, whatever
      it showed before the click, and slide `k` is the one highlighted. */
  lemma IndicatorRestartsRotation(current: nat, k: nat, n: nat)
    requires ValidSlide(k)
    ensures StepN(SelectIndicator(current, k), n) == (k + n) % SlideCount
    ensures forall i :: 0 <= i < SlideCount ==> (Highlighted(i, SelectIndicator(current, k)) <==> i == k)
  {
    StepNIsRotation(k, n);
  }

  /** Exactly one slide, and one indicator, is highlighted at any time. */
  lemma ExactlyOneHighlighted(current: nat)
    requires ValidSlide(current)
    ensures (set i | 0 <= i < SlideCount && Highlighted(i, current)) == {current}
  {
  }
}
