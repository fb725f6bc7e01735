/** The slide state of the home page's hero slider,
    client/src/components/hero-slider.tsx: which slide is current, whether
    a slide transition is running, and whether the mouse is over the
    slider. The 600 ms timer that ends a transition and the 7 s interval
    that advances the slider are events the caller sends
    (`TransitionEnd`, `NextSlide`); the arrow keys send `PrevSlide` and
    `NextSlide`. */
module HeroSlider {
  import opened Common
  import Sorting

  /** The part of a trending anime the slider's state depends on. */
  datatype Slide = Slide(id: string, title: string)

  /** How many slides the slider shows at most. */
  const FeaturedLimit: nat := 5

  /** `featuredAnimes`: the first five trending animes, or all of them. */
  function Featured(trending: seq<Slide>): (r: seq<Slide>)
    ensures |r| == Min(FeaturedLimit, |trending|)
    ensures r == trending[..|r|]
  {
    Sorting.Take(trending, FeaturedLimit)
  }

  /** The slide drawn opaque: the featured slide whose index is the
      current one, if there is such a slide. */
  function Visible(trending: seq<Slide>, current: nat): (r: Option<Slide>)
    ensures r.Some? <==> current < |Featured(trending)|
    ensures r.Some? ==> r.value == trending[current]
  {
    var featured := Featured(trending);
    if current < |featured| then Some(featured[current]) else None
  }

  /** The index after `s` among `n` slides, wrapping to the first. */
  function NextIndex(s: nat, n: nat): (r: nat)
    requires n > 0
    ensures r < n
    ensures s + 1 < n ==> r == s + 1
    ensures s + 1 == n ==> r == 0
  {
    (s + 1) % n
  }

  /** The index before `s` among `n` slides, wrapping to the last. */
  function PrevIndex(s: nat, n: nat): (r: nat)
    requires n > 0
    ensures s < n ==> r < n
    ensures s == 0 ==> r == n - 1
  {
    if s == 0 then n - 1 else s - 1
  }

  /** Stepping back undoes stepping forward, and the other way round. */
  lemma PrevUndoesNext(s: nat, n: nat)
    requires s < n
    ensures PrevIndex(NextIndex(s, n), n) == s
    ensures NextIndex(PrevIndex(s, n), n) == s
  {
  }

  /** The index after `k` steps forward. */
  function NextTimes(s: nat, n: nat, k: nat): (r: nat)
    requires n > 0
    ensures s < n ==> r < n
  {
    if k == 0 then s else NextIndex(NextTimes(s, n, k - 1), n)
  }

  /** Steps forward compose. */
  lemma {:induction false} NextTimesAdd(s: nat, n: nat, a: nat, b: nat)
    requires n > 0
    ensures NextTimes(s, n, a + b) == NextTimes(NextTimes(s, n, a), n, b)
  {
    if b > 0 {
      NextTimesAdd(s, n, a, b - 1);
    }
  }

  /** Below the last slide, each step forward is one further. */
  lemma {:induction false} NextTimesClimbs(s: nat, n: nat, k: nat)
    requires s + k < n
    ensures NextTimes(s, n, k) == s + k
  {
    if k > 0 {
      NextTimesClimbs(s, n, k - 1);
    }
  }

  /** `n` steps forward come back to the start: up to the last slide,
      round to the first, and up again. */
  lemma FullCycleReturns(s: nat, n: nat)
    requires s < n
    ensures NextTimes(s, n, n) == s
  {
    NextTimesClimbs(s, n, n - s - 1);
    assert NextTimes(s, n, n - s) == 0;
    NextTimesClimbs(0, n, s);
    NextTimesAdd(s, n, n - s, s);
  }

  /** The slider's React state. */
  class Slider {
    var trending: Option<seq<Slide>>
    var currentSlide: nat
    var isTransitioning: bool
    var isPaused: bool

    constructor ()
      ensures trending == None && currentSlide == 0 && !isTransitioning && !isPaused
    {
      trending, currentSlide, isTransitioning, isPaused := None, 0, false, false;
    }

    /** Whether next/previous act: the list has loaded, is not empty, no
        transition is running and the slider is not paused. */
    predicate CanStep()
      reads this
    {
      trending.Some? && |trending.value| > 0 && !isTransitioning && !isPaused
    }

    /** The slide on screen; `None` while the list is loading or empty, or
        when the index has no featured slide. */
    function Showing(): (r: Option<Slide>)
      reads this
      ensures r.Some? ==> trending.Some? && currentSlide < |Featured(trending.value)|
    {
      if trending.Some? then Visible(trending.value, currentSlide) else None
    }

    /** The trending query resolving, or refetching. The index is kept. */
    method Receive(data: Option<seq<Slide>>)
      modifies this
      ensures trending == data
      ensures currentSlide == old(currentSlide) && isTransitioning == old(isTransitioning)
      ensures isPaused == old(isPaused)
    {
      trending := data;
    }

    /** `nextSlide`: forward over the whole trending list, starting a
        transition. */
    method NextSlide()
      modifies this
      ensures trending == old(trending) && isPaused == old(isPaused)
      ensures old(CanStep()) ==>
        currentSlide == NextIndex(old(currentSlide), |trending.value|) && isTransitioning
      ensures !old(CanStep()) ==> currentSlide == old(currentSlide) && isTransitioning == old(isTransitioning)
    {
      if trending.None? || |trending.value| == 0 || isTransitioning || isPaused {
        return;
      }
      isTransitioning := true;
      currentSlide := (currentSlide + 1) % |trending.value|;
    }

    /** `prevSlide`: backward over the whole trending list, starting a
        transition. */
    method PrevSlide()
      modifies this
      ensures trending == old(trending) && isPaused == old(isPaused)
      ensures old(CanStep()) ==>
        currentSlide == PrevIndex(old(currentSlide), |trending.value|) && isTransitioning
      ensures !old(CanStep()) ==> currentSlide == old(currentSlide) && isTransitioning == old(isTransitioning)
    {
      if trending.None? || |trending.value| == 0 || isTransitioning || isPaused {
        return;
      }
      isTransitioning := true;
      currentSlide := if currentSlide == 0 then |trending.value| - 1 else currentSlide - 1;
    }

    /** The transition timer firing. */
    method TransitionEnd()
      modifies this
      ensures !isTransitioning
      ensures trending == old(trending) && currentSlide == old(currentSlide) && isPaused == old(isPaused)
    {
      isTransitioning := false;
    }

    /** A click on the dot of featured slide `index`: jumps there and
        starts a transition even when paused or mid-transition. */
    method DotClick(index: nat)
      requires trending.Some? && index < |Featured(trending.value)|
      modifies this
      ensures currentSlide == index && isTransitioning
      ensures trending == old(trending) && isPaused == old(isPaused)
      ensures Showing() == Some(trending.value[index])
    {
      isTransitioning := true;
      currentSlide := index;
    }

    method MouseEnter()
      modifies this
      ensures isPaused
      ensures trending == old(trending) && currentSlide == old(currentSlide)
      ensures isTransitioning == old(isTransitioning)
    {
      isPaused := true;
    }

    method MouseLeave()
      modifies this
      ensures !isPaused
      ensures trending == old(trending) && currentSlide == old(currentSlide)
      ensures isTransitioning == old(isTransitioning)
    {
      isPaused := false;
    }
  }

  /** With six trending animes, five steps forward from the first slide
      reach index 5, which has no featured slide: nothing is drawn. */
  lemma SixthTrendingSlideIsBlank(trending: seq<Slide>)
    requires |trending| == 6
    ensures NextTimes(0, |trending|, 5) == 5
    ensures Visible(trending, NextTimes(0, |trending|, 5)) == None
  {
    NextTimesClimbs(0, 6, 5);
  }

  /** The step the slider evidently intends: forward over the featured
      slides it draws. */
  function IntendedNext(trending: seq<Slide>, s: nat): (r: nat)
    requires |trending| > 0
  {
    NextIndex(s, |Featured(trending)|)
  }

  /** The step backward over the featured slides. */
  function IntendedPrev(trending: seq<Slide>, s: nat): (r: nat)
    requires |trending| > 0
  {
    PrevIndex(s, |Featured(trending)|)
  }

  /** Stepping over the featured slides always lands on a drawn slide,
      and agrees with the code as written whenever there are at most
      five trending animes. */
  lemma IntendedStepsAlwaysShowASlide(trending: seq<Slide>, s: nat, k: nat)
    requires |trending| > 0 && s < |Featured(trending)|
    ensures Visible(trending, IntendedNext(trending, s)).Some?
    ensures Visible(trending, IntendedPrev(trending, s)).Some?
    ensures Visible(trending, NextTimes(s, |Featured(trending)|, k)).Some?
    ensures |trending| <= FeaturedLimit ==>
      IntendedNext(trending, s) == NextIndex(s, |trending|) &&
      IntendedPrev(trending, s) == PrevIndex(s, |trending|)
  {
  }
}
