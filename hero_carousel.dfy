/**
 * The hero carousel's slide index: next and previous are modular steps over
 * the five slides, the interval advances like next, an indicator selects a
 * slide directly, and exactly the current slide is styled active.
 */
module HeroCarousel {

  /** The number of hero items. */
  const SlideCount: nat := 5

  predicate InRange(i: int) {
    0 <= i < SlideCount
  }

  /** `(prev + 1) % heroItems.length`; the operand is never negative, so JavaScript's `%` agrees. */
  function Next(i: int): (r: int)
    requires InRange(i)
    ensures InRange(r)
    ensures r == if i == SlideCount - 1 then 0 else i + 1
  {
    (i + 1) % SlideCount
  }

  /** `(prev - 1 + heroItems.length) % heroItems.length`. */
  function Prev(i: int): (r: int)
    requires InRange(i)
    ensures InRange(r)
    ensures r == if i == 0 then SlideCount - 1 else i - 1
  {
    (i - 1 + SlideCount) % SlideCount
  }

  lemma PrevUndoesNext(i: int)
    requires InRange(i)
    ensures Prev(Next(i)) == i && Next(Prev(i)) == i
  {
  }

  /** The slide reached after `k` steps forward. */
  function Advance(i: int, k: nat): (r: int)
    requires InRange(i)
    ensures InRange(r)
    decreases k
  {
    if k == 0 then i else Next(Advance(i, k - 1))
  }

  lemma {:induction false} AdvanceIsModular(i: int, k: nat)
    requires InRange(i)
    ensures Advance(i, k) == (i + k) % SlideCount
    decreases k
  {
    if k > 0 {
      AdvanceIsModular(i, k - 1);
      var m := (i + k - 1) % SlideCount;
      assert i + k - 1 == ((i + k - 1) / SlideCount) * SlideCount + m;
    }
  }

  /** Five steps forward come back to the start; four forward are one back. */
  lemma FullCycle(i: int)
    requires InRange(i)
    ensures Advance(i, SlideCount) == i
    ensures Advance(i, SlideCount - 1) == Prev(i)
  {
    AdvanceIsModular(i, SlideCount);
    AdvanceIsModular(i, SlideCount - 1);
  }

  /** The slide and indicator at `index` get the active style. */
  predicate Active(index: int, currentSlide: int) {
    index == currentSlide
  }

  /** Exactly one of the five slides is active. */
  lemma ExactlyOneActive(currentSlide: int)
    requires InRange(currentSlide)
    ensures (set i | 0 <= i < SlideCount && Active(i, currentSlide)) == {currentSlide}
  {
  }

  /** The component's state. */
  class Carousel {
    var currentSlide: int
    /** The first image has preloaded. */
    var isLoaded: bool
    /** The auto-advance interval is set. */
    var ticking: bool

    ghost predicate Valid()
      reads this
    {
      InRange(currentSlide)
    }

    constructor ()
      ensures Valid() && currentSlide == 0 && !isLoaded && !ticking
    {
      currentSlide, isLoaded, ticking := 0, false, false;
    }

    /** The mount effect starts the five-second interval. */
    method Mount()
      requires Valid()
      modifies this
      ensures Valid() && ticking && currentSlide == old(currentSlide) && isLoaded == old(isLoaded)
    {
      ticking := true;
    }

    /** The preloaded first image finished. */
    method FirstImageLoaded()
      requires Valid()
      modifies this
      ensures Valid() && isLoaded && currentSlide == old(currentSlide) && ticking == old(ticking)
    {
      isLoaded := true;
    }

    /** One interval tick, which is a step forward while the interval is set. */
    method Tick()
      requires Valid()
      modifies this
      ensures Valid() && currentSlide == (if ticking then Next(old(currentSlide)) else old(currentSlide))
      ensures isLoaded == old(isLoaded) && ticking == old(ticking)
    {
      if ticking {
        currentSlide := Next(currentSlide);
      }
    }

    method NextSlide()
      requires Valid()
      modifies this
      ensures Valid() && currentSlide == Next(old(currentSlide))
      ensures isLoaded == old(isLoaded) && ticking == old(ticking)
    {
      currentSlide := Next(currentSlide);
    }

    method PrevSlide()
      requires Valid()
      modifies this
      ensures Valid() && currentSlide == Prev(old(currentSlide))
      ensures isLoaded == old(isLoaded) && ticking == old(ticking)
    {
      currentSlide := Prev(currentSlide);
    }

    /** A click on indicator `j`; there is one indicator per slide. */
    method Select(j: int)
      requires Valid() && InRange(j)
      modifies this
      ensures Valid() && currentSlide == j
      ensures isLoaded == old(isLoaded) && ticking == old(ticking)
    {
      currentSlide := j;
    }

    /** Unmount clears the interval. */
    method Unmount()
      requires Valid()
      modifies this
      ensures Valid() && !ticking && currentSlide == old(currentSlide) && isLoaded == old(isLoaded)
    {
      ticking := false;
    }
  }
}
