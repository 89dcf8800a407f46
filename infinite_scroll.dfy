/**
 * The infinite-scroll hook: an `isFetching` latch that lets an intersection
 * run the callback once, until the caller re-arms it with `resetFetching`.
 * The observer's geometry is left abstract; an intersection is an event.
 */
module InfiniteScroll {
  import opened Wrappers

  /** The observer options as passed; an absent field takes its default. */
  datatype Options = Options(threshold: Option<real>, rootMargin: Option<string>)

  const DefaultThreshold: real := 1.0
  const DefaultRootMargin: string := "100px"

  /** The threshold the observer is created with. */
  function Threshold(o: Options): real {
    if o.threshold.Some? then o.threshold.value else DefaultThreshold
  }

  /** The root margin the observer is created with. */
  function RootMargin(o: Options): string {
    if o.rootMargin.Some? then o.rootMargin.value else DefaultRootMargin
  }

  /** The guard of `handleIntersection`. */
  predicate Fires(isIntersecting: bool, hasMore: bool, isFetching: bool) {
    isIntersecting && hasMore && !isFetching
  }

  /** What reaches the latch: an observer entry (with that render's `hasMore`), or a reset. */
  datatype Event = Intersection(isIntersecting: bool, hasMore: bool) | Reset

  /** The latch after one event. */
  function Step(isFetching: bool, e: Event): bool {
    match e
    case Intersection(i, m) => isFetching || Fires(i, m, isFetching)
    case Reset => false
  }

  /** The latch after a run of events. */
  function Latch(isFetching: bool, es: seq<Event>): bool
    decreases |es|
  {
    if es == [] then isFetching else Latch(Step(isFetching, es[0]), es[1..])
  }

  /** How many times the callback runs during a run of events. */
  function Callbacks(isFetching: bool, es: seq<Event>): nat
    decreases |es|
  {
    if es == [] then 0
    else
      (if es[0].Intersection? && Fires(es[0].isIntersecting, es[0].hasMore, isFetching) then 1 else 0)
      + Callbacks(Step(isFetching, es[0]), es[1..])
  }

  function Resets(es: seq<Event>): nat
    decreases |es|
  {
    if es == [] then 0 else (if es[0].Reset? then 1 else 0) + Resets(es[1..])
  }

  /** Between resets the callback runs at most once: never more often than the resets allow. */
  lemma {:induction false} CallbacksBoundedByResets(isFetching: bool, es: seq<Event>)
    ensures Callbacks(isFetching, es) + (if Latch(isFetching, es) then 0 else 1) <=
            Resets(es) + (if isFetching then 0 else 1)
    decreases |es|
  {
    if es != [] {
      CallbacksBoundedByResets(Step(isFetching, es[0]), es[1..]);
    }
  }

  /** While fetching and without a reset, no intersection runs the callback. */
  lemma {:induction false} NoCallbackWhileFetching(es: seq<Event>)
    requires forall k :: 0 <= k < |es| ==> es[k].Intersection?
    ensures Callbacks(true, es) == 0 && Latch(true, es)
    decreases |es|
  {
    if es != [] {
      NoCallbackWhileFetching(es[1..]);
    }
  }

  /** With `hasMore` false throughout, the callback never runs. */
  lemma {:induction false} NoCallbackWithoutMore(isFetching: bool, es: seq<Event>)
    requires forall k :: 0 <= k < |es| ==> es[k].Intersection? ==> !es[k].hasMore
    ensures Callbacks(isFetching, es) == 0
    decreases |es|
  {
    if es != [] {
      NoCallbackWithoutMore(Step(isFetching, es[0]), es[1..]);
    }
  }

  /** The hook's state. */
  class InfiniteScroll {
    const threshold: real
    const rootMargin: string
    var isFetching: bool
    /** The element the sentinel ref points at is mounted. */
    var hasElement: bool
    /** The current observer is connected. */
    var observing: bool
    /** How many times the callback has run. */
    ghost var callbacks: nat

    constructor (options: Options)
      ensures threshold == Threshold(options) && rootMargin == RootMargin(options)
      ensures options.threshold.None? ==> threshold == 1.0
      ensures options.threshold.Some? ==> threshold == options.threshold.value
      ensures options.rootMargin.None? ==> rootMargin == "100px"
      ensures options.rootMargin.Some? ==> rootMargin == options.rootMargin.value
      ensures !isFetching && !hasElement && !observing && callbacks == 0
    {
      threshold, rootMargin := Threshold(options), RootMargin(options);
      isFetching, hasElement, observing := false, false, false;
      callbacks := 0;
    }

    /** `setElementRef`. */
    method SetElement(present: bool)
      modifies this
      ensures hasElement == present
      ensures isFetching == old(isFetching) && observing == old(observing) && callbacks == old(callbacks)
    {
      hasElement := present;
    }

    /** The effect: an observer is created and connected only when the element is there. */
    method Connect()
      modifies this
      ensures observing == (old(observing) || hasElement)
      ensures isFetching == old(isFetching) && hasElement == old(hasElement) && callbacks == old(callbacks)
    {
      if hasElement {
        observing := true;
      }
    }

    /** The effect's cleanup disconnects the current observer. */
    method Cleanup()
      modifies this
      ensures !observing
      ensures isFetching == old(isFetching) && hasElement == old(hasElement) && callbacks == old(callbacks)
    {
      observing := false;
    }

    /**
     * `handleIntersection` with this render's `hasMore`; `fired` says the callback ran.
     * Only a connected observer delivers entries.
     */
    method HandleIntersection(isIntersecting: bool, hasMore: bool) returns (fired: bool)
      requires observing
      modifies this
      ensures fired == Fires(isIntersecting, hasMore, old(isFetching))
      ensures isFetching == Step(old(isFetching), Intersection(isIntersecting, hasMore))
      ensures callbacks == old(callbacks) + (if fired then 1 else 0)
      ensures hasElement == old(hasElement) && observing == old(observing)
    {
      fired := isIntersecting && hasMore && !isFetching;
      if fired {
        isFetching := true;
        callbacks := callbacks + 1;
      }
    }

    /** `resetFetching` re-arms the latch and changes nothing else. */
    method ResetFetching()
      modifies this
      ensures !isFetching && isFetching == Step(old(isFetching), Reset)
      ensures hasElement == old(hasElement) && observing == old(observing) && callbacks == old(callbacks)
    {
      isFetching := false;
    }
  }
}
