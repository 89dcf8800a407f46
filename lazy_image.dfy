/**
 * The lazy image component: a small state machine over the displayed source
 * and the loaded flag, triggered at mount (priority images) or by the first
 * intersection, and sharing the in-memory cache with every other image.
 * Intersection, image loading and the clock are events and parameters.
 */
module LazyImage {
  import opened Wrappers
  import opened ObjectCache

  /** Ten minutes: how long a loaded URL stays in the shared cache. */
  const ImageTtl: int := 600000

  /** The shared-cache key of an image. */
  function CacheKey(src: string): string {
    "img_" + src
  }

  lemma CacheKeyInjective(a: string, b: string)
    ensures CacheKey(a) == CacheKey(b) <==> a == b
  {
    if CacheKey(a) == CacheKey(b) {
      assert a == CacheKey(a)[4..] && b == CacheKey(b)[4..];
    }
  }

  /** JavaScript truthiness of what `get` returns: a string other than the empty one. */
  predicate Truthy(v: Option<string>) {
    v.Some? && v.value != ""
  }

  /**
   * The shared cache holds under each image's key the image's own URL: that is
   * the only thing this component writes there.
   */
  ghost predicate ImagesFaithful(s: Store<string>) {
    forall u :: CacheKey(u) in s.table ==> s.table[CacheKey(u)].data == u
  }

  lemma StoreOwnSrcKeepsFaithful(s: Store<string>, src: string, now: int)
    requires ImagesFaithful(s)
    ensures ImagesFaithful(AfterSet(s, CacheKey(src), src, ImageTtl, now))
  {
    SetEntries(s, CacheKey(src), src, ImageTtl, now);
    forall u | CacheKey(u) in AfterSet(s, CacheKey(src), src, ImageTtl, now).table
      ensures AfterSet(s, CacheKey(src), src, ImageTtl, now).table[CacheKey(u)].data == u
    {
      CacheKeyInjective(u, src);
    }
  }

  lemma GetKeepsFaithful(s: Store<string>, key: string, now: int)
    requires ImagesFaithful(s)
    ensures ImagesFaithful(AfterGet(s, key, now))
  {
    GetEntries(s, key, now);
  }

  /** A cache hit for an image yields that image's URL; an empty URL never counts as a hit. */
  lemma HitIsOwnSrc(s: Store<string>, src: string, now: int)
    requires ImagesFaithful(s)
    ensures Lookup(s, CacheKey(src), now).Some? ==> Lookup(s, CacheKey(src), now).value == src
    ensures Truthy(Lookup(s, CacheKey(src), now)) <==> src != "" && Lookup(s, CacheKey(src), now).Some?
  {
  }

  /** After an image loads, any image with the same URL is served from the cache for ten minutes. */
  lemma LoadedImageServedFromCache(s: Store<string>, src: string, now: int, later: int)
    requires src != ""
    ensures var t := AfterSet(s, CacheKey(src), src, ImageTtl, now);
            Truthy(Lookup(t, CacheKey(src), later)) <==> later - now <= ImageTtl
  {
    SetThenGetLater(s, CacheKey(src), src, ImageTtl, now, later);
  }

  /** The displayed part of the component's state. */
  datatype View = View(imageSrc: string, isLoaded: bool, loading: bool)

  /** `loadImage`: a truthy cache value is shown at once; otherwise a load is started. */
  function AfterLoadImage(v: View, cached: Option<string>): View {
    if Truthy(cached) then View(cached.value, true, false)
    else View(v.imageSrc, v.isLoaded, true)
  }

  class LazyImage {
    const src: string
    const placeholder: string
    const priority: bool
    const cache: CacheManager<string>
    var imageSrc: string
    var isLoaded: bool
    /** The intersection observer is connected. */
    var observing: bool
    /** An image load has been started and has not yet succeeded or failed. */
    var loading: bool
    var mounted: bool
    /** How many times `loadImage` has run. */
    ghost var loadCalls: nat

    function ViewOf(): View
      reads this
    {
      View(imageSrc, isLoaded, loading)
    }

    /** What every step keeps: a valid shared cache holding only images' own URLs, and a known source shown. */
    ghost predicate Shared()
      reads this, cache
    {
      && cache.Valid() && ImagesFaithful(cache.State())
      && (imageSrc == src || imageSrc == placeholder)
    }

    ghost predicate Valid()
      reads this, cache
    {
      && Shared()
      && loadCalls <= 1
      && (!mounted ==> loadCalls == 0 && !observing && !loading)
      && (observing ==> !priority && loadCalls == 0)
      && (loading ==> loadCalls == 1)
      && (mounted && priority ==> loadCalls == 1)
    }

    /** The first render: the placeholder, not loaded. */
    constructor (src: string, placeholder: string, priority: bool, cache: CacheManager<string>)
      requires cache.Valid() && ImagesFaithful(cache.State())
      ensures this.src == src && this.placeholder == placeholder && this.priority == priority
      ensures this.cache == cache
      ensures imageSrc == placeholder && !isLoaded && !observing && !loading && !mounted
      ensures loadCalls == 0 && Valid()
    {
      this.src, this.placeholder, this.priority, this.cache := src, placeholder, priority, cache;
      imageSrc, isLoaded, observing, loading, mounted := placeholder, false, false, false, false;
      loadCalls := 0;
    }

    method LoadImage(now: int)
      requires Shared() && loadCalls == 0 && !loading
      modifies this, cache
      ensures Shared() && loadCalls == 1
      ensures cache.State() == AfterGet(old(cache.State()), CacheKey(src), now)
      ensures ViewOf() == AfterLoadImage(old(ViewOf()), Lookup(old(cache.State()), CacheKey(src), now))
      ensures Truthy(Lookup(old(cache.State()), CacheKey(src), now)) ==> imageSrc == src
      ensures observing == old(observing) && mounted == old(mounted)
    {
      HitIsOwnSrc(cache.State(), src, now);
      GetKeepsFaithful(cache.State(), CacheKey(src), now);
      var cached := cache.Get(CacheKey(src), now);
      if Truthy(cached) {
        imageSrc := cached.value;
        isLoaded := true;
      } else {
        loading := true;
      }
      loadCalls := 1;
    }

    /** The mount effect: a priority image loads at once; any other starts observing. */
    method Mount(now: int)
      requires Valid() && !mounted
      modifies this, cache
      ensures Valid() && mounted
      ensures priority ==> !observing && loadCalls == 1
      ensures priority ==> cache.State() == AfterGet(old(cache.State()), CacheKey(src), now)
      ensures priority ==> ViewOf() == AfterLoadImage(old(ViewOf()), Lookup(old(cache.State()), CacheKey(src), now))
      ensures !priority ==> observing && loadCalls == 0 && ViewOf() == old(ViewOf())
      ensures !priority ==> cache.State() == old(cache.State())
    {
      if priority {
        LoadImage(now);
      } else {
        observing := true;
      }
      mounted := true;
    }

    /** An observer callback: the first intersecting entry loads the image and disconnects. */
    method Intersect(isIntersecting: bool, now: int)
      requires Valid()
      modifies this, cache
      ensures Valid()
      ensures old(observing) && isIntersecting ==>
                && !observing && loadCalls == 1
                && cache.State() == AfterGet(old(cache.State()), CacheKey(src), now)
                && ViewOf() == AfterLoadImage(old(ViewOf()), Lookup(old(cache.State()), CacheKey(src), now))
      ensures !(old(observing) && isIntersecting) ==>
                && observing == old(observing) && loadCalls == old(loadCalls)
                && ViewOf() == old(ViewOf()) && cache.State() == old(cache.State())
    {
      if observing && isIntersecting {
        LoadImage(now);
        observing := false;
      }
    }

    /** The started image loaded: its URL goes into the shared cache and is shown. */
    method ImageLoaded(now: int)
      requires Valid()
      modifies this, cache
      ensures Valid() && observing == old(observing) && loadCalls == old(loadCalls)
      ensures old(loading) ==>
                && cache.State() == AfterSet(old(cache.State()), CacheKey(src), src, ImageTtl, now)
                && ViewOf() == View(src, true, false)
      ensures !old(loading) ==> ViewOf() == old(ViewOf()) && cache.State() == old(cache.State())
    {
      if loading {
        StoreOwnSrcKeepsFaithful(cache.State(), src, now);
        cache.Set(CacheKey(src), src, ImageTtl, now);
        imageSrc := src;
        isLoaded := true;
        loading := false;
      }
    }

    /** The started image failed: back to the placeholder, and nothing is cached. */
    method ImageFailed()
      requires Valid()
      modifies this
      ensures Valid() && observing == old(observing) && loadCalls == old(loadCalls)
      ensures old(loading) ==> ViewOf() == View(placeholder, old(isLoaded), false)
      ensures !old(loading) ==> ViewOf() == old(ViewOf())
    {
      if loading {
        imageSrc := placeholder;
        loading := false;
      }
    }

    /** The DOM element's own load event, which fires for the placeholder too. */
    method ElementLoaded()
      requires Valid()
      modifies this
      ensures Valid() && isLoaded
      ensures imageSrc == old(imageSrc) && loading == old(loading) && observing == old(observing)
    {
      isLoaded := true;
    }

    /** Unmount: the effect's cleanup disconnects the observer, fired or not. */
    method Unmount()
      requires Valid()
      modifies this
      ensures Valid() && !observing && ViewOf() == old(ViewOf()) && loadCalls == old(loadCalls)
    {
      observing := false;
    }
  }
}
