/**
 * The resource preloader hook: the stable priority sort that reorders the
 * caller's array in place, the set of loaded URLs and the loading flag as
 * completions arrive, and the critical-path loader's readiness flag.
 */
module ResourcePreloader {
  import opened Wrappers

  datatype Kind = Image | Script | Style
  datatype Priority = High | Low

  /** One resource to preload; `priority` may be absent. */
  datatype Resource = Resource(url: string, kind: Kind, priority: Option<Priority>)

  /** Only an explicit `high` counts as high; an absent priority ranks with `low`. */
  predicate IsHigh(r: Resource) {
    r.priority == Some(High)
  }

  /** The sort comparator: negative puts `a` first, positive puts `b` first, zero ties. */
  function Compare(a: Resource, b: Resource): int {
    if IsHigh(a) && !IsHigh(b) then -1
    else if !IsHigh(a) && IsHigh(b) then 1
    else 0
  }

  /**
   * The comparator is consistent, as `Array.prototype.sort` requires: it ties
   * a resource with itself, swapping the arguments flips the sign, `<= 0` is
   * transitive, and it ties exactly the resources of the same class.
   */
  lemma CompareIsConsistent(a: Resource, b: Resource, c: Resource)
    ensures Compare(a, a) == 0
    ensures Compare(a, b) < 0 <==> Compare(b, a) > 0
    ensures Compare(a, b) <= 0 && Compare(b, c) <= 0 ==> Compare(a, c) <= 0
    ensures Compare(a, b) == 0 <==> (IsHigh(a) <==> IsHigh(b))
  {
  }

  // ---------------------------------------------------------------------------
  // The stable priority sort
  // ---------------------------------------------------------------------------

  /** The high-priority resources of `s`, in their order. */
  function Highs(s: seq<Resource>): seq<Resource>
    decreases |s|
  {
    if s == [] then []
    else Highs(s[..|s| - 1]) + (if IsHigh(s[|s| - 1]) then [s[|s| - 1]] else [])
  }

  /** The other resources of `s`, in their order. */
  function Others(s: seq<Resource>): seq<Resource>
    decreases |s|
  {
    if s == [] then []
    else Others(s[..|s| - 1]) + (if IsHigh(s[|s| - 1]) then [] else [s[|s| - 1]])
  }

  /** What a stable sort with `Compare` produces: the high ones, then the rest, each group in input order. */
  function PrioritySorted(s: seq<Resource>): seq<Resource> {
    Highs(s) + Others(s)
  }

  /** No pair of positions is in the wrong order for the comparator. */
  predicate SortedByPriority(s: seq<Resource>) {
    forall i, j :: 0 <= i < j < |s| ==> Compare(s[i], s[j]) <= 0
  }

  lemma {:induction false} FiltersSnoc(s: seq<Resource>, x: Resource)
    ensures Highs(s + [x]) == Highs(s) + (if IsHigh(x) then [x] else [])
    ensures Others(s + [x]) == Others(s) + (if IsHigh(x) then [] else [x])
  {
    assert (s + [x])[..|s + [x]| - 1] == s;
  }

  lemma FiltersSplit(s: seq<Resource>)
    ensures multiset(Highs(s)) + multiset(Others(s)) == multiset(s)
    ensures forall k :: 0 <= k < |Highs(s)| ==> IsHigh(Highs(s)[k])
    ensures forall k :: 0 <= k < |Others(s)| ==> !IsHigh(Others(s)[k])
  {
    FiltersMultiset(s);
    FiltersClass(s);
  }

  lemma {:induction false} FiltersMultiset(s: seq<Resource>)
    ensures multiset(Highs(s)) + multiset(Others(s)) == multiset(s)
    decreases |s|
  {
    if s != [] {
      var p, x := s[..|s| - 1], s[|s| - 1];
      FiltersMultiset(p);
      FiltersSnoc(p, x);
      assert s == p + [x];
      assert multiset(s) == multiset(p) + multiset{x};
    }
  }

  lemma {:induction false} FiltersClass(s: seq<Resource>)
    ensures forall k :: 0 <= k < |Highs(s)| ==> IsHigh(Highs(s)[k])
    ensures forall k :: 0 <= k < |Others(s)| ==> !IsHigh(Others(s)[k])
    decreases |s|
  {
    if s != [] {
      var p, x := s[..|s| - 1], s[|s| - 1];
      FiltersClass(p);
      FiltersSnoc(p, x);
      assert s == p + [x];
    }
  }

  /** A sequence of only high (only other) resources is its own high (other) part. */
  lemma {:induction false} FiltersOfUniform(t: seq<Resource>, high: bool)
    requires forall k :: 0 <= k < |t| ==> IsHigh(t[k]) == high
    ensures Highs(t) == (if high then t else [])
    ensures Others(t) == (if high then [] else t)
    decreases |t|
  {
    if t != [] {
      FiltersOfUniform(t[..|t| - 1], high);
      assert t == t[..|t| - 1] + [t[|t| - 1]];
    }
  }

  lemma {:induction false} FiltersConcat(a: seq<Resource>, b: seq<Resource>)
    ensures Highs(a + b) == Highs(a) + Highs(b)
    ensures Others(a + b) == Others(a) + Others(b)
    decreases |b|
  {
    if b == [] {
      assert a + b == a;
    } else {
      var p, x := b[..|b| - 1], b[|b| - 1];
      FiltersConcat(a, p);
      assert a + b == (a + p) + [x];
      assert b == p + [x];
      FiltersSnoc(a + p, x);
      FiltersSnoc(p, x);
    }
  }

  /** The sorted list puts every high resource before every other one. */
  lemma PrioritySortedIsSorted(s: seq<Resource>)
    ensures SortedByPriority(PrioritySorted(s))
    ensures forall i, j :: 0 <= i < j < |PrioritySorted(s)| && IsHigh(PrioritySorted(s)[j]) ==>
              IsHigh(PrioritySorted(s)[i])
  {
    FiltersSplit(s);
  }

  /** The sorted list is a permutation of the input. */
  lemma PrioritySortedIsPermutation(s: seq<Resource>)
    ensures multiset(PrioritySorted(s)) == multiset(s)
    ensures |PrioritySorted(s)| == |s|
  {
    FiltersSplit(s);
    assert |multiset(PrioritySorted(s))| == |multiset(s)|;
  }

  /** Ties keep their input order: within each class the order is the input's. */
  lemma PrioritySortedIsStable(s: seq<Resource>)
    ensures Highs(PrioritySorted(s)) == Highs(s)
    ensures Others(PrioritySorted(s)) == Others(s)
  {
    FiltersSplit(s);
    FiltersConcat(Highs(s), Others(s));
    FiltersOfUniform(Highs(s), true);
    FiltersOfUniform(Others(s), false);
  }

  /** A sequence sorted by the comparator is its high part followed by its other part. */
  lemma {:induction false} SortedIsPartition(t: seq<Resource>)
    requires SortedByPriority(t)
    ensures t == Highs(t) + Others(t)
    decreases |t|
  {
    if t != [] {
      var p, x := t[..|t| - 1], t[|t| - 1];
      assert t == p + [x];
      assert SortedByPriority(p) by {
        forall i, j | 0 <= i < j < |p| ensures Compare(p[i], p[j]) <= 0 {
          assert p[i] == t[i] && p[j] == t[j];
        }
      }
      SortedIsPartition(p);
      FiltersSnoc(p, x);
      if IsHigh(x) {
        assert forall k :: 0 <= k < |p| ==> IsHigh(p[k]) by {
          forall k | 0 <= k < |p| ensures IsHigh(p[k]) {
            assert Compare(t[k], t[|t| - 1]) <= 0;
          }
        }
        FiltersOfUniform(p, true);
      }
    }
  }

  /** Any stable sort with this comparator yields exactly `PrioritySorted`. */
  lemma StableSortIsUnique(s: seq<Resource>, t: seq<Resource>)
    requires SortedByPriority(t)
    requires Highs(t) == Highs(s) && Others(t) == Others(s)
    ensures t == PrioritySorted(s)
  {
    SortedIsPartition(t);
  }

  /** `resources.sort(...)`: reorders the array in place into the stable priority order. */
  method SortByPriority(a: array<Resource>)
    modifies a
    ensures a[..] == PrioritySorted(old(a[..]))
  {
    var r := PrioritySorted(a[..]);
    PrioritySortedIsPermutation(a[..]);
    for j := 0 to a.Length
      invariant forall k :: 0 <= k < j ==> a[k] == r[k]
    {
      a[j] := r[j];
    }
    assert a[..] == r;
  }

  // ---------------------------------------------------------------------------
  // Loaded resources and the loading flag
  // ---------------------------------------------------------------------------

  /** The completion of the resource at `index`: a load (`ok`) or an image error. */
  datatype Completion = Completion(index: nat, ok: bool)

  /** Completions that can happen: scripts and styles only ever complete through their timer. */
  predicate Allowed(rs: seq<Resource>, e: Completion) {
    e.index < |rs| && (rs[e.index].kind != Image ==> e.ok)
  }

  /** The hook's state: which positions have settled, the loaded URLs, the loading flag. */
  datatype LoadState = LoadState(settled: set<nat>, loaded: set<string>, isLoading: bool)

  predicate AllSettled(n: nat, settled: set<nat>) {
    forall i :: 0 <= i < n ==> i in settled
  }

  /** The state once the effect has run: loading exactly when there is something to load. */
  function Initial(rs: seq<Resource>): LoadState {
    LoadState({}, {}, |rs| > 0)
  }

  /** One completion: a load adds the URL, an error adds nothing; the flag drops once all have settled. */
  function Complete(rs: seq<Resource>, s: LoadState, e: Completion): LoadState
    requires Allowed(rs, e)
  {
    var d := s.settled + {e.index};
    LoadState(d,
              if e.ok then s.loaded + {rs[e.index].url} else s.loaded,
              s.isLoading && !AllSettled(|rs|, d))
  }

  predicate AllAllowed(rs: seq<Resource>, es: seq<Completion>) {
    forall k :: 0 <= k < |es| ==> Allowed(rs, es[k])
  }

  /** A run of completions, in arrival order. */
  function Run(rs: seq<Resource>, s: LoadState, es: seq<Completion>): LoadState
    requires AllAllowed(rs, es)
    decreases |es|
  {
    if es == [] then s else Run(rs, Complete(rs, s, es[0]), es[1..])
  }

  /** The URLs of the successful completions of `es`. */
  ghost function LoadedBy(rs: seq<Resource>, es: seq<Completion>): set<string>
    requires AllAllowed(rs, es)
  {
    set k | 0 <= k < |es| && es[k].ok :: rs[es[k].index].url
  }

  /** The positions `es` completes. */
  ghost function SettledBy(es: seq<Completion>): set<nat> {
    set k | 0 <= k < |es| :: es[k].index
  }

  /** The invariant: only real positions settle, and loading means something is still pending. */
  ghost predicate Inv(rs: seq<Resource>, s: LoadState) {
    && (forall i :: i in s.settled ==> i < |rs|)
    && (s.isLoading <==> !AllSettled(|rs|, s.settled))
  }

  lemma InitialInv(rs: seq<Resource>)
    ensures Inv(rs, Initial(rs))
    ensures !Initial(rs).isLoading <==> rs == []
  {
    if rs != [] {
      assert 0 !in Initial(rs).settled;
    }
  }

  /** Each completion keeps the invariant and only ever adds to the loaded set; an error adds nothing. */
  lemma CompleteKeepsInv(rs: seq<Resource>, s: LoadState, e: Completion)
    requires Inv(rs, s) && Allowed(rs, e)
    ensures var t := Complete(rs, s, e);
            && Inv(rs, t)
            && t.settled == s.settled + {e.index}
            && s.loaded <= t.loaded
            && (!e.ok ==> t.loaded == s.loaded)
            && (e.ok ==> t.loaded == s.loaded + {rs[e.index].url})
  {
    var t := Complete(rs, s, e);
    if !AllSettled(|rs|, t.settled) {
      var i :| 0 <= i < |rs| && i !in t.settled;
      assert i !in s.settled;
    }
  }

  lemma FirstAndRest(rs: seq<Resource>, es: seq<Completion>)
    requires AllAllowed(rs, es) && es != []
    ensures LoadedBy(rs, es) == (if es[0].ok then {rs[es[0].index].url} else {}) + LoadedBy(rs, es[1..])
    ensures SettledBy(es) == {es[0].index} + SettledBy(es[1..])
  {
    var r := es[1..];
    forall u | u in LoadedBy(rs, es) ensures u in (if es[0].ok then {rs[es[0].index].url} else {}) + LoadedBy(rs, r) {
      var k :| 0 <= k < |es| && es[k].ok && rs[es[k].index].url == u;
      if k > 0 {
        assert r[k - 1] == es[k];
      }
    }
    forall u | u in LoadedBy(rs, r) ensures u in LoadedBy(rs, es) {
      var k :| 0 <= k < |r| && r[k].ok && rs[r[k].index].url == u;
      assert es[k + 1] == r[k];
    }
    forall i | i in SettledBy(es) ensures i in {es[0].index} + SettledBy(r) {
      var k :| 0 <= k < |es| && es[k].index == i;
      if k > 0 {
        assert r[k - 1] == es[k];
      }
    }
    forall i | i in SettledBy(r) ensures i in SettledBy(es) {
      var k :| 0 <= k < |r| && r[k].index == i;
      assert es[k + 1] == r[k];
    }
  }

  /** A run keeps the invariant, settles exactly its positions, and loads exactly its successes. */
  lemma {:induction false} RunFacts(rs: seq<Resource>, s: LoadState, es: seq<Completion>)
    requires Inv(rs, s) && AllAllowed(rs, es)
    ensures Inv(rs, Run(rs, s, es))
    ensures Run(rs, s, es).settled == s.settled + SettledBy(es)
    ensures Run(rs, s, es).loaded == s.loaded + LoadedBy(rs, es)
    decreases |es|
  {
    if es != [] {
      CompleteKeepsInv(rs, s, es[0]);
      RunFacts(rs, Complete(rs, s, es[0]), es[1..]);
      FirstAndRest(rs, es);
    }
  }

  /**
   * Whatever the failures, loading is over exactly when every resource has
   * settled, and the loaded set is exactly the URLs of the successful loads.
   */
  lemma LoadingEndsWhenAllSettle(rs: seq<Resource>, es: seq<Completion>)
    requires AllAllowed(rs, es)
    ensures var f := Run(rs, Initial(rs), es);
            && (!f.isLoading <==> forall i :: 0 <= i < |rs| ==> i in SettledBy(es))
            && f.loaded == LoadedBy(rs, es)
  {
    InitialInv(rs);
    RunFacts(rs, Initial(rs), es);
  }

  /** The hook's state cells, driven by the mount effect and by completions. */
  class Preloader {
    var resources: seq<Resource>
    var settled: set<nat>
    var loadedResources: set<string>
    var isLoading: bool

    function State(): LoadState
      reads this
    {
      LoadState(settled, loadedResources, isLoading)
    }

    ghost predicate Valid()
      reads this
    {
      Inv(resources, State())
    }

    /** Mount: a non-empty list is sorted in place and loading starts; an empty one is done at once. */
    constructor (a: array<Resource>)
      modifies a
      ensures a[..] == PrioritySorted(old(a[..]))
      ensures resources == a[..] && State() == Initial(resources) && Valid()
    {
      if a.Length > 0 {
        SortByPriority(a);
      }
      resources := a[..];
      settled, loadedResources := {}, {};
      isLoading := a.Length > 0;
      new;
      InitialInv(resources);
    }

    method Settle(e: Completion)
      requires Valid() && Allowed(resources, e)
      modifies this
      ensures resources == old(resources) && State() == Complete(resources, old(State()), e) && Valid()
    {
      CompleteKeepsInv(resources, State(), e);
      settled := settled + {e.index};
      if e.ok {
        loadedResources := loadedResources + {resources[e.index].url};
      }
      isLoading := isLoading && !AllSettled(|resources|, settled);
    }

    /** `img.onload` of an image resource. */
    method ImageLoaded(i: nat)
      requires Valid() && i < |resources| && resources[i].kind == Image
      modifies this
      ensures resources == old(resources) && State() == Complete(resources, old(State()), Completion(i, true)) && Valid()
    {
      Settle(Completion(i, true));
    }

    /** `img.onerror` of an image resource. */
    method ImageFailed(i: nat)
      requires Valid() && i < |resources| && resources[i].kind == Image
      modifies this
      ensures resources == old(resources) && State() == Complete(resources, old(State()), Completion(i, false)) && Valid()
    {
      Settle(Completion(i, false));
    }

    /** The timer of a script or style resource. */
    method TimerFired(i: nat)
      requires Valid() && i < |resources| && resources[i].kind != Image
      modifies this
      ensures resources == old(resources) && State() == Complete(resources, old(State()), Completion(i, true)) && Valid()
    {
      Settle(Completion(i, true));
    }
  }

  // ---------------------------------------------------------------------------
  // The critical-path loader
  // ---------------------------------------------------------------------------

  /** Which critical images have loaded, whether one failed, and the readiness flag. */
  datatype CriticalState = CriticalState(loadedImages: set<nat>, failed: bool, ready: bool)

  /** The state once the effect has run: ready at once for an empty list. */
  function CriticalInitial(n: nat): CriticalState {
    CriticalState({}, false, n == 0)
  }

  /** A load counts towards `Promise.all`; the first failure rejects it, which also sets ready. */
  function CriticalComplete(n: nat, s: CriticalState, e: Completion): CriticalState
    requires e.index < n
  {
    if e.ok then
      var l := s.loadedImages + {e.index};
      CriticalState(l, s.failed, s.ready || AllSettled(n, l))
    else
      CriticalState(s.loadedImages, true, true)
  }

  predicate AllBelow(n: nat, es: seq<Completion>) {
    forall k :: 0 <= k < |es| ==> es[k].index < n
  }

  function CriticalRun(n: nat, s: CriticalState, es: seq<Completion>): CriticalState
    requires AllBelow(n, es)
    decreases |es|
  {
    if es == [] then s else CriticalRun(n, CriticalComplete(n, s, es[0]), es[1..])
  }

  /** The positions `es` loads successfully. */
  ghost function LoadedIndices(es: seq<Completion>): set<nat> {
    set k | 0 <= k < |es| && es[k].ok :: es[k].index
  }

  /** Ready exactly when there was nothing to load, something failed, or everything loaded. */
  ghost predicate CriticalInv(n: nat, s: CriticalState) {
    && (forall i :: i in s.loadedImages ==> i < n)
    && (s.ready <==> n == 0 || s.failed || AllSettled(n, s.loadedImages))
  }

  lemma CriticalInitialInv(n: nat)
    ensures CriticalInv(n, CriticalInitial(n))
  {
    if n > 0 {
      assert 0 !in CriticalInitial(n).loadedImages;
    }
  }

  lemma CriticalCompleteKeepsInv(n: nat, s: CriticalState, e: Completion)
    requires CriticalInv(n, s) && e.index < n
    ensures var t := CriticalComplete(n, s, e);
            && CriticalInv(n, t)
            && t.loadedImages == s.loadedImages + (if e.ok then {e.index} else {})
            && t.failed == (s.failed || !e.ok)
  {
  }

  lemma CriticalFirstAndRest(es: seq<Completion>)
    requires es != []
    ensures LoadedIndices(es) == (if es[0].ok then {es[0].index} else {}) + LoadedIndices(es[1..])
    ensures SettledBy(es) == {es[0].index} + SettledBy(es[1..])
  {
    var r := es[1..];
    forall i | i in LoadedIndices(es) ensures i in (if es[0].ok then {es[0].index} else {}) + LoadedIndices(r) {
      var k :| 0 <= k < |es| && es[k].ok && es[k].index == i;
      if k > 0 {
        assert r[k - 1] == es[k];
      }
    }
    forall i | i in LoadedIndices(r) ensures i in LoadedIndices(es) {
      var k :| 0 <= k < |r| && r[k].ok && r[k].index == i;
      assert es[k + 1] == r[k];
    }
    forall i | i in SettledBy(es) ensures i in {es[0].index} + SettledBy(r) {
      var k :| 0 <= k < |es| && es[k].index == i;
      if k > 0 {
        assert r[k - 1] == es[k];
      }
    }
    forall i | i in SettledBy(r) ensures i in SettledBy(es) {
      var k :| 0 <= k < |r| && r[k].index == i;
      assert es[k + 1] == r[k];
    }
  }

  lemma {:induction false} CriticalRunFacts(n: nat, s: CriticalState, es: seq<Completion>)
    requires CriticalInv(n, s) && AllBelow(n, es)
    ensures var t := CriticalRun(n, s, es);
            && CriticalInv(n, t)
            && t.loadedImages == s.loadedImages + LoadedIndices(es)
            && (t.failed <==> s.failed || exists k :: 0 <= k < |es| && !es[k].ok)
    decreases |es|
  {
    if es != [] {
      var t := CriticalComplete(n, s, es[0]);
      CriticalCompleteKeepsInv(n, s, es[0]);
      CriticalRunFacts(n, t, es[1..]);
      CriticalFirstAndRest(es);
      if exists k :: 0 <= k < |es[1..]| && !es[1..][k].ok {
        var k :| 0 <= k < |es[1..]| && !es[1..][k].ok;
        assert !es[k + 1].ok;
      }
      if exists k :: 1 <= k < |es| && !es[k].ok {
        var k :| 1 <= k < |es| && !es[k].ok;
        assert !es[1..][k - 1].ok;
      }
    }
  }

  /** Once every critical image has loaded or failed, in any order, the loader is ready. */
  lemma CriticalAlwaysEndsReady(n: nat, es: seq<Completion>)
    requires AllBelow(n, es)
    requires forall i :: 0 <= i < n ==> i in SettledBy(es)
    ensures CriticalRun(n, CriticalInitial(n), es).ready
  {
    CriticalInitialInv(n);
    CriticalRunFacts(n, CriticalInitial(n), es);
    var t := CriticalRun(n, CriticalInitial(n), es);
    if !t.failed {
      forall i | 0 <= i < n ensures i in t.loadedImages {
        assert i in SettledBy(es);
        var k :| 0 <= k < |es| && es[k].index == i;
        assert es[k].ok;
      }
    }
  }

  /** Before that, it is ready only when the list is empty or some image failed. */
  lemma CriticalNotReadyEarly(n: nat, es: seq<Completion>)
    requires AllBelow(n, es) && n > 0
    requires forall k :: 0 <= k < |es| ==> es[k].ok
    requires exists i :: 0 <= i < n && i !in SettledBy(es)
    ensures !CriticalRun(n, CriticalInitial(n), es).ready
  {
    CriticalInitialInv(n);
    CriticalRunFacts(n, CriticalInitial(n), es);
    var i :| 0 <= i < n && i !in SettledBy(es);
    assert i !in LoadedIndices(es);
  }

  /** The loader's state cells. */
  class CriticalPathLoader {
    const count: nat
    var loadedImages: set<nat>
    var failed: bool
    var criticalLoaded: bool

    function State(): CriticalState
      reads this
    {
      CriticalState(loadedImages, failed, criticalLoaded)
    }

    ghost predicate Valid()
      reads this
    {
      CriticalInv(count, State())
    }

    constructor (criticalImages: seq<string>)
      ensures count == |criticalImages| && State() == CriticalInitial(count) && Valid()
    {
      count := |criticalImages|;
      loadedImages, failed := {}, false;
      criticalLoaded := |criticalImages| == 0;
      new;
      CriticalInitialInv(count);
    }

    /** `img.onload` of critical image `i`. */
    method ImageLoaded(i: nat)
      requires Valid() && i < count
      modifies this
      ensures State() == CriticalComplete(count, old(State()), Completion(i, true)) && Valid()
    {
      CriticalCompleteKeepsInv(count, State(), Completion(i, true));
      loadedImages := loadedImages + {i};
      criticalLoaded := criticalLoaded || AllSettled(count, loadedImages);
    }

    /** `img.onerror` of critical image `i`: `Promise.all` rejects and the catch sets ready anyway. */
    method ImageFailed(i: nat)
      requires Valid() && i < count
      modifies this
      ensures State() == CriticalComplete(count, old(State()), Completion(i, false)) && Valid()
    {
      failed := true;
      criticalLoaded := true;
    }
  }
}
