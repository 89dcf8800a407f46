# Client-side caching and rendering logic of the heritage site

This project models, in Dafny, the logic of the site's front end that keeps
state and caches things, and proves properties of that model:

- the in-memory TTL cache `CacheManager` (`src/utils/caching.ts`): a `Map` of at
  most 50 entries, ordered by insertion, purged of expired entries on every
  `set`, evicting the first key at capacity and promoting a key on a read;
- the service worker (`public/sw.js`): `install` stores the shell manifest,
  `activate` deletes stale caches, and `fetch` answers cache-first, stores
  complete same-origin 200 responses in the static or dynamic cache, and
  serves an SVG placeholder for images when offline;
- the virtualized grid's window arithmetic (`src/components/VirtualizedGrid.tsx`);
- the resource preloader (`src/hooks/useResourcePreloader.tsx`): the stable
  in-place priority sort, the loaded set and loading flag, and the
  critical-path loader;
- the lazy image (`src/components/ui/LazyImage.tsx`), a state machine that
  reads and writes the shared cache under `img_<src>`;
- the infinite-scroll latch (`src/hooks/useInfiniteScroll.tsx`);
- the hero carousel's slide index (`src/components/HeroCarousel.tsx`);
- the upload form (`src/components/DocumentUpload.tsx`): the size check,
  the title taken from the file name, the upload guard, the video test,
  the storage path, the bucket and table, and the record defaults.

One module per source file, plus `Wrappers` (Option and sequence helpers).
Where the source changes state in place, the model is a class whose fields
are that state. Its methods are proved to agree with pure functions on a
value of that state (`Store`, `Caches`, `LoadState`, `CriticalState`,
`View`, `Form`). The properties are lemmas about those functions. The
clock, the network, image loading, the intersection observer, and the
storage and database calls are not modelled as code. They enter as
parameters or as events: `now`, a `NetResult` per fetch, `Completion`
events, an `Environment` of upload outcomes.

## Model

| member | source | states |
|---|---|---|
| ObjectCache.Expired | src/utils/caching.ts:28 | Definition of expiry: the age `now - timestamp` exceeds the time-to-live, so an entry exactly at its time-to-live is live. PurgeKeepsExactlyLive, GetExpiredRemoves and DefaultTtlReadable state its meaning. |
| ObjectCache.Delete | src/utils/caching.ts:31-36 | Definition of `Map.delete` on a store value: the key leaves the order and the table. DeleteKeepsWellFormed, SetEvictsOldestEvenIfPresent and GetExpiredRemoves state its meaning. |
| ObjectCache.Purge | src/utils/caching.ts:50-57 | Definition of `cleanup` on a store value: the live keys in order, with their entries. PurgeKeepsExactlyLive and LiveKeysFacts state its meaning. |
| ObjectCache.Put | src/utils/caching.ts:16-20 | Definition of `Map.set` on a store value: an existing key keeps its place, a new one goes last. PutKeepsWellFormed and SetEntries state its effect. |
| ObjectCache.AfterSet | src/utils/caching.ts:6-21 | Definition of the whole `set`: purge, evict the first key at 50, then put. SetKeepsBound, SetRemovesOnlyExpired, SetEvictsOldestEvenIfPresent and SetThenGetLater state its meaning. |
| ObjectCache.Lookup | src/utils/caching.ts:23-40 | Definition of what `get` returns. SetThenGet, GetMiss, GetExpiredRemoves and GetHitMovesLast state it per case. |
| ObjectCache.AfterGet | src/utils/caching.ts:23-40 | Definition of the store after `get`. GetEntries, GetExpiredRemoves, GetHitMovesLast and ReadProtectsFromEviction state its meaning. |
| ObjectCache.CacheManager.constructor | src/utils/caching.ts:2-4 | A new cache is empty and well formed. |
| ObjectCache.CacheManager.Cleanup | src/utils/caching.ts:50-57 | The loop that deletes while it iterates leaves exactly the purged store: the live keys in their order, with the same entries. |
| ObjectCache.CacheManager.Set | src/utils/caching.ts:6-21 | The cache becomes `AfterSet` of the old one (purge, evict the first key at 50, then `Map.set`), and stays well formed. |
| ObjectCache.CacheManager.Get | src/utils/caching.ts:23-40 | Returns `Lookup` of the old store and leaves `AfterGet`: a miss changes nothing, an expired entry is deleted, a hit is re-inserted last. |
| ObjectCache.CacheManager.Has | src/utils/caching.ts:42-44 | The answer is exactly "get would return a value", and the store changes exactly as `get` changes it. |
| ObjectCache.CacheManager.Clear | src/utils/caching.ts:46-48 | Afterwards the cache is empty and its size is 0. |
| ObjectCache.CacheManager.Size | src/utils/caching.ts:59-61 | The size is the number of keys, which equals the number of table entries and is at most 50. |
| ObjectCache.PurgeKeepsExactlyLive | src/utils/caching.ts:50-57 | Cleanup keeps an entry if and only if it is unexpired, leaves kept entries unchanged, and keeps the store well formed. |
| ObjectCache.SetKeepsBound | src/utils/caching.ts:4-20 | After any `set` the store is well formed and holds at most 50 entries. |
| ObjectCache.SetRemovesOnlyExpired | src/utils/caching.ts:6-21 | Apart from the written key and an evicted one, an old key survives `set` exactly when it was unexpired, and its entry is unchanged. |
| ObjectCache.SetEvictsOldestEvenIfPresent | src/utils/caching.ts:11-16 | At capacity the first key in Map order is removed even when the written key is present. A present key other than the first keeps its place. A new key, or the first key itself, goes last. The resulting size is stated. |
| ObjectCache.SetThenGet | src/utils/caching.ts:16-28 | `get` right after `set` at the same instant returns the data exactly when `ttl >= 0`. |
| ObjectCache.SetThenGetLater | src/utils/caching.ts:16-28 | `get` after `set` returns the data exactly while `later - now <= ttl`. |
| ObjectCache.DefaultTtlReadable | src/utils/caching.ts:6 | With the default time-to-live, the written entry is readable for 300000 ms and no longer. |
| ObjectCache.SetEntries | src/utils/caching.ts:16-20 | After `set`, the written key holds `{data, now, ttl}`, and every other entry is an unchanged entry of before. |
| ObjectCache.GetEntries | src/utils/caching.ts:23-40 | `get` never changes or adds an entry. |
| ObjectCache.GetMiss | src/utils/caching.ts:24-26 | On a missing key, `get` returns null and changes nothing. |
| ObjectCache.GetExpiredRemoves | src/utils/caching.ts:28-33 | For an expired key, `get` returns null and removes that key. The other keys keep their order and entries, and the store stays well formed. |
| ObjectCache.GetHitMovesLast | src/utils/caching.ts:35-39 | On a hit, `get` returns the data and moves the key last. The table, including that entry's timestamp, is unchanged. |
| ObjectCache.ReadProtectsFromEviction | src/utils/caching.ts:11-37 | After a hit on `k`, a `set` of another key at the same instant does not evict `k`. |
| ObjectCache.LiveKeysFacts | src/utils/caching.ts:52-55 | The surviving keys are exactly the unexpired ones. There are no more of them than before, and they stay distinct. |
| ObjectCache.CleanupIteration | src/utils/caching.ts:52-56 | One loop iteration deletes the visited key exactly when it is expired, and keeps the loop's state in step with the purge. |
| ObjectCache.DistinctCard | src/utils/caching.ts:59-61 | A Map's size equals the length of its distinct key order. |
| ServiceWorker.ShouldCacheStatically | public/sw.js:92-106 | Definition of `shouldCacheStatically` as the six `endsWith` tests. StaticIffExtension states what it decides. |
| ServiceWorker.ManifestUrls | public/sw.js:7-19 | Definition of the manifest's absolute URLs, each path after the worker's origin. ManifestUrlsDistinct, InstallStoresManifest and ShellServedOffline state its meaning. |
| ServiceWorker.ManifestUrlsDistinct | public/sw.js:7-19 | The manifest paths, resolved against the worker's origin as `addAll` resolves them, give four distinct absolute URLs. |
| ServiceWorker.StaticIffExtension | public/sw.js:92-106 | `shouldCacheStatically` holds exactly when the text after the pathname's last dot is js, css, png, jpg, jpeg or webp. |
| ServiceWorker.Partition | public/sw.js:70 | Definition of the cache a cacheable response goes to. CacheableStoredInPartition states that it is the static cache exactly when `shouldCacheStatically` holds, and that the response lands there. |
| ServiceWorker.Intercepted | public/sw.js:47-50 | Definition of the two early returns of the fetch handler. NotInterceptedPassesThrough states their effect. |
| ServiceWorker.Cacheable | public/sw.js:62-64 | Definition of the validity test on the network response. UncacheableNotStored and CacheableStoredInPartition state both sides of it. |
| ServiceWorker.Fallback | public/sw.js:82-84 | Definition of the offline placeholder response. OfflineFallback states when it is served and that its `Content-Type` is `image/svg+xml`. |
| ServiceWorker.MatchIn | public/sw.js:53 | `caches.match` finds a response exactly when some cache holds the URL. It then returns the response of the first cache, in creation order, that holds the URL. |
| ServiceWorker.OpenCache | public/sw.js:72-75 | Definition of `caches.open`: an existing cache is kept and a missing one is created empty, last in creation order. MatchInOpened and PutFailureStillResponds state that this changes no lookup. |
| ServiceWorker.PutInto | public/sw.js:72-75 | Definition of `caches.open` followed by `cache.put`. CacheableStoredInPartition and SecondGetServedFromCache state its meaning. |
| ServiceWorker.AddAllSucceeds | public/sw.js:19 | Definition of when `addAll` succeeds: every manifest URL was fetched with an ok status. InstallStoresManifest and InstallFresh state what happens in each case. |
| ServiceWorker.AddEntries | public/sw.js:19 | Definition of the entries `addAll` writes. AddEntriesContents states its meaning. |
| ServiceWorker.AddEntriesContents | public/sw.js:19 | `addAll` maps each manifest URL to its response and leaves other URLs as they were. |
| ServiceWorker.InstallStoresManifest | public/sw.js:7-21 | Install always opens the static cache. If every fetch is ok, it holds the four manifest paths resolved against the worker's origin, each with its response, and keeps its other entries. Otherwise nothing is added. Other caches are untouched. |
| ServiceWorker.CurrentNames | public/sw.js:30-36 | Definition of the caches activation keeps, the static and the dynamic one, in creation order. ActivateKeepsOnlyCurrent and InstallThenActivate state its meaning. |
| ServiceWorker.StaleNames | public/sw.js:33-35 | Definition of the caches the `filter` selects for deletion. CacheStorage.Activate deletes exactly these, and ActivateKeepsOnlyCurrent states what is left. |
| ServiceWorker.ActivateKeepsOnlyCurrent | public/sw.js:28-37 | After activate, every remaining cache is the static or the dynamic one. Every other cache is gone, and the two current caches keep their contents. |
| ServiceWorker.InstallThenActivate | public/sw.js:15-37 | From storage holding neither current cache, install and then activate leave just the static cache with the manifest's absolute URLs. |
| ServiceWorker.InstallActivateOffline | public/sw.js:15-85 | In that scenario the static cache holds exactly the manifest's absolute URLs. An offline image request for any URL not among them gets the SVG placeholder. |
| ServiceWorker.ShellServedOffline | public/sw.js:15-57 | In that scenario, a GET for any manifest URL is answered from the static cache with the response install fetched for it. The network is not used, so the app shell is served offline. |
| ServiceWorker.NotInterceptedPassesThrough | public/sw.js:47-50 | Non-GET requests and `chrome-extension://` URLs are not intercepted: no network and no change. |
| ServiceWorker.CacheHitServedWithoutNetwork | public/sw.js:53-57 | A request some cache holds is answered from that cache without the network, whatever the network would do, and nothing changes. |
| ServiceWorker.UncacheableNotStored | public/sw.js:62-64 | A missing response, or one with status other than 200 or type other than `basic`, is returned as it is, and nothing is stored. |
| ServiceWorker.CacheableStoredInPartition | public/sw.js:66-77 | When the put succeeds, a cacheable response is returned and stored under the URL in the chosen partition. Other caches, and other URLs of that partition, are unchanged. |
| ServiceWorker.MatchInOpened | public/sw.js:72-74 | Creating a new, empty cache with `caches.open` changes the answer of no `caches.match`. |
| ServiceWorker.PutFailureStillResponds | public/sw.js:72-77 | When the un-awaited put rejects, the page still gets the response and no lookup changes. The next GET of that URL goes to the network again. |
| ServiceWorker.OfflineFallback | public/sw.js:79-86 | Offline, an image request gets the SVG and any other request gets no response. Nothing is stored. |
| ServiceWorker.SecondGetServedFromCache | public/sw.js:53-77 | Once a GET was answered and its copy stored, the next GET of that URL is served from the cache without the network and changes nothing. |
| ServiceWorker.AfterInstall | public/sw.js:15-25 | Definition of the storage after install for a worker served from a given origin. InstallStoresManifest and ShellServedOffline state its meaning. |
| ServiceWorker.AfterActivate | public/sw.js:28-42 | Definition of the storage after activate. ActivateKeepsOnlyCurrent states its meaning. |
| ServiceWorker.FetchReply | public/sw.js:45-89 | Definition of what the page receives. The fetch lemmas above state it case by case. |
| ServiceWorker.AfterFetch | public/sw.js:52-77 | Definition of the storage after a fetch, given whether the put succeeds. CacheableStoredInPartition, PutFailureStillResponds and SecondGetServedFromCache state its meaning. |
| ServiceWorker.CacheStorage.constructor | public/sw.js:30-31 | A fresh origin's storage lists no caches. |
| ServiceWorker.CacheStorage.Open | public/sw.js:72-75 | `caches.open` creates an empty cache under a new name, placed last, and leaves an existing cache alone. |
| ServiceWorker.CacheStorage.Install | public/sw.js:15-25 | The storage becomes `AfterInstall` of the old one for the worker's origin, and the result says whether `addAll` succeeded. |
| ServiceWorker.CacheStorage.Delete | public/sw.js:35 | `caches.delete` removes the name from the order and its store from the map. |
| ServiceWorker.CacheStorage.DeleteAll | public/sw.js:32-36 | Deleting the names one by one removes exactly those names and their stores. |
| ServiceWorker.CacheStorage.Activate | public/sw.js:28-42 | The storage becomes `AfterActivate` of the old one: only the current caches remain, in their order. |
| ServiceWorker.CacheStorage.HandleFetch | public/sw.js:45-89 | The reply, the new storage and whether the network was used all agree with `FetchReply`, `AfterFetch` and `UsesNetwork` of the old storage, whether or not the put succeeds. |
| VirtualizedGrid.TotalRows | src/components/VirtualizedGrid.tsx:25 | Definition of `totalRows`. TotalHeightFits states its meaning. |
| VirtualizedGrid.RowHeight | src/components/VirtualizedGrid.tsx:26 | Definition of `rowHeight`, an item plus the gap. StartIndexIsRowStart, ViewportCovered and TranslateWithinOneRow state how the window depends on it. |
| VirtualizedGrid.StartIndex | src/components/VirtualizedGrid.tsx:28 | Definition of `startIndex`. StartIndexIsRowStart and ViewportCovered state its meaning. |
| VirtualizedGrid.EndIndex | src/components/VirtualizedGrid.tsx:29-32 | Definition of `endIndex`. EndIndexBounds and ViewportCovered state its meaning. |
| VirtualizedGrid.Slice | src/components/VirtualizedGrid.tsx:34-36 | Definition of `Array.prototype.slice` with clamped bounds. VisibleIsWindow states what it yields for the window. |
| VirtualizedGrid.VisibleItems | src/components/VirtualizedGrid.tsx:34-36 | Definition of `visibleItems`. VisibleIsWindow states its meaning. |
| VirtualizedGrid.Rendered | src/components/VirtualizedGrid.tsx:66-69 | Definition of the mapped block with keys `startIndex + index`. RenderedIndices states its meaning. |
| VirtualizedGrid.TranslateY | src/components/VirtualizedGrid.tsx:60 | Definition of the block's translation. TranslateWithinOneRow states its meaning. |
| VirtualizedGrid.TotalHeight | src/components/VirtualizedGrid.tsx:57 | Definition of the content height. TotalHeightFits states its meaning. |
| VirtualizedGrid.CeilDiv | src/components/VirtualizedGrid.tsx:25-30 | `Math.ceil(a / b)` is the least `q` with `q * b >= a`. |
| VirtualizedGrid.StartIndexIsRowStart | src/components/VirtualizedGrid.tsx:24-28 | `startIndex` is a multiple of `cols`, and its row is the row that `scrollTop` falls in. |
| VirtualizedGrid.EndIndexBounds | src/components/VirtualizedGrid.tsx:29-32 | `endIndex <= items.length` and `endIndex <= startIndex + (ceil(containerHeight / rowHeight) + 1) * cols`. |
| VirtualizedGrid.ViewportCovered | src/components/VirtualizedGrid.tsx:28-32 | Every item whose row overlaps the viewport lies in `[startIndex, endIndex)`. |
| VirtualizedGrid.VisibleIsWindow | src/components/VirtualizedGrid.tsx:34-36 | The rendered items are exactly `items[startIndex..endIndex)`, and there are none when `startIndex >= items.length`. |
| VirtualizedGrid.RenderedIndices | src/components/VirtualizedGrid.tsx:66-69 | Position i of the rendered block shows item `startIndex + i`, keyed by that index. |
| VirtualizedGrid.TranslateWithinOneRow | src/components/VirtualizedGrid.tsx:60 | The translate offset is non-negative, at most `scrollTop`, and less than one row above it. |
| VirtualizedGrid.TotalHeightFits | src/components/VirtualizedGrid.tsx:25-57 | `ceil(len / cols)` rows hold every item and at most one row is partly empty. The height is those rows times `rowHeight`. |
| VirtualizedGrid.WorkedExample | src/components/VirtualizedGrid.tsx:19-60 | With 100 items, 4 columns, item height 100, the default gap 16, a 400px viewport and scroll 0, the window is `[0, 20)`, the offset 0 and the height 2900. |
| ResourcePreloader.IsHigh | src/hooks/useResourcePreloader.tsx:18-19 | Definition of the comparator's class test: the priority is `'high'`, and a missing priority is not high. CompareIsConsistent and PrioritySortedIsSorted state its role in the order. |
| ResourcePreloader.Compare | src/hooks/useResourcePreloader.tsx:17-21 | Definition of the sort comparator. CompareIsConsistent states that it is a consistent comparator, and SortedIsPartition and StableSortIsUnique state what sorting by it yields. |
| ResourcePreloader.CompareIsConsistent | src/hooks/useResourcePreloader.tsx:17-21 | The comparator is consistent, as `Array.prototype.sort` requires. A resource ties with itself, and swapping the arguments flips the sign. `<= 0` is transitive, and a tie means exactly that both resources are high or both are not. |
| ResourcePreloader.PrioritySorted | src/hooks/useResourcePreloader.tsx:17-21 | Definition of the order the stable sort produces: the high resources, then the others. The four lemmas below state that it is sorted, a permutation, stable, and the only such order. |
| ResourcePreloader.PrioritySortedIsSorted | src/hooks/useResourcePreloader.tsx:17-21 | After sorting, every high resource precedes every other one. |
| ResourcePreloader.PrioritySortedIsPermutation | src/hooks/useResourcePreloader.tsx:17 | The sorted list is a permutation of the input. |
| ResourcePreloader.PrioritySortedIsStable | src/hooks/useResourcePreloader.tsx:17 | Within each class the input order is kept. |
| ResourcePreloader.SortedIsPartition | src/hooks/useResourcePreloader.tsx:17-21 | Any list in comparator order is its high part followed by its other part. |
| ResourcePreloader.StableSortIsUnique | src/hooks/useResourcePreloader.tsx:17-21 | Any sorted list that keeps each class's order is exactly the one the model computes. |
| ResourcePreloader.SortByPriority | src/hooks/useResourcePreloader.tsx:17 | Sorts the array in place into the stable priority order. |
| ResourcePreloader.Complete | src/hooks/useResourcePreloader.tsx:23-50 | Definition of one completion's effect on the loaded set, the settled positions and `isLoading`. CompleteKeepsInv, RunFacts and LoadingEndsWhenAllSettle state its meaning. |
| ResourcePreloader.InitialInv | src/hooks/useResourcePreloader.tsx:53-57 | After mount the invariant holds. Loading is already false exactly when the list is empty. |
| ResourcePreloader.CompleteKeepsInv | src/hooks/useResourcePreloader.tsx:26-49 | A completion settles its position and keeps the invariant. The loaded set only grows: by the URL on a load, not at all on an error. |
| ResourcePreloader.RunFacts | src/hooks/useResourcePreloader.tsx:23-50 | Any run of completions settles exactly its positions and loads exactly the URLs of its successes. |
| ResourcePreloader.LoadingEndsWhenAllSettle | src/hooks/useResourcePreloader.tsx:44-57 | Whatever fails, loading is over exactly when every resource has settled. The loaded set is then exactly the successful URLs. |
| ResourcePreloader.Preloader.constructor | src/hooks/useResourcePreloader.tsx:14-57 | Mounting sorts the array in place and starts in the initial state. |
| ResourcePreloader.Preloader.ImageLoaded | src/hooks/useResourcePreloader.tsx:27-30 | An image load is the completion `(i, ok)`. |
| ResourcePreloader.Preloader.ImageFailed | src/hooks/useResourcePreloader.tsx:31 | An image error is the completion `(i, failed)`: settled, nothing added. |
| ResourcePreloader.Preloader.TimerFired | src/hooks/useResourcePreloader.tsx:33-39 | A script or style timer is an ok completion. |
| ResourcePreloader.Preloader.Settle | src/hooks/useResourcePreloader.tsx:23-50 | Applies one completion and keeps the invariant. |
| ResourcePreloader.CriticalComplete | src/hooks/useResourcePreloader.tsx:74-89 | Definition of one critical image's completion. CriticalCompleteKeepsInv, CriticalAlwaysEndsReady and CriticalNotReadyEarly state its meaning. |
| ResourcePreloader.CriticalInitialInv | src/hooks/useResourcePreloader.tsx:65-71 | The critical loader's invariant holds at mount: ready from the start exactly for an empty list. |
| ResourcePreloader.CriticalCompleteKeepsInv | src/hooks/useResourcePreloader.tsx:74-89 | A load adds its index and an error sets `failed`. Ready is kept equal to "empty, failed, or all loaded". |
| ResourcePreloader.CriticalRunFacts | src/hooks/useResourcePreloader.tsx:74-89 | Across a run of completions the invariant holds. The loaded indices are exactly the successes, and `failed` records any error. |
| ResourcePreloader.CriticalAlwaysEndsReady | src/hooks/useResourcePreloader.tsx:68-89 | Once every critical image has loaded or failed, in any order, the loader is ready. |
| ResourcePreloader.CriticalNotReadyEarly | src/hooks/useResourcePreloader.tsx:84-85 | With no failure and an image still pending, a non-empty list is not ready. |
| ResourcePreloader.CriticalPathLoader.constructor | src/hooks/useResourcePreloader.tsx:65-71 | The loader is ready at once exactly for an empty list. |
| ResourcePreloader.CriticalPathLoader.ImageLoaded | src/hooks/useResourcePreloader.tsx:77-85 | Applies an ok completion. |
| ResourcePreloader.CriticalPathLoader.ImageFailed | src/hooks/useResourcePreloader.tsx:78-88 | Applies an error completion, which makes the loader ready. |
| LazyImage.CacheKey | src/components/ui/LazyImage.tsx:25 | Definition of the `img_<src>` key. CacheKeyInjective states that no two images share it. |
| LazyImage.CacheKeyInjective | src/components/ui/LazyImage.tsx:25-35 | Different sources have different cache keys. |
| LazyImage.StoreOwnSrcKeepsFaithful | src/components/ui/LazyImage.tsx:35 | Storing an image's own URL under its key keeps every image key mapped to its own URL. |
| LazyImage.GetKeepsFaithful | src/components/ui/LazyImage.tsx:25 | Reading the cache keeps that property. |
| LazyImage.HitIsOwnSrc | src/components/ui/LazyImage.tsx:25-27 | A cache hit for an image is that image's own URL. It is truthy exactly when the URL is not empty. |
| LazyImage.LoadedImageServedFromCache | src/components/ui/LazyImage.tsx:25-35 | After a load, the same URL is a truthy cache hit for 600000 ms and no longer. |
| LazyImage.AfterLoadImage | src/components/ui/LazyImage.tsx:23-42 | Definition of the view after `loadImage`. LazyImage.LazyImage.LoadImage states it for both cases, and HitIsOwnSrc states that a truthy hit is the image's own URL. |
| LazyImage.LazyImage.constructor | src/components/ui/LazyImage.tsx:16-20 | The first render shows the placeholder, not loaded, and nothing is observing or loading. |
| LazyImage.LazyImage.LoadImage | src/components/ui/LazyImage.tsx:23-43 | Reads the cache under `img_<src>` as `get` does. On a truthy hit it shows that value, which is `src`, as loaded. Otherwise it starts a load. |
| LazyImage.LazyImage.Mount | src/components/ui/LazyImage.tsx:45-64 | A priority image loads at once and never observes. Any other image observes and changes nothing else. |
| LazyImage.LazyImage.Intersect | src/components/ui/LazyImage.tsx:52-58 | The first intersecting entry runs `loadImage` once and disconnects. Any other entry changes nothing. |
| LazyImage.LazyImage.ImageLoaded | src/components/ui/LazyImage.tsx:34-38 | Stores `src` under `img_<src>` with ttl 600000, then shows `src` as loaded. |
| LazyImage.LazyImage.ImageFailed | src/components/ui/LazyImage.tsx:39-41 | Restores the placeholder and leaves the cache alone. |
| LazyImage.LazyImage.ElementLoaded | src/components/ui/LazyImage.tsx:75 | The element's own load event sets `isLoaded`, for the placeholder too. |
| LazyImage.LazyImage.Unmount | src/components/ui/LazyImage.tsx:66 | Unmounting disconnects the observer, fired or not. |
| InfiniteScroll.Threshold | src/hooks/useInfiniteScroll.tsx:18 | Definition of the destructuring default. The constructor states the resulting threshold: 1.0 when absent, the given value otherwise. |
| InfiniteScroll.RootMargin | src/hooks/useInfiniteScroll.tsx:18 | Definition of the destructuring default. The constructor states the resulting margin: `'100px'` when absent, the given value otherwise. |
| InfiniteScroll.Fires | src/hooks/useInfiniteScroll.tsx:23 | Definition of the callback's guard. HandleIntersection and the three lemmas below state its consequences. |
| InfiniteScroll.Step | src/hooks/useInfiniteScroll.tsx:23-24 | Definition of the latch after one event. CallbacksBoundedByResets and NoCallbackWhileFetching state its meaning over runs. |
| InfiniteScroll.CallbacksBoundedByResets | src/hooks/useInfiniteScroll.tsx:23-53 | Over any run of events, the callback runs at most once more than the number of resets. |
| InfiniteScroll.NoCallbackWhileFetching | src/hooks/useInfiniteScroll.tsx:23 | While fetching and without a reset, no intersection runs the callback, and the latch stays set. |
| InfiniteScroll.NoCallbackWithoutMore | src/hooks/useInfiniteScroll.tsx:23 | With `hasMore` false throughout, the callback never runs. |
| InfiniteScroll.InfiniteScroll.constructor | src/hooks/useInfiniteScroll.tsx:14-18 | The hook starts not fetching and not observing. The threshold is 1.0 and the root margin `'100px'` unless the options give them. |
| InfiniteScroll.InfiniteScroll.SetElement | src/hooks/useInfiniteScroll.tsx:47-49 | Setting the sentinel ref changes nothing else. |
| InfiniteScroll.InfiniteScroll.Connect | src/hooks/useInfiniteScroll.tsx:31-38 | The effect connects an observer only when the element is present. |
| InfiniteScroll.InfiniteScroll.Cleanup | src/hooks/useInfiniteScroll.tsx:40-44 | Cleanup disconnects the current observer. |
| InfiniteScroll.InfiniteScroll.HandleIntersection | src/hooks/useInfiniteScroll.tsx:20-29 | An entry from the connected observer runs the callback exactly when it intersects, `hasMore` holds and nothing is in flight. Running it sets `isFetching`. |
| InfiniteScroll.InfiniteScroll.ResetFetching | src/hooks/useInfiniteScroll.tsx:51-53 | `resetFetching` clears `isFetching` and changes nothing else. |
| HeroCarousel.Next | src/components/HeroCarousel.tsx:52-59 | The step forward stays in `[0, 5)` and wraps from 4 to 0. |
| HeroCarousel.Prev | src/components/HeroCarousel.tsx:63 | The step back stays in `[0, 5)` and wraps from 0 to 4. |
| HeroCarousel.PrevUndoesNext | src/components/HeroCarousel.tsx:59-63 | `prev(next(i)) == i` and `next(prev(i)) == i`. |
| HeroCarousel.Advance | src/components/HeroCarousel.tsx:51-53 | Any number of ticks keeps the index a valid slide. |
| HeroCarousel.AdvanceIsModular | src/components/HeroCarousel.tsx:52-59 | k steps forward reach `(i + k) % 5`. |
| HeroCarousel.FullCycle | src/components/HeroCarousel.tsx:52-63 | Five steps forward return to the start, and four steps forward are one step back. |
| HeroCarousel.Active | src/components/HeroCarousel.tsx:75-77 | Definition of the active-style test `index === currentSlide`. ExactlyOneActive states that exactly one slide passes it. |
| HeroCarousel.ExactlyOneActive | src/components/HeroCarousel.tsx:75-117 | Exactly one slide, the current one, gets the active style. |
| HeroCarousel.Carousel.constructor | src/components/HeroCarousel.tsx:42-43 | The carousel starts at slide 0, not loaded. |
| HeroCarousel.Carousel.Mount | src/components/HeroCarousel.tsx:51-53 | Mounting starts the interval. |
| HeroCarousel.Carousel.FirstImageLoaded | src/components/HeroCarousel.tsx:48 | The preloaded first image sets `isLoaded`. |
| HeroCarousel.Carousel.Tick | src/components/HeroCarousel.tsx:51-53 | A tick of the running interval steps forward. |
| HeroCarousel.Carousel.NextSlide | src/components/HeroCarousel.tsx:58-60 | Steps forward, within range. The rendered markup never calls `nextSlide`. |
| HeroCarousel.Carousel.PrevSlide | src/components/HeroCarousel.tsx:62-64 | Steps back, within range. The rendered markup never calls `prevSlide`. |
| HeroCarousel.Carousel.Select | src/components/HeroCarousel.tsx:121 | Clicking indicator j shows slide j. |
| HeroCarousel.Carousel.Unmount | src/components/HeroCarousel.tsx:55 | Unmounting clears the interval. |
| DocumentUpload.StripExtension | src/components/DocumentUpload.tsx:32 | The derived title is a prefix of the file name. |
| DocumentUpload.ExtensionMatchUnique | src/components/DocumentUpload.tsx:32 | The pattern `\.[^/.]+$` can match at one position at most. |
| DocumentUpload.StripExtensionIsReplace | src/components/DocumentUpload.tsx:32 | The title removes exactly the pattern's match, or nothing when it does not match. |
| DocumentUpload.Trim | src/components/DocumentUpload.tsx:38 | Definition of `trim` over the JavaScript white space. TrimEmptyIffBlank states when the result is empty. |
| DocumentUpload.TrimEmptyIffBlank | src/components/DocumentUpload.tsx:38 | `title.trim()` is empty exactly when the title is all JavaScript white space. |
| DocumentUpload.LowerChar | src/components/DocumentUpload.tsx:51 | Lowercasing maps a dot to a dot and no other character to a dot. |
| DocumentUpload.Lower | src/components/DocumentUpload.tsx:51 | Definition of `toLowerCase` as LowerChar on each character. LowerExtension states that it keeps the last dot in place and lowercases the extension after it. |
| DocumentUpload.LowerExtension | src/components/DocumentUpload.tsx:51-54 | Lowercasing keeps the last dot where it is, and the lowercased name's text after it is the lowercased `fileExt`. |
| DocumentUpload.EndsWithAnyIffLast | src/components/DocumentUpload.tsx:51 | Ending in one of several dot-free extensions means having one of them after the last dot. |
| DocumentUpload.HasVideoName | src/components/DocumentUpload.tsx:51 | Definition of the name half of `isVideo`, the regular expression written out. VideoNameIffExtension states what it decides. |
| DocumentUpload.IsVideo | src/components/DocumentUpload.tsx:50-51 | Definition of `isVideo`: the MIME type starts with `video/`, or the name test holds. RowDefaults and UploadSuccess state where a video goes. |
| DocumentUpload.VideoNameIffExtension | src/components/DocumentUpload.tsx:51-54 | The name test holds exactly when the stored extension, lowercased, is mp4, avi, mov, wmv, flv, webm or mkv. |
| DocumentUpload.FileExt | src/components/DocumentUpload.tsx:54 | Definition of `split('.').pop()`. FileExtFacts and VideoNameIffExtension state its meaning. |
| DocumentUpload.StoragePath | src/components/DocumentUpload.tsx:54-56 | Definition of the object name: the time-and-random stem, a dot, and `fileExt`. UploadSuccess states that the file is stored under it. |
| DocumentUpload.FileExtFacts | src/components/DocumentUpload.tsx:54 | The stored extension holds no dot, and is the whole name when the name has no dot. |
| DocumentUpload.Bucket | src/components/DocumentUpload.tsx:58 | Definition of `bucketName`. UploadSuccess and UploadFailure state that the file is stored in it and, on success, the row inserted into the table of the same name. |
| DocumentUpload.OrNull | src/components/DocumentUpload.tsx:83-107 | Definition of `description \|\| null`. RowDefaults states that the row's description is null exactly for an empty description. |
| DocumentUpload.OrGeneral | src/components/DocumentUpload.tsx:85-111 | Definition of `category \|\| 'general'`. RowDefaults states that the row's category is `'general'` exactly for an empty category. |
| DocumentUpload.RowFor | src/components/DocumentUpload.tsx:77-113 | Definition of the inserted record. RowDefaults states its kind and each field. |
| DocumentUpload.RowDefaults | src/components/DocumentUpload.tsx:77-113 | A video gets a video row. The description defaults to null and the category to `'general'`. URL, type, size and view count are as inserted. |
| DocumentUpload.TooLarge | src/components/DocumentUpload.tsx:22 | Definition of the size test, more than 50 MiB. FileChangeSizeLimit states that such a file is refused and one of exactly 50 MiB is taken. |
| DocumentUpload.FileChangeSizeLimit | src/components/DocumentUpload.tsx:19-30 | A file above 50 MiB is refused with only a toast. A file of 50 MiB exactly is taken. |
| DocumentUpload.FileChangeTitle | src/components/DocumentUpload.tsx:30-33 | The title is derived from the file name only when it was empty. The other fields are unchanged. |
| DocumentUpload.UploadGuard | src/components/DocumentUpload.tsx:38-45 | Without a file, or with a blank title, upload only shows the error toast. |
| DocumentUpload.UploadedToast | src/components/DocumentUpload.tsx:97-121 | Definition of the success toast: "Video Uploaded!" for a video, "Document Uploaded!" otherwise, each naming the file. UploadSuccess states that a successful upload shows it. |
| DocumentUpload.UploadSuccess | src/components/DocumentUpload.tsx:47-143 | A successful upload stores the file in its bucket under stem, dot, extension. It inserts the row into that bucket's table, shows the right toast, and resets the form. |
| DocumentUpload.UploadFailure | src/components/DocumentUpload.tsx:61-144 | A failed storage call only shows the failure toast and clears `uploading`. A failed insert does the same, but the file it already uploaded stays in the bucket. The fields stay in both cases, and nothing is inserted. |
| DocumentUpload.AfterFileChange | src/components/DocumentUpload.tsx:19-35 | Definition of `handleFileChange` on a form value. FileChangeSizeLimit and FileChangeTitle state its meaning. |
| DocumentUpload.AfterUpload | src/components/DocumentUpload.tsx:37-145 | Definition of `handleUpload` on a form value. UploadGuard, UploadSuccess and UploadFailure state it for every outcome. |
| DocumentUpload.UploadForm.constructor | src/components/DocumentUpload.tsx:12-16 | The form starts empty. |
| DocumentUpload.UploadForm.SetTitle | src/components/DocumentUpload.tsx:212 | Editing the title changes only the title. |
| DocumentUpload.UploadForm.SetCategory | src/components/DocumentUpload.tsx:224 | Editing the category changes only the category. |
| DocumentUpload.UploadForm.SetDescription | src/components/DocumentUpload.tsx:244 | Editing the description changes only the description. |
| DocumentUpload.UploadForm.HandleFileChange | src/components/DocumentUpload.tsx:19-35 | The form becomes `AfterFileChange` of the old one. |
| DocumentUpload.UploadForm.RemoveFile | src/components/DocumentUpload.tsx:147-151 | Removing the file changes only the file. |
| DocumentUpload.UploadForm.HandleUpload | src/components/DocumentUpload.tsx:37-145 | The form becomes `AfterUpload` of the old one: guard, classification, path, bucket, insert, toasts and reset. |

## Left out

- The clock: `Date.now()` is the parameter `now`. The upload's `Date.now()`/`Math.random()` file stem is the parameter `stem`, and `new Date().toISOString()` is `publishedAt`.
- The network, `new Image()` loading, the intersection observer's geometry (threshold, root margin), and the 100 ms and 5000 ms timers. They become events (`NetResult`, `Completion`, `Intersect`, `Tick`) that the caller supplies in any order.
- Supabase storage, `getPublicUrl` and the table inserts are oracles. Their outcomes are the `Environment`'s fields, and what they receive is logged in `stored` and `inserted`.
- Asynchrony: the un-awaited `cache.put` in `fetch` is modelled as finishing, successfully or not, before the next request, and races between completions and renders are not modelled. Handler steps are modelled as sequential.
- `skipWaiting`, `clients.claim`, the background-sync handler and `CACHE_NAME`, which is declared but never used. None of them changes the caches.
- `new URL(url).pathname` and URL resolution are not modelled. A request carries its absolute URL and its pathname as fields. The manifest's absolute URLs are the worker's origin followed by each path, which is how `/`-rooted paths resolve.
- `caches.match` keys on request URL only. Vary headers and request options are not modelled.
- `cacheImage`, `registerSW`, `cacheResource` and `getCachedResource` in `src/utils/caching.ts`, which are browser APIs. `cacheImage` also writes `img_` keys into the shared cache with image data, not URLs. `LazyImage.ImagesFaithful` assumes nothing but the lazy image writes those keys.
- `debounce`/`throttle` and `preloadResource` from `src/utils/performance`, which is not part of this model.
- ObjectCache.CacheManager.Has: `has` is modelled for stored values that are not `null`. A stored `null` reads as a miss in JavaScript, whereas here every value is a hit.
- VirtualizedGrid.ValidLayout: the window arithmetic requires `itemHeight + gap > 0`, `cols > 0` and `containerHeight >= 0`, and uses whole-pixel, non-negative `scrollTop`. JavaScript would give `NaN` or `Infinity` for the excluded layouts, and `scrollTop` can be fractional.
- HeroCarousel.Next: Dafny's `%` is Euclidean. It agrees with JavaScript's `%` here because both operands are non-negative.
- DocumentUpload.LowerChar: `toLowerCase` is modelled on ASCII letters only. Other characters are kept, so non-ASCII case mappings, such as the Kelvin sign to `k`, are not modelled.
- DocumentUpload.FileExt: a name without a dot yields the whole name as the extension, as `split('.').pop()` does.
- The upload button's `disabled` state (src/components/DocumentUpload.tsx:252) and the file input's `accept` list. `HandleUpload` models the handler itself, guard included.
- The lazy image's `imgRef` is assumed present on mount. Props changes and effect re-runs for a new `src` or new `resources` are not modelled: each component instance has fixed props.
- ResourcePreloader.InitialInv: the state is taken after the mount effect has run. Before it, React renders `isLoading` true even for an empty list.
- The critical-path and preload effects' console warnings, and the page and UI components that only render.
