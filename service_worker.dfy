/**
 * The caching proxy of `public/sw.js`: its `install`, `activate` and
 * `fetch` handlers over the browser's named caches.
 *
 * The CacheStorage is a `Caches` value: cache names in creation order plus,
 * per name, a map from request URL to stored response. The network is an
 * oracle: the caller supplies the outcome a fetch would have (`NetResult`).
 * Pure functions say what each handler does to a `Caches` value and what
 * the page receives; the class `CacheStorage` performs the same steps in
 * place and is proved to agree with them.
 */
module ServiceWorker {
  import opened Wrappers

  /** Declared by the worker, never used by it. */
  const CacheName: string := "rajasthan-ri-bata-v1"
  const StaticCache: string := "static-cache-v1"
  const DynamicCache: string := "dynamic-cache-v1"

  /** The shell manifest stored at install time, as origin-relative paths. */
  const StaticFiles: seq<string> := ["/", "/index.html", "/src/main.tsx", "/src/index.css"]

  /**
   * The absolute URLs `addAll` stores the manifest under: each path resolved
   * against the worker's origin (`https://host[:port]`, no trailing slash).
   */
  function ManifestUrls(origin: string): seq<string> {
    seq(|StaticFiles|, i requires 0 <= i < |StaticFiles| => origin + StaticFiles[i])
  }

  /** Resolving against one origin keeps the manifest entries apart. */
  lemma ManifestUrlsDistinct(origin: string)
    ensures |ManifestUrls(origin)| == |StaticFiles|
    ensures Distinct(ManifestUrls(origin))
  {
    var m := ManifestUrls(origin);
    forall i, j | 0 <= i < j < |m| ensures m[i] != m[j] {
      assert m[i][|origin|..] == StaticFiles[i] && m[j][|origin|..] == StaticFiles[j];
    }
  }

  /** The body of the offline image placeholder. */
  const FallbackSvg: string :=
    "<svg width=\"200\" height=\"200\" xmlns=\"http://www.w3.org/2000/svg\"><rect width=\"100%\" height=\"100%\" fill=\"#ddd\"/></svg>"

  /** `Response.type`. */
  datatype ResponseType = Basic | Cors | Opaque | OpaqueRedirect | Default | Error

  datatype Response = Response(status: int, rtype: ResponseType, contentType: string, body: string)

  /** A request: `verb` is `request.method`; `pathname` is what `new URL(url).pathname` yields. */
  datatype Request = Request(verb: string, url: string, pathname: string, destination: string)

  /** What the network would do with a request. */
  datatype NetResult =
    | Offline                       // fetch rejects
    | NoResponse                    // fetch resolves to a falsy value
    | Delivered(response: Response)

  /** What the page sees. */
  datatype Reply =
    | NotIntercepted                // the handler returns without calling respondWith
    | Respond(response: Response)
    | NetworkError                  // respondWith is given a promise of no Response

  datatype Caches = Caches(names: seq<string>, stores: map<string, map<string, Response>>)

  ghost predicate WellFormed(c: Caches) {
    Distinct(c.names) && forall n :: n in c.stores <==> n in c.names
  }

  // ---------------------------------------------------------------------------
  // Classification

  /** `shouldCacheStatically`: the pathname ends in one of the static extensions. */
  predicate ShouldCacheStatically(pathname: string) {
    EndsWith(pathname, ".js") || EndsWith(pathname, ".css") || EndsWith(pathname, ".png")
    || EndsWith(pathname, ".jpg") || EndsWith(pathname, ".jpeg") || EndsWith(pathname, ".webp")
  }

  /** The text after the last `.` of a pathname, if it has one. */
  function Extension(pathname: string): Option<string> {
    var d := LastIndexOf(pathname, '.');
    if d < 0 then None else Some(pathname[d + 1..])
  }

  /** An extension the static partition takes. */
  predicate IsStaticExtension(e: string) {
    e == "js" || e == "css" || e == "png" || e == "jpg" || e == "jpeg" || e == "webp"
  }

  /** Classification is by the extension alone: the text after the last dot. */
  lemma StaticIffExtension(pathname: string)
    ensures ShouldCacheStatically(pathname)
            <==> Extension(pathname).Some? && IsStaticExtension(Extension(pathname).value)
  {
    EndsWithDotSuffix(pathname, ".js");
    EndsWithDotSuffix(pathname, ".css");
    EndsWithDotSuffix(pathname, ".png");
    EndsWithDotSuffix(pathname, ".jpg");
    EndsWithDotSuffix(pathname, ".jpeg");
    EndsWithDotSuffix(pathname, ".webp");
  }

  /** The cache a cacheable response goes to. */
  function Partition(req: Request): string {
    if ShouldCacheStatically(req.pathname) then StaticCache else DynamicCache
  }

  /** The handler intercepts GET requests that are not from a browser extension. */
  predicate Intercepted(req: Request) {
    req.verb == "GET" && !StartsWith(req.url, "chrome-extension://")
  }

  /** Only complete same-origin responses are stored. */
  predicate Cacheable(r: Response) {
    r.status == 200 && r.rtype == Basic
  }

  /** The offline image placeholder: `new Response(svg, headers)`. */
  function Fallback(): Response {
    Response(200, Default, "image/svg+xml", FallbackSvg)
  }

  // ---------------------------------------------------------------------------
  // The cache storage as a value

  /** `caches.match`: the first cache, in creation order, holding the URL. */
  function MatchIn(names: seq<string>, stores: map<string, map<string, Response>>, url: string): (r: Option<Response>)
    ensures r.Some? <==> exists i :: 0 <= i < |names| && names[i] in stores && url in stores[names[i]]
    ensures r.Some? ==> exists i :: 0 <= i < |names| && names[i] in stores && url in stores[names[i]]
                                    && r.value == stores[names[i]][url]
                                    && forall j :: 0 <= j < i ==> !(names[j] in stores && url in stores[names[j]])
  {
    if names == [] then None
    else if names[0] in stores && url in stores[names[0]] then Some(stores[names[0]][url])
    else
      var r := MatchIn(names[1..], stores, url);
      assert forall i :: 1 <= i < |names| ==> names[i] == names[1..][i - 1];
      r
  }

  function Match(c: Caches, url: string): Option<Response> {
    MatchIn(c.names, c.stores, url)
  }

  /** `caches.open`: creates an empty cache under a new name, placed last. */
  function OpenCache(c: Caches, name: string): Caches {
    if name in c.stores then c else Caches(c.names + [name], c.stores[name := map[]])
  }

  /** `cache.put` into the named cache, opening it first. */
  function PutInto(c: Caches, name: string, url: string, r: Response): Caches {
    var o := OpenCache(c, name);
    Caches(o.names, o.stores[name := o.stores[name][url := r]])
  }

  /** `cache.addAll` accepts the batch only when every fetch gave an ok, complete response. */
  predicate AddAllSucceeds(responses: seq<NetResult>) {
    forall i :: 0 <= i < |responses| ==>
      responses[i].Delivered? && 200 <= responses[i].response.status <= 299
      && responses[i].response.status != 206 && responses[i].response.rtype != Error
  }

  /** The store after adding `urls[i] -> responses[i]` for each i, later entries winning. */
  function AddEntries(store: map<string, Response>, urls: seq<string>, responses: seq<NetResult>): map<string, Response>
    requires |urls| == |responses| && forall i :: 0 <= i < |responses| ==> responses[i].Delivered?
    decreases |urls|
  {
    if urls == [] then store
    else AddEntries(store[urls[0] := responses[0].response], urls[1..], responses[1..])
  }

  /** The storage after the install handler of a worker served from `origin`. */
  function AfterInstall(c: Caches, origin: string, responses: seq<NetResult>): Caches
    requires |responses| == |StaticFiles|
  {
    var o := OpenCache(c, StaticCache);
    if AddAllSucceeds(responses)
    then Caches(o.names, o.stores[StaticCache := AddEntries(o.stores[StaticCache], ManifestUrls(origin), responses)])
    else o
  }

  predicate IsCurrent(name: string) {
    name == StaticCache || name == DynamicCache
  }

  /** The names of `names` that survive activation, in their order. */
  function CurrentNames(names: seq<string>): seq<string> {
    if names == [] then []
    else (if IsCurrent(names[0]) then [names[0]] else []) + CurrentNames(names[1..])
  }

  /** The storage after the activate handler. */
  function AfterActivate(c: Caches): Caches {
    Caches(CurrentNames(c.names), map n | n in c.stores && IsCurrent(n) :: c.stores[n])
  }

  /** Whether the fetch handler goes to the network. */
  predicate UsesNetwork(c: Caches, req: Request) {
    Intercepted(req) && Match(c, req.url).None?
  }

  /** What the page receives from the fetch handler. */
  function FetchReply(c: Caches, req: Request, net: NetResult): Reply {
    if !Intercepted(req) then NotIntercepted
    else if Match(c, req.url).Some? then Respond(Match(c, req.url).value)
    else match net
      case Delivered(r) => Respond(r)
      case NoResponse => NetworkError
      case Offline => if req.destination == "image" then Respond(Fallback()) else NetworkError
  }

  /**
   * The storage after the fetch handler. The copy is put without being
   * awaited: `putOk` says whether `cache.put` succeeded; when it rejects
   * (a quota error, say) the cache `caches.open` created stays empty.
   */
  function AfterFetch(c: Caches, req: Request, net: NetResult, putOk: bool): Caches {
    if UsesNetwork(c, req) && net.Delivered? && Cacheable(net.response)
    then (if putOk then PutInto(c, Partition(req), req.url, net.response) else OpenCache(c, Partition(req)))
    else c
  }

  // ---------------------------------------------------------------------------
  // Install

  lemma {:induction false} AddEntriesContents(store: map<string, Response>, urls: seq<string>,
                                              responses: seq<NetResult>, u: string)
    requires |urls| == |responses| && forall i :: 0 <= i < |responses| ==> responses[i].Delivered?
    requires Distinct(urls)
    decreases |urls|
    ensures u !in urls ==> (u in AddEntries(store, urls, responses) <==> u in store)
    ensures u !in urls && u in store ==> AddEntries(store, urls, responses)[u] == store[u]
    ensures forall i :: 0 <= i < |urls| ==>
              urls[i] in AddEntries(store, urls, responses)
              && AddEntries(store, urls, responses)[urls[i]] == responses[i].response
  {
    if urls != [] {
      assert Distinct(urls[1..]) by {
        forall a, b | 0 <= a < b < |urls[1..]| ensures urls[1..][a] != urls[1..][b] {
          assert urls[1..][a] == urls[a + 1] && urls[1..][b] == urls[b + 1];
        }
      }
      AddEntriesContents(store[urls[0] := responses[0].response], urls[1..], responses[1..], u);
      forall i | 0 <= i < |urls|
        ensures urls[i] in AddEntries(store, urls, responses)
                && AddEntries(store, urls, responses)[urls[i]] == responses[i].response
      {
        if i == 0 {
          assert urls[0] !in urls[1..] by {
            forall j | 0 <= j < |urls[1..]| ensures urls[1..][j] != urls[0] { assert urls[1..][j] == urls[j + 1]; }
          }
          AddEntriesContents(store[urls[0] := responses[0].response], urls[1..], responses[1..], urls[0]);
        } else {
          assert urls[i] == urls[1..][i - 1] && responses[i] == responses[1..][i - 1];
        }
      }
      if u !in urls {
        assert u != urls[0];
        assert u !in urls[1..];
      }
    }
  }

  /**
   * Install always creates the static cache. When every manifest fetch is ok
   * it maps exactly the manifest URLs to their responses and leaves every
   * other entry alone; otherwise `addAll` rejects and nothing is stored.
   */
  lemma InstallStoresManifest(c: Caches, origin: string, responses: seq<NetResult>)
    requires WellFormed(c) && |responses| == |StaticFiles|
    ensures var r := AfterInstall(c, origin, responses); var urls := ManifestUrls(origin);
            && WellFormed(r)
            && StaticCache in r.stores
            && (forall n :: n in c.stores && n != StaticCache ==> n in r.stores && r.stores[n] == c.stores[n])
            && (AddAllSucceeds(responses) ==>
                  (forall i :: 0 <= i < |StaticFiles| ==>
                     urls[i] in r.stores[StaticCache]
                     && r.stores[StaticCache][urls[i]] == responses[i].response)
                  && (forall u :: u !in urls && StaticCache in c.stores && u in c.stores[StaticCache] ==>
                        u in r.stores[StaticCache] && r.stores[StaticCache][u] == c.stores[StaticCache][u]))
            && (!AddAllSucceeds(responses) ==>
                  r.stores[StaticCache] == (if StaticCache in c.stores then c.stores[StaticCache] else map[]))
  {
    var o := OpenCache(c, StaticCache);
    if StaticCache !in c.stores {
      DistinctSnocNames(c.names, StaticCache);
    }
    if AddAllSucceeds(responses) {
      var urls := ManifestUrls(origin);
      ManifestUrlsDistinct(origin);
      forall u | u !in urls
        ensures u in o.stores[StaticCache] ==>
                  u in AddEntries(o.stores[StaticCache], urls, responses)
                  && AddEntries(o.stores[StaticCache], urls, responses)[u] == o.stores[StaticCache][u]
      {
        AddEntriesContents(o.stores[StaticCache], urls, responses, u);
      }
      AddEntriesContents(o.stores[StaticCache], urls, responses, origin);
    }
  }

  lemma DistinctSnocNames(ks: seq<string>, k: string)
    requires Distinct(ks) && k !in ks
    ensures Distinct(ks + [k])
  {
    var r := ks + [k];
    forall i, j | 0 <= i < j < |r| ensures r[i] != r[j] {
      if j == |ks| {
        assert r[i] == ks[i];
      } else {
        assert r[i] == ks[i] && r[j] == ks[j];
      }
    }
  }

  // ---------------------------------------------------------------------------
  // Activate

  lemma {:induction false} CurrentNamesMembers(names: seq<string>)
    ensures forall n :: n in CurrentNames(names) <==> n in names && IsCurrent(n)
  {
    if names != [] {
      CurrentNamesMembers(names[1..]);
      assert names == [names[0]] + names[1..];
    }
  }

  lemma {:induction false} CurrentNamesDistinct(names: seq<string>)
    requires Distinct(names)
    ensures Distinct(CurrentNames(names))
  {
    if names != [] {
      DistinctWithout(names, 0);
      assert names[..0] + names[1..] == names[1..];
      CurrentNamesDistinct(names[1..]);
      CurrentNamesMembers(names[1..]);
      var head := if IsCurrent(names[0]) then [names[0]] else [];
      var tail := CurrentNames(names[1..]);
      var r := head + tail;
      assert CurrentNames(names) == r;
      forall a, b | 0 <= a < b < |r| ensures r[a] != r[b] {
        if head != [] && a == 0 {
          assert r[b] == tail[b - 1] && r[b] in tail;
        } else {
          assert r[a] == tail[a - |head|] && r[b] == tail[b - |head|];
        }
      }
    }
  }

  /**
   * After activation every remaining cache is one of the two current ones,
   * every other cache is gone, and the current ones keep their contents.
   */
  lemma ActivateKeepsOnlyCurrent(c: Caches)
    requires WellFormed(c)
    ensures var r := AfterActivate(c);
            && WellFormed(r)
            && (forall n :: n in r.names ==> n == StaticCache || n == DynamicCache)
            && (forall n :: n in c.stores && !IsCurrent(n) ==> n !in r.stores)
            && (forall n :: n in c.stores && IsCurrent(n) ==> n in r.stores && r.stores[n] == c.stores[n])
  {
    CurrentNamesMembers(c.names);
    CurrentNamesDistinct(c.names);
  }

  lemma {:induction false} CurrentNamesNone(names: seq<string>)
    requires forall i :: 0 <= i < |names| ==> !IsCurrent(names[i])
    ensures CurrentNames(names) == []
  {
    if names != [] {
      CurrentNamesNone(names[1..]);
    }
  }

  lemma {:induction false} CurrentNamesSnoc(names: seq<string>, n: string)
    ensures CurrentNames(names + [n]) == CurrentNames(names) + (if IsCurrent(n) then [n] else [])
  {
    if names == [] {
      assert [n][1..] == [];
    } else {
      assert (names + [n])[1..] == names[1..] + [n];
      CurrentNamesSnoc(names[1..], n);
    }
  }

  /** The names the activate handler deletes: the ones that are not current, in order. */
  function StaleNames(names: seq<string>): seq<string> {
    if names == [] then []
    else (if IsCurrent(names[0]) then [] else [names[0]]) + StaleNames(names[1..])
  }

  lemma {:induction false} StaleNamesFacts(names: seq<string>)
    ensures forall n :: n in StaleNames(names) <==> n in names && !IsCurrent(n)
  {
    if names != [] {
      StaleNamesFacts(names[1..]);
      assert names == [names[0]] + names[1..];
    }
  }

  /** The elements of a sequence, as a set. */
  function Elems(s: seq<string>): set<string> {
    set x | x in s
  }

  /** `s` without the names in `gone`, the rest in their order. */
  function Without(s: seq<string>, gone: set<string>): seq<string> {
    if s == [] then []
    else (if s[0] in gone then [] else [s[0]]) + Without(s[1..], gone)
  }

  /** Deleting one more cache name from what is left. */
  lemma {:induction false} WithoutRemove(s: seq<string>, gone: set<string>, x: string)
    ensures Remove(Without(s, gone), x) == Without(s, gone + {x})
  {
    if s != [] {
      WithoutRemove(s[1..], gone, x);
      var head := if s[0] in gone then [] else [s[0]];
      RemoveConcat(head, Without(s[1..], gone), x);
      if head != [] {
        assert head[1..] == [];
      }
    }
  }

  lemma {:induction false} WithoutNothing(s: seq<string>)
    ensures Without(s, {}) == s
  {
    if s != [] {
      WithoutNothing(s[1..]);
      assert s == [s[0]] + s[1..];
    }
  }

  /** One iteration of the deletion loop. */
  lemma DeleteAllStep(c: Caches, gone: seq<string>, i: nat)
    requires i < |gone|
    ensures Remove(Without(c.names, Elems(gone[..i])), gone[i]) == Without(c.names, Elems(gone[..i + 1]))
    ensures (c.stores - Elems(gone[..i])) - {gone[i]} == c.stores - Elems(gone[..i + 1])
  {
    assert gone[..i + 1] == gone[..i] + [gone[i]];
    assert Elems(gone[..i + 1]) == Elems(gone[..i]) + {gone[i]};
    WithoutRemove(c.names, Elems(gone[..i]), gone[i]);
  }

  /** Taking the stale names out leaves the current ones. */
  lemma {:induction false} WithoutStale(s: seq<string>, gone: set<string>)
    requires forall n :: n in s ==> (n in gone <==> !IsCurrent(n))
    ensures Without(s, gone) == CurrentNames(s)
  {
    if s != [] {
      assert s[0] in s;
      assert forall n :: n in s[1..] ==> n in s;
      WithoutStale(s[1..], gone);
    }
  }

  // ---------------------------------------------------------------------------
  // Fetch

  /** Non-GET requests and extension URLs are not intercepted and change nothing. */
  lemma NotInterceptedPassesThrough(c: Caches, req: Request, net: NetResult)
    requires req.verb != "GET" || StartsWith(req.url, "chrome-extension://")
    ensures FetchReply(c, req, net) == NotIntercepted
    ensures AfterFetch(c, req, net, true) == c && AfterFetch(c, req, net, false) == c && !UsesNetwork(c, req)
  {
  }

  /** A request some cache holds is answered from that cache, whatever the network would do. */
  lemma CacheHitServedWithoutNetwork(c: Caches, req: Request, net: NetResult)
    requires Intercepted(req) && Match(c, req.url).Some?
    ensures !UsesNetwork(c, req)
    ensures FetchReply(c, req, net) == Respond(Match(c, req.url).value)
    ensures AfterFetch(c, req, net, true) == c && AfterFetch(c, req, net, false) == c
  {
  }

  /** A response that is not a complete same-origin 200 is handed back as it is and not stored. */
  lemma UncacheableNotStored(c: Caches, req: Request, r: Response)
    requires UsesNetwork(c, req) && !Cacheable(r)
    ensures FetchReply(c, req, Delivered(r)) == Respond(r)
    ensures AfterFetch(c, req, Delivered(r), true) == c && AfterFetch(c, req, Delivered(r), false) == c
    ensures FetchReply(c, req, NoResponse) == NetworkError
    ensures AfterFetch(c, req, NoResponse, true) == c && AfterFetch(c, req, NoResponse, false) == c
  {
  }

  /**
   * A cacheable network response is returned to the page and a copy is put
   * into the partition `shouldCacheStatically` chooses, when the put succeeds;
   * nothing else changes.
   */
  lemma CacheableStoredInPartition(c: Caches, req: Request, r: Response)
    requires WellFormed(c) && UsesNetwork(c, req) && Cacheable(r)
    ensures FetchReply(c, req, Delivered(r)) == Respond(r)
    ensures var after := AfterFetch(c, req, Delivered(r), true); var p := Partition(req);
            && WellFormed(after)
            && p in after.stores && req.url in after.stores[p] && after.stores[p][req.url] == r
            && (p == StaticCache <==> ShouldCacheStatically(req.pathname))
            && (forall n :: n in c.stores && n != p ==> n in after.stores && after.stores[n] == c.stores[n])
            && (forall u :: u != req.url && p in c.stores && u in c.stores[p] ==>
                  u in after.stores[p] && after.stores[p][u] == c.stores[p][u])
  {
    if Partition(req) !in c.stores {
      DistinctSnocNames(c.names, Partition(req));
    }
  }

  /** Offline, an image request gets the SVG placeholder and any other request fails. */
  lemma OfflineFallback(c: Caches, req: Request)
    requires UsesNetwork(c, req)
    ensures req.destination == "image" ==>
              FetchReply(c, req, Offline) == Respond(Fallback())
              && Fallback().contentType == "image/svg+xml"
    ensures req.destination != "image" ==> FetchReply(c, req, Offline) == NetworkError
    ensures AfterFetch(c, req, Offline, true) == c && AfterFetch(c, req, Offline, false) == c
  {
  }

  /** Cache-first: once a GET was answered by a cacheable response, the next GET of it is served from cache. */
  lemma SecondGetServedFromCache(c: Caches, req: Request, r: Response, net: NetResult, putOk: bool)
    requires WellFormed(c) && UsesNetwork(c, req) && Cacheable(r)
    ensures var after := AfterFetch(c, req, Delivered(r), true);
            && !UsesNetwork(after, req)
            && FetchReply(after, req, net) == Respond(r)
            && AfterFetch(after, req, net, putOk) == after
  {
    var after := AfterFetch(c, req, Delivered(r), true);
    var p := Partition(req);
    CacheableStoredInPartition(c, req, r);
    // Before the put no cache held the URL, so the partition is the only one that does.
    assert forall i :: 0 <= i < |after.names| && after.names[i] in after.stores && req.url in after.stores[after.names[i]]
             ==> after.names[i] == p;
    var j :| 0 <= j < |after.names| && after.names[j] == p;
    assert Match(after, req.url).Some?;
  }

  /** Opening a new, empty cache changes no lookup. */
  lemma {:induction false} MatchInOpened(names: seq<string>, stores: map<string, map<string, Response>>,
                                         n: string, url: string)
    requires n !in stores
    ensures MatchIn(names + [n], stores[n := map[]], url) == MatchIn(names, stores, url)
    decreases |names|
  {
    if names == [] {
      assert MatchIn([n][1..], stores[n := map[]], url) == None by { assert [n][1..] == []; }
    } else {
      assert (names + [n])[1..] == names[1..] + [n];
      MatchInOpened(names[1..], stores, n, url);
    }
  }

  /**
   * When the un-awaited put fails, the page still gets the response, no
   * lookup changes, and the next request for the URL goes to the network again.
   */
  lemma PutFailureStillResponds(c: Caches, req: Request, r: Response)
    requires WellFormed(c) && UsesNetwork(c, req) && Cacheable(r)
    ensures FetchReply(c, req, Delivered(r)) == Respond(r)
    ensures var after := AfterFetch(c, req, Delivered(r), false);
            && WellFormed(after)
            && (forall u :: Match(after, u) == Match(c, u))
            && UsesNetwork(after, req)
  {
    var p := Partition(req);
    if p !in c.stores {
      DistinctSnocNames(c.names, p);
      forall u ensures Match(OpenCache(c, p), u) == Match(c, u) {
        MatchInOpened(c.names, c.stores, p, u);
      }
    }
  }

  /** Install over storage without the static cache, when every manifest fetch is ok. */
  lemma InstallFresh(c: Caches, origin: string, responses: seq<NetResult>)
    requires StaticCache !in c.stores && |responses| == |StaticFiles| && AddAllSucceeds(responses)
    ensures AfterInstall(c, origin, responses) ==
            Caches(c.names + [StaticCache], c.stores[StaticCache := AddEntries(map[], ManifestUrls(origin), responses)])
  {
  }

  /** Activating storage in which only the static cache is current keeps that cache alone. */
  lemma ActivateOnlyStatic(c: Caches, m: map<string, Response>)
    requires WellFormed(c) && StaticCache !in c.stores && DynamicCache !in c.stores
    ensures AfterActivate(Caches(c.names + [StaticCache], c.stores[StaticCache := m])) ==
            Caches([StaticCache], map[StaticCache := m])
  {
    assert forall i :: 0 <= i < |c.names| ==> c.names[i] in c.stores;
    CurrentNamesNone(c.names);
    CurrentNamesSnoc(c.names, StaticCache);
    var s := AfterActivate(Caches(c.names + [StaticCache], c.stores[StaticCache := m]));
    assert s.stores.Keys == {StaticCache};
  }

  /** Install over storage without the current caches, then activate: only the manifest remains. */
  lemma InstallThenActivate(c: Caches, origin: string, responses: seq<NetResult>)
    requires WellFormed(c) && StaticCache !in c.stores && DynamicCache !in c.stores
    requires |responses| == |StaticFiles| && AddAllSucceeds(responses)
    ensures var s := AfterActivate(AfterInstall(c, origin, responses));
            && s.names == [StaticCache]
            && s.stores == map[StaticCache := AddEntries(map[], ManifestUrls(origin), responses)]
  {
    InstallFresh(c, origin, responses);
    ActivateOnlyStatic(c, AddEntries(map[], ManifestUrls(origin), responses));
  }

  /**
   * The end-to-end scenario: from storage that holds only caches of other
   * names, a successful install followed by activate leaves exactly the static
   * cache holding the manifest's absolute URLs, and an offline image request
   * for another URL gets the SVG placeholder.
   */
  lemma InstallActivateOffline(c: Caches, origin: string, responses: seq<NetResult>, req: Request)
    requires WellFormed(c) && StaticCache !in c.stores && DynamicCache !in c.stores
    requires |responses| == |StaticFiles| && AddAllSucceeds(responses)
    requires Intercepted(req) && req.destination == "image" && req.url !in ManifestUrls(origin)
    ensures var s := AfterActivate(AfterInstall(c, origin, responses));
            && s.names == [StaticCache]
            && s.stores.Keys == {StaticCache}
            && (forall u :: u in s.stores[StaticCache] <==> u in ManifestUrls(origin))
            && FetchReply(s, req, Offline) == Respond(Fallback())
  {
    InstallThenActivate(c, origin, responses);
    var urls := ManifestUrls(origin);
    ManifestUrlsDistinct(origin);
    var m := AddEntries(map[], urls, responses);
    forall u ensures u in m <==> u in urls {
      AddEntriesContents(map[], urls, responses, u);
    }
    var s := Caches([StaticCache], map[StaticCache := m]);
    assert Match(s, req.url) == MatchIn([StaticCache][1..], s.stores, req.url);
    assert [StaticCache][1..] == [];
  }

  /**
   * The app shell offline: after that scenario every manifest URL is answered
   * from the static cache with the response install fetched for it, whatever
   * the network does.
   */
  lemma ShellServedOffline(c: Caches, origin: string, responses: seq<NetResult>, req: Request, i: nat, net: NetResult)
    requires WellFormed(c) && StaticCache !in c.stores && DynamicCache !in c.stores
    requires |responses| == |StaticFiles| && AddAllSucceeds(responses)
    requires i < |StaticFiles| && Intercepted(req) && req.url == ManifestUrls(origin)[i]
    ensures var s := AfterActivate(AfterInstall(c, origin, responses));
            && !UsesNetwork(s, req)
            && FetchReply(s, req, net) == Respond(responses[i].response)
  {
    InstallThenActivate(c, origin, responses);
    var urls := ManifestUrls(origin);
    ManifestUrlsDistinct(origin);
    var m := AddEntries(map[], urls, responses);
    AddEntriesContents(map[], urls, responses, req.url);
    var s := Caches([StaticCache], map[StaticCache := m]);
    assert Match(s, req.url) == Some(m[req.url]);
  }

  // ---------------------------------------------------------------------------
  // The worker's cache storage

  class CacheStorage {
    /** Cache names in creation order, as `caches.keys()` lists them. */
    var names: seq<string>
    /** The contents of each named cache. */
    var stores: map<string, map<string, Response>>

    function State(): Caches
      reads this
    {
      Caches(names, stores)
    }

    ghost predicate Valid()
      reads this
    {
      WellFormed(State())
    }

    constructor ()
      ensures Valid() && State() == Caches([], map[])
    {
      names := [];
      stores := map[];
    }

    /** `caches.open(name)`. */
    method Open(name: string)
      requires Valid()
      modifies this
      ensures Valid() && State() == OpenCache(old(State()), name)
    {
      if name !in stores {
        DistinctSnocNames(names, name);
        names := names + [name];
        stores := stores[name := map[]];
      }
    }

    /** The install handler of a worker served from `origin`; `responses[i]` is what fetching `StaticFiles[i]` gives. */
    method Install(origin: string, responses: seq<NetResult>) returns (installed: bool)
      requires Valid() && |responses| == |StaticFiles|
      modifies this
      ensures Valid() && State() == AfterInstall(old(State()), origin, responses)
      ensures installed == AddAllSucceeds(responses)
    {
      ghost var c0 := State();
      Open(StaticCache);
      installed := AddAllSucceeds(responses);
      if installed {
        stores := stores[StaticCache := AddEntries(stores[StaticCache], ManifestUrls(origin), responses)];
      }
      InstallStoresManifest(c0, origin, responses);
    }

    /** `caches.delete(name)`. */
    method Delete(name: string)
      requires Valid()
      modifies this
      ensures Valid() && State() == Caches(Remove(old(names), name), old(stores) - {name})
    {
      if name in stores {
        var j :| 0 <= j < |names| && names[j] == name;
        RemoveAt(names, j);
      } else {
        RemoveAbsent(names, name);
      }
      RemoveMembers(names, name);
      names := Remove(names, name);
      stores := stores - {name};
    }

    /** Deletes every cache named in `gone`, one after the other. */
    method DeleteAll(gone: seq<string>)
      requires Valid()
      modifies this
      ensures Valid() && State() == Caches(Without(old(names), Elems(gone)), old(stores) - Elems(gone))
    {
      ghost var c0 := State();
      assert Without(c0.names, {}) == c0.names by { WithoutNothing(c0.names); }
      assert Elems(gone[..0]) == {};
      for i := 0 to |gone|
        invariant Valid()
        invariant names == Without(c0.names, Elems(gone[..i]))
        invariant stores == c0.stores - Elems(gone[..i])
      {
        DeleteAllStep(c0, gone, i);
        Delete(gone[i]);
      }
      assert gone[..|gone|] == gone;
    }

    /** The activate handler: lists the stale cache names, then deletes each of them. */
    method Activate()
      requires Valid()
      modifies this
      ensures Valid() && State() == AfterActivate(old(State()))
    {
      ghost var c0 := State();
      var stale := StaleNames(names);
      DeleteAll(stale);
      StaleNamesFacts(c0.names);
      WithoutStale(c0.names, Elems(stale));
      ActivateKeepsOnlyCurrent(c0);
    }

    /**
     * The fetch handler; `net` is what the network would answer. Returns what
     * the page sees and whether the network was asked. `putOk` is whether the
     * un-awaited `cache.put` succeeds.
     */
    method HandleFetch(req: Request, net: NetResult, putOk: bool) returns (reply: Reply, usedNetwork: bool)
      requires Valid()
      modifies this
      ensures Valid() && State() == AfterFetch(old(State()), req, net, putOk)
      ensures reply == FetchReply(old(State()), req, net)
      ensures usedNetwork == UsesNetwork(old(State()), req)
    {
      usedNetwork := false;
      if req.verb != "GET" {
        return NotIntercepted, usedNetwork;
      }
      if StartsWith(req.url, "chrome-extension://") {
        return NotIntercepted, usedNetwork;
      }
      var cached := MatchIn(names, stores, req.url);
      if cached.Some? {
        return Respond(cached.value), usedNetwork;
      }
      usedNetwork := true;
      match net {
        case Offline =>
          if req.destination == "image" {
            reply := Respond(Fallback());
          } else {
            reply := NetworkError;
          }
        case NoResponse =>
          reply := NetworkError;
        case Delivered(r) =>
          if r.status != 200 || r.rtype != Basic {
            return Respond(r), usedNetwork;
          }
          var copy := r;
          var name := if ShouldCacheStatically(req.pathname) then StaticCache else DynamicCache;
          Open(name);
          if putOk {
            stores := stores[name := stores[name][req.url := copy]];
          }
          reply := Respond(r);
      }
    }
  }
}
