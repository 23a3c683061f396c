/**
 * `CookieManager.kt`: the cookie jar. An in-memory cache keyed by host answers every request;
 * each save also asks the persistent store to keep the cookies' string forms. The URL parser
 * (`toHttpUrlOrNull`), the cookie parser (`Cookie.parse`) and `Cookie.toString` are parameters.
 */
module CookieManager {
  import opened Wrappers
  import opened Http

  /** `mapNotNull`: the defined results, in order. */
  function MapNotNull<A, B>(xs: seq<A>, f: A -> Option<B>): (ys: seq<B>)
    ensures |ys| <= |xs|
    ensures forall y :: y in ys ==> exists x :: x in xs && f(x) == Some(y)
    ensures (exists x :: x in xs && f(x).Some?) ==> ys != []
    decreases |xs|
  {
    if xs == [] then []
    else
      var rest := MapNotNull(xs[1..], f);
      assert forall x :: x in xs[1..] ==> x in xs;
      match f(xs[0])
      case Some(y) => [y] + rest
      case None => rest
  }

  /** `mapNotNull` distributes over concatenation, so kept elements stay in their stored order. */
  lemma {:induction false} MapNotNullAppend<A, B>(xs: seq<A>, zs: seq<A>, f: A -> Option<B>)
    ensures MapNotNull(xs + zs, f) == MapNotNull(xs, f) + MapNotNull(zs, f)
    decreases |xs|
  {
    if xs == [] {
      assert xs + zs == zs;
    } else {
      assert (xs + zs)[1..] == xs[1..] + zs;
      MapNotNullAppend(xs[1..], zs, f);
    }
  }

  /** When every element parses, nothing is dropped and positions are kept. */
  lemma {:induction false} MapNotNullAllDefined<A, B>(xs: seq<A>, f: A -> Option<B>)
    requires forall x :: x in xs ==> f(x).Some?
    ensures |MapNotNull(xs, f)| == |xs|
    ensures forall i :: 0 <= i < |xs| ==> MapNotNull(xs, f)[i] == f(xs[i]).value
    decreases |xs|
  {
    if xs != [] {
      assert forall x :: x in xs[1..] ==> x in xs;
      MapNotNullAllDefined(xs[1..], f);
    }
  }

  /** When nothing parses, nothing is kept. */
  lemma {:induction false} MapNotNullNoneDefined<A, B>(xs: seq<A>, f: A -> Option<B>)
    requires forall x :: x in xs ==> f(x).None?
    ensures MapNotNull(xs, f) == []
    decreases |xs|
  {
    if xs != [] {
      assert forall x :: x in xs[1..] ==> x in xs;
      MapNotNullNoneDefined(xs[1..], f);
    }
  }

  /** The cookies a stored host yields at startup: its list parsed against the host's URL. */
  function ParsedCookies<U, C>(stored: map<string, seq<string>>, host: string, url: U, parseCookie: (U, string) -> Option<C>)
    : seq<C>
    requires host in stored
  {
    MapNotNull(stored[host], s => parseCookie(url, s))
  }

  /** A stored host survives the startup load when its key parses as a URL and a cookie of it parses. */
  predicate Survives<U, C>(stored: map<string, seq<string>>, host: string,
                           parseUrl: string -> Option<U>, parseCookie: (U, string) -> Option<C>)
    requires host in stored
  {
    parseUrl(host).Some? && ParsedCookies(stored, host, parseUrl(host).value, parseCookie) != []
  }

  /** What the `init` load puts into the cache. */
  function Loaded<U, C>(stored: map<string, seq<string>>, parseUrl: string -> Option<U>, parseCookie: (U, string) -> Option<C>)
    : (m: map<string, seq<C>>)
    ensures forall host :: host in m <==> host in stored && Survives(stored, host, parseUrl, parseCookie)
    ensures forall host :: host in m ==>
              host in stored && parseUrl(host).Some? &&
              m[host] == ParsedCookies(stored, host, parseUrl(host).value, parseCookie)
  {
    map host | host in stored && Survives(stored, host, parseUrl, parseCookie)
      :: ParsedCookies(stored, host, parseUrl(host).value, parseCookie)
  }

  /** A host whose key does not parse, or none of whose cookies parse, is not loaded. */
  lemma LoadedDropsUnparsable<U, C>(stored: map<string, seq<string>>, host: string,
                                   parseUrl: string -> Option<U>, parseCookie: (U, string) -> Option<C>)
    requires host in stored
    requires parseUrl(host).None? || forall s :: s in stored[host] ==> parseCookie(parseUrl(host).value, s).None?
    ensures host !in Loaded(stored, parseUrl, parseCookie)
  {
    if parseUrl(host).Some? {
      var url := parseUrl(host).value;
      MapNotNullNoneDefined(stored[host], s => parseCookie(url, s));
    }
  }

  /** The entries of `m` whose keys are in `keys`. */
  function Restrict<V>(m: map<string, V>, keys: set<string>): (r: map<string, V>)
    ensures forall k :: k in r <==> k in m && k in keys
    ensures forall k :: k in r ==> r[k] == m[k]
  {
    map k | k in m && k in keys :: m[k]
  }

  lemma RestrictInsert<V>(base: map<string, V>, m: map<string, V>, keys: set<string>, k: string)
    ensures k in m ==> base + Restrict(m, keys + {k}) == (base + Restrict(m, keys))[k := m[k]]
    ensures k !in m ==> base + Restrict(m, keys + {k}) == base + Restrict(m, keys)
  {
  }

  /** `cache[host]?.toList().orEmpty()` */
  function Lookup<C>(cache: map<string, seq<C>>, host: string): (cookies: seq<C>)
    ensures host in cache ==> cookies == cache[host]
    ensures host !in cache ==> cookies == []
  {
    if host in cache then cache[host] else []
  }

  /** Saving replaces the host's list: a later lookup yields exactly the saved list. */
  lemma SaveThenLoad<C>(cache: map<string, seq<C>>, host: string, cookies: seq<C>)
    ensures Lookup(cache[host := cookies], host) == cookies
  {
  }

  /** Saving for one host leaves every other host's lookup as it was. */
  lemma SaveLeavesOtherHosts<C>(cache: map<string, seq<C>>, host: string, cookies: seq<C>, other: string)
    requires other != host
    ensures Lookup(cache[host := cookies], other) == Lookup(cache, other)
  {
  }


  /** `cookies.map { it.toString() }` */
  function Render<C>(cookies: seq<C>, toText: C -> string): (texts: seq<string>)
    ensures |texts| == |cookies|
    ensures forall i :: 0 <= i < |cookies| ==> texts[i] == toText(cookies[i])
  {
    seq(|cookies|, i requires 0 <= i < |cookies| => toText(cookies[i]))
  }

  /** A `store.save(host, strings)` call launched by the jar. */
  datatype PersistRequest = PersistRequest(key: string, values: seq<string>)

  class CookieManager<C> {
    /** `cache`: host -> cookies. */
    var cache: map<string, seq<C>>
    /** The `store.save` calls launched so far, in order; they run later, in the background. */
    var persistRequests: seq<PersistRequest>

    /** The jar as constructed: the cache is empty until the launched load has run. */
    constructor ()
      ensures cache == map[] && persistRequests == []
    {
      cache := map[];
      persistRequests := [];
    }

    /**
     * The body the `init` block launches: parse the stored entries, keep the hosts that yield at
     * least one cookie, and put each into the cache.
     */
    method LoadStored<U>(stored: map<string, seq<string>>, parseUrl: string -> Option<U>,
                         parseCookie: (U, string) -> Option<C>)
      modifies this`cache
      ensures cache == old(cache) + Loaded(stored, parseUrl, parseCookie)
    {
      var loaded := Loaded(stored, parseUrl, parseCookie);
      PutAll(loaded);
    }

    /** `forEach { (host, cookies) -> cache[host] = cookies }` */
    method PutAll(entries: map<string, seq<C>>)
      modifies this`cache
      ensures cache == old(cache) + entries
    {
      var pending := entries.Keys;
      ghost var done: set<string> := {};
      while pending != {}
        invariant pending <= entries.Keys && done == entries.Keys - pending
        invariant cache == old(cache) + Restrict(entries, done)
        decreases pending
      {
        var host :| host in pending;
        RestrictInsert(old(cache), entries, done, host);
        cache := cache[host := entries[host]];
        pending := pending - {host};
        done := done + {host};
      }
      assert Restrict(entries, done) == entries;
    }

    /** `saveFromResponse(url, cookies)`: replace the host's entry, then launch its persistence. */
    method SaveFromResponse(url: Url, cookies: seq<C>, toText: C -> string)
      modifies this`cache, this`persistRequests
      ensures cache == old(cache)[url.host := cookies]
      ensures persistRequests == old(persistRequests) + [PersistRequest(url.host, Render(cookies, toText))]
    {
      cache := cache[url.host := cookies];
      persistRequests := persistRequests + [PersistRequest(url.host, Render(cookies, toText))];
    }

    /** `loadForRequest(url)`: a read of the cache; nothing changes. */
    method LoadForRequest(url: Url) returns (cookies: seq<C>)
      ensures url.host in cache ==> cookies == cache[url.host]
      ensures url.host !in cache ==> cookies == []
    {
      cookies := Lookup(cache, url.host);
    }
  }
}
