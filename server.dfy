/**
 * `fetchAllFeeds` in server.js with its cache: one `node-cache` entry under
 * the key `'ALL_NEWS'`, standard time-to-live 600 seconds.
 *
 * Times are milliseconds since the epoch and are passed in: `now` is the
 * instant of the cache lookup, `doneAt` the instant the fresh list is stored
 * once every feed has been awaited.
 */
module Server {
  import opened Wrappers
  import Topics
  import opened Aggregator

  /** `stdTTL` of the cache, in seconds. */
  const StdTtlSeconds: int := 600

  /** The same, in the milliseconds the cache's clock counts. */
  const TtlMs: int := StdTtlSeconds * 1000

  /**
   * The news cache. Only the `'ALL_NEWS'` key is ever used, so it holds at
   * most one value together with the instant after which it is stale.
   */
  class NewsCache {
    var stored: Option<seq<NewsItem>>
    var expiresAt: int

    /** `new NodeCache(...)`: nothing stored. */
    constructor()
      ensures stored == None
    {
      stored := None;
      expiresAt := 0;
    }

    /** A lookup at `now` finds the value: it is stored and its expiry instant is not yet past. */
    predicate Live(now: int)
      reads this
    {
      stored.Some? && now <= expiresAt
    }

    /** `cache.get`: the stored value while it is live; an expired value is deleted and the lookup misses. */
    method Get(now: int) returns (r: Option<seq<NewsItem>>)
      modifies this
      ensures old(Live(now)) ==> r == old(stored) && stored == old(stored) && expiresAt == old(expiresAt)
      ensures !old(Live(now)) ==> r == None && stored == None && expiresAt == old(expiresAt)
    {
      if stored.Some? && now <= expiresAt {
        r := stored;
      } else {
        r := None;
        stored := None;
      }
    }

    /** `cache.set`: store `value`, live until `TtlMs` after `now`. */
    method Set(now: int, value: seq<NewsItem>)
      modifies this
      ensures stored == Some(value) && expiresAt == now + TtlMs
      ensures Live(now) && !Live(now + TtlMs + 1)
    {
      stored := Some(value);
      expiresAt := now + TtlMs;
    }
  }

  /**
   * `fetchAllFeeds`. On a live cache entry it returns that entry and fetches
   * nothing (`outcomes` is not looked at). Otherwise it walks `Feeds`, where
   * `outcomes[i]` is what fetching `Feeds[i]` gives, sorts the records newest
   * first, stores the sorted list and returns it.
   */
  method FetchAllFeeds(cache: NewsCache, now: int, doneAt: int, outcomes: seq<Option<seq<RawItem>>>)
    returns (news: seq<NewsItem>)
    requires |outcomes| == |Feeds|
    modifies cache
    ensures old(cache.Live(now)) ==>
      news == old(cache.stored.value) && cache.stored == old(cache.stored) && cache.expiresAt == old(cache.expiresAt)
    ensures !old(cache.Live(now)) ==>
      news == NewestFirst(Gathered(Topics.InferTopics, Feeds, outcomes)) &&
      cache.stored == Some(news) && cache.expiresAt == doneAt + TtlMs
  {
    var cached := cache.Get(now);
    if cached.Some? {
      return cached.value;
    }
    var results := Collect(Topics.InferTopics, Feeds, outcomes);
    var a := new NewsItem[|results|](i requires 0 <= i < |results| => results[i]);
    assert a[..] == results;
    SortNewestFirst(a);
    news := a[..];
    cache.Set(doneAt, news);
  }

  /**
   * Two requests: when the first misses the cache and the second's lookup
   * comes after the first one's store and within its time-to-live (not while
   * the first is still awaiting its feeds), the second returns the very
   * same list, whatever the feeds would give by then, so nothing is
   * recomputed. That holds for an empty list too: one where every feed failed.
   */
  method TwoRequests(cache: NewsCache, now1: int, doneAt1: int, now2: int, doneAt2: int,
                     outcomes1: seq<Option<seq<RawItem>>>, outcomes2: seq<Option<seq<RawItem>>>)
    returns (first: seq<NewsItem>, second: seq<NewsItem>)
    requires |outcomes1| == |Feeds| && |outcomes2| == |Feeds|
    requires !cache.Live(now1) && now1 <= doneAt1 <= now2 <= doneAt1 + TtlMs
    modifies cache
    ensures second == first
    ensures first == NewestFirst(Gathered(Topics.InferTopics, Feeds, outcomes1))
    ensures (forall i :: 0 <= i < |outcomes1| ==> outcomes1[i].None?) ==> first == []
  {
    first := FetchAllFeeds(cache, now1, doneAt1, outcomes1);
    second := FetchAllFeeds(cache, now2, doneAt2, outcomes2);
    if forall i :: 0 <= i < |outcomes1| ==> outcomes1[i].None? {
      AllFailed(Topics.InferTopics, Feeds, outcomes1);
    }
  }
}
