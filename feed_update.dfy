/** RSSFeedUpdate: the single cached copy of the processed feed that the web endpoint serves. */
module FeedUpdate {

  /** DateTime values as ticks; DateTime.MinValue is tick 0. */
  const MinValue: int := 0

  class RSSFeedUpdate {
    /** The feed text most recently handed to UpdateFeed. */
    var latestFeed: string
    /** When UpdateFeed last ran. */
    var lastUpdated: int

    /** A cache that has never been updated holds the empty string. */
    constructor ()
      ensures latestFeed == "" && lastUpdated == MinValue
    {
      latestFeed := "";
      lastUpdated := MinValue;
    }

    /** Replaces the cached feed; `now` stands for DateTime.Now. */
    method UpdateFeed(feed: string, now: int)
      modifies this
      ensures latestFeed == feed && lastUpdated == now
    {
      latestFeed := feed;
      lastUpdated := now;
    }

    /** Returns the cached feed and changes nothing. */
    method GetLatestFeed() returns (feed: string)
      ensures feed == latestFeed
    {
      feed := latestFeed;
    }
  }

  /** Before any update the cache serves the empty string. */
  method FreshCacheIsEmpty() returns (feed: string)
    ensures feed == ""
  {
    var cache := new RSSFeedUpdate();
    feed := cache.GetLatestFeed();
  }

  /** What was stored is what is served, exactly. */
  method UpdateThenGet(cache: RSSFeedUpdate, s: string, now: int) returns (feed: string)
    modifies cache
    ensures feed == s && cache.latestFeed == s && cache.lastUpdated == now
  {
    cache.UpdateFeed(s, now);
    feed := cache.GetLatestFeed();
  }

  /** Of two updates, the second is the one served. */
  method LastWriteWins(cache: RSSFeedUpdate, first: string, second: string, t1: int, t2: int) returns (feed: string)
    modifies cache
    ensures feed == second && cache.lastUpdated == t2
  {
    cache.UpdateFeed(first, t1);
    cache.UpdateFeed(second, t2);
    feed := cache.GetLatestFeed();
  }
}
