/** The channel cache: loggers by channel name, filled at start-up and read at every log call. */
module Cache {
  import opened Wrappers
  import opened Loggers

  class LoggerCache {
    /** The cached loggers, by channel name. */
    var channels: map<string, Logger>

    /** A new cache holds no channel. */
    constructor ()
      ensures channels == map[]
    {
      channels := map[];
    }

    /**
     * Adds or overwrites the logger of a channel and returns this same
     * cache, so that calls can be chained. Every other channel keeps its logger.
     */
    method Add(name: string, channel: Logger) returns (self: LoggerCache)
      modifies this
      ensures self == this
      ensures channels == old(channels)[name := channel]
      ensures name in channels && channels[name] == channel
      ensures forall n :: n != name ==> (n in channels <==> n in old(channels))
      ensures forall n :: n != name && n in channels ==> channels[n] == old(channels)[n]
    {
      channels := channels[name := channel];
      self := this;
    }

    /** The logger of a channel, or none when the channel was never added; the cache is not changed. */
    method Get(name: string) returns (r: Option<Logger>)
      ensures r.Some? <==> name in channels
      ensures r.Some? ==> r.value == channels[name]
    {
      r := if name in channels then Some(channels[name]) else None;
    }
  }

  /** A fresh cache holds no channel: every lookup comes back empty. */
  method FreshCacheMisses(name: string) returns (r: Option<Logger>)
    ensures r == None
  {
    var cache := new LoggerCache();
    r := cache.Get(name);
  }

  /** Adding two loggers under one name: the second one wins, and a lookup reads it back. */
  method SecondAddWins(name: string, first: Logger, second: Logger) returns (r: Option<Logger>)
    ensures r == Some(second)
  {
    var cache := new LoggerCache();
    var same := cache.Add(name, first);
    same := same.Add(name, second);
    r := cache.Get(name);
  }

  /** Adding under one name leaves a lookup under another name as it was. */
  method AddKeepsOthers(cache: LoggerCache, name: string, other: string, channel: Logger) returns (before: Option<Logger>, after: Option<Logger>)
    requires name != other
    modifies cache
    ensures before == after
  {
    before := cache.Get(other);
    var _ := cache.Add(name, channel);
    after := cache.Get(other);
  }
}
