/**
 * The static logging facade (class Log): resolving the logger of a channel,
 * with the fallbacks that keep every log call from failing.
 *
 * The application container is replaced by an explicit value: each of the
 * two services the facade resolves, the configuration and the channel
 * cache, is either available or not. A missing one stands for the
 * resolution failure the facade catches.
 */
module Log {
  import opened Wrappers
  import opened Levels
  import opened Placeholders
  import opened Loggers
  import opened Formatter

  /** What the container can resolve at the time of the call; `cache` is the cache's current contents. */
  datatype Container = Container(config: Option<LogConfig>, cache: Option<map<string, Loggers.Logger>>)

  /** Log::fallback: the logger used before the application is bootstrapped, writing to the console. */
  function Fallback(): (l: Loggers.Logger)
    ensures l.name == "bootstrap" && l.handlers == [Console(Debug)]
  {
    Build(Many([Console(Debug)]), Some("bootstrap"), "")
  }

  /** Log::null: a logger with no handlers, which discards every record. */
  function Null(): (l: Loggers.Logger)
    ensures l.name == "null" && l.handlers == []
  {
    Build(Many([]), Some("null"), "")
  }

  /**
   * True when a resolution inside the facade's `try` fails: the cache is
   * always resolved, the configuration only when no channel was named.
   */
  predicate ResolutionFails(c: Container, channel: Option<string>) {
    c.cache.None? || (channel.None? && c.config.None?)
  }

  /** The channel looked up: the one named, or the configured default. */
  function Target(c: Container, channel: Option<string>): string
    requires !ResolutionFails(c, channel)
  {
    if channel.Some? then channel.value else c.config.value.default
  }

  /**
   * Log::logger: the cached logger of the named (or default) channel; the
   * discarding logger when the cache does not hold that channel; the
   * console fallback when the container cannot resolve what is needed.
   * Every path gives a logger.
   */
  function Logger(c: Container, channel: Option<string>): (l: Loggers.Logger)
    ensures ResolutionFails(c, channel) ==> l == Fallback()
    ensures !ResolutionFails(c, channel) && Target(c, channel) in c.cache.value ==>
      l == c.cache.value[Target(c, channel)]
    ensures !ResolutionFails(c, channel) && Target(c, channel) !in c.cache.value ==>
      l.name == "null" && l.handlers == []
  {
    var name :=
      match channel
      case Some(n) => Some(n)
      case None => if c.config.Some? then Some(c.config.value.default) else None;
    if name.None? || c.cache.None? then Fallback()
    else if name.value in c.cache.value then c.cache.value[name.value]
    else Null()
  }

  /** Log::channel: the logger of a named channel, resolved as Log::logger resolves it. */
  function Channel(c: Container, channel: string): (l: Loggers.Logger)
    ensures l == Logger(c, Some(channel))
  {
    Logger(c, Some(channel))
  }

  /** A call to one of the facade's level methods: the logger it goes to and the record it logs. */
  datatype Dispatch = Dispatch(target: Loggers.Logger, record: LogRecord)

  /**
   * Log::debug … Log::emergency: each resolves the logger with no channel
   * and hands it the message and context at its own level.
   */
  function LevelCall(c: Container, level: Level, message: string, context: Context): (d: Dispatch)
    ensures d.record == LogRecord(message, level, context)
    ensures c.config.Some? ==> d.target == Channel(c, c.config.value.default)
    ensures c.config.None? ==> d.target == Fallback()
  {
    Dispatch(Logger(c, None), LogRecord(message, level, context))
  }

  /** With the configuration available, no channel means the configured default channel. */
  lemma DefaultChannel(c: Container)
    requires c.config.Some?
    ensures Logger(c, None) == Channel(c, c.config.value.default)
  {
  }

  /** The three outcomes are exhaustive: a cached logger, the discarding logger or the fallback. */
  lemma Outcomes(c: Container, channel: Option<string>)
    ensures var l := Logger(c, channel);
      || l == Fallback()
      || l == Null()
      || (c.cache.Some? && l in c.cache.value.Values)
  {
  }
}
