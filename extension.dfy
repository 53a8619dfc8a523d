/**
 * Start-up registration (Extension::register): the default configuration,
 * and one logger per configured channel added to the channel cache.
 */
module Extension {
  import opened Wrappers
  import opened Loggers
  import opened Cache
  import Log

  /** The configuration registered when the application provides none: channel "default", discarding everything. */
  function DefaultConfig(): (config: LogConfig)
    ensures config.default == "default" && config.default in config.channels
    ensures config.channels == map["default" := One(NullHandler)]
  {
    LogConfig("default", map["default" := One(NullHandler)])
  }

  /** The loggers registration builds: each configured channel, under its own name, with its handlers. */
  function Registered(config: LogConfig): (m: map<string, Loggers.Logger>)
    ensures m.Keys == config.channels.Keys
    ensures forall name :: name in m ==>
      m[name].name == name && m[name].handlers == Wrap(config.channels[name])
  {
    map name | name in config.channels :: Build(config.channels[name], Some(name), "")
  }

  /** The loop of Extension::register: adds one logger per configured channel to the cache. */
  method Register(cache: LoggerCache, config: LogConfig)
    modifies cache
    ensures cache.channels == old(cache.channels) + Registered(config)
  {
    var remaining := config.channels.Keys;
    while remaining != {}
      invariant remaining <= config.channels.Keys
      invariant cache.channels ==
        old(cache.channels) + map name | name in config.channels.Keys - remaining :: Registered(config)[name]
      decreases remaining
    {
      var name :| name in remaining;
      var logger := Build(config.channels[name], Some(name), "");
      var _ := cache.Add(name, logger);
      remaining := remaining - {name};
    }
    assert config.channels.Keys - remaining == Registered(config).Keys;
  }

  /**
   * Once the configuration is registered into an empty cache, the facade
   * resolves every configured channel to a logger of that name with its
   * configured handlers, and the level methods reach the default channel.
   */
  lemma RegisteredChannelsResolve(config: LogConfig, name: string)
    requires name in config.channels
    ensures var c := Log.Container(Some(config), Some(map[] + Registered(config)));
      && Log.Channel(c, name).name == name
      && Log.Channel(c, name).handlers == Wrap(config.channels[name])
      && (config.default in config.channels ==> Log.Logger(c, None).name == config.default)
  {
    assert map[] + Registered(config) == Registered(config);
  }

  /** With the default configuration, the level methods go to the "default" channel, which discards everything. */
  lemma DefaultSetup()
    ensures var c := Log.Container(Some(DefaultConfig()), Some(Registered(DefaultConfig())));
      Log.Logger(c, None) == Loggers.Logger("default", [NullHandler])
  {
    var config := DefaultConfig();
    assert "default" in Registered(config);
  }
}
