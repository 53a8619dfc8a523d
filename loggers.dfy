/**
 * The logger record built by Logger::build and the configuration it is
 * built from: a logger is a name bound to a fixed, ordered list of handlers.
 */
module Loggers {
  import opened Wrappers
  import opened Levels

  /** The handler kinds the model distinguishes; what a handler writes is outside this model. */
  datatype Handler =
    | Console(minLevel: Level)
    | NullHandler
    | Stream(target: string, minLevel: Level)

  /** A channel's handlers as configured: a single handler or a list of them. */
  datatype Handlers = One(handler: Handler) | Many(handlers: seq<Handler>)

  /** A logger: its name and the handlers it dispatches to, in order. */
  datatype Logger = Logger(name: string, handlers: seq<Handler>)

  /** The logging configuration: the default channel's name and the handlers of each channel. */
  datatype LogConfig = LogConfig(default: string, channels: map<string, Handlers>)

  /** `array_wrap`: a single handler becomes a one-element list, a list stays as it is. */
  function Wrap(handlers: Handlers): (hs: seq<Handler>)
    ensures handlers.One? ==> hs == [handlers.handler]
    ensures handlers.Many? ==> hs == handlers.handlers
  {
    match handlers
    case One(h) => [h]
    case Many(hs) => hs
  }

  /** The prefix of the names `uniqid("channel_")` generates. */
  const UniquePrefix := "channel_"

  /**
   * Logger::build: the given name, or a generated one when none is given,
   * and the wrapped handlers. `unique` stands for the suffix `uniqid` returns.
   */
  function Build(handlers: Handlers, name: Option<string>, unique: string): (l: Logger)
    ensures name.Some? ==> l.name == name.value
    ensures name.None? ==> |l.name| >= |UniquePrefix| && l.name[..|UniquePrefix|] == UniquePrefix
    ensures l.handlers == Wrap(handlers)
  {
    var n := if name.Some? then name.value else UniquePrefix + unique;
    Logger(n, Wrap(handlers))
  }
}
