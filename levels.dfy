/**
 * The severity levels of Monolog and the formatter's per-level table: a
 * four-letter label and the list of terminal display attributes used to
 * colour the level tag (DefaultLogFormatter::getLevelString).
 */
module Levels {

  /** Monolog's levels, lowest to highest severity. */
  datatype Level = Debug | Info | Notice | Warning | Error | Critical | Alert | Emergency {

    /** The integer Monolog assigns to the level (`Level::X->value`). */
    function Value(): int {
      match this
      case Debug => 100
      case Info => 200
      case Notice => 250
      case Warning => 300
      case Error => 400
      case Critical => 500
      case Alert => 550
      case Emergency => 600
    }
  }

  /** The SGR display attributes the colour table uses. */
  datatype Sgr =
    | BgBlue | BgCyanBright | BgYellow | BgRedBright | BgRed | BgPurpleBright | BgPurple
    | FgWhite
    | StyleBlink
  {
    predicate IsBackground() {
      !FgWhite? && !StyleBlink?
    }
  }

  /** The colour table, keyed by level value as the formatter keys it. */
  const Colors: map<int, seq<Sgr>> := map[
    100 := [BgBlue, FgWhite],
    200 := [BgBlue, FgWhite],
    250 := [BgCyanBright, FgWhite],
    300 := [BgYellow, FgWhite],
    400 := [BgRedBright, FgWhite],
    500 := [BgRed, FgWhite, StyleBlink],
    550 := [BgPurpleBright, FgWhite, StyleBlink],
    600 := [BgPurple, FgWhite, StyleBlink]
  ]

  /** Distinct levels have distinct values, so no two levels share a row of the colour table. */
  lemma ValueInjective(a: Level, b: Level)
    ensures a.Value() == b.Value() <==> a == b
  {
  }

  /** The values follow the severity order: Debug lowest, Emergency highest. */
  lemma ValueOrdered(a: Level, b: Level)
    ensures a.Value() < b.Value() <==> Rank(a) < Rank(b)
  {
  }

  /** Position of a level in the declared order, used to state the ordering of the values. */
  function Rank(level: Level): nat {
    match level
    case Debug => 0
    case Info => 1
    case Notice => 2
    case Warning => 3
    case Error => 4
    case Critical => 5
    case Alert => 6
    case Emergency => 7
  }

  /**
   * The display attributes of a level: a background colour, then white
   * foreground, then blink for the three most severe levels only.
   */
  function Style(level: Level): (attrs: seq<Sgr>)
    ensures level.Value() in Colors && attrs == Colors[level.Value()]
    ensures |attrs| >= 2 && attrs[0].IsBackground() && attrs[1] == FgWhite
    ensures StyleBlink in attrs <==> level.Value() >= Critical.Value()
  {
    match level
    case Debug => Colors[100]
    case Info => Colors[200]
    case Notice => Colors[250]
    case Warning => Colors[300]
    case Error => Colors[400]
    case Critical => Colors[500]
    case Alert => Colors[550]
    case Emergency => Colors[600]
  }

  /** The four-letter label printed in the level tag. */
  function Label(level: Level): (name: string)
    ensures |name| == 4
    ensures forall k :: 0 <= k < 4 ==> 'A' <= name[k] <= 'Z'
  {
    match level
    case Debug => "DBUG"
    case Info => "INFO"
    case Notice => "NOTI"
    case Warning => "WARN"
    case Error => "ERRO"
    case Critical => "CRIT"
    case Alert => "ALRT"
    case Emergency => "EMRG"
  }

  /** The label determines the level: reading a tag back gives the level that wrote it. */
  lemma LabelInjective(a: Level, b: Level)
    ensures Label(a) == Label(b) <==> a == b
  {
  }

  /**
   * The escape-sequence writer, which is outside this model: how it renders
   * a list of attributes, and the sequence that resets them.
   */
  datatype Ansi = Ansi(color: seq<Sgr> -> string, reset: string)

  /**
   * The level tag: the colour sequence of the level's attributes, then the
   * label framed by single spaces, then the reset sequence.
   */
  function LevelString(ansi: Ansi, level: Level): (s: string)
    ensures var c := ansi.color(Style(level));
      && |s| == |c| + 6 + |ansi.reset|
      && s[..|c|] == c
      && s[|c|] == ' ' && s[|c| + 1..|c| + 5] == Label(level) && s[|c| + 5] == ' '
      && s[|c| + 6..] == ansi.reset
  {
    ansi.color(Style(level)) + " " + Label(level) + " " + ansi.reset
  }
}
