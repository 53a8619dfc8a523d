# Brickhouse log: a Dafny model

This project models the core of the Brickhouse logging package:

- **the console line formatter** (`DefaultLogFormatter`). It gives each of Monolog's eight levels a four-letter label and a list of terminal display attributes. It scans the message for `{name}` placeholders with the pattern `\{[\w_]+\}` and builds an ordered substitution map from the record's context. It applies that map with `str_replace` and prefixes the line with two spaces, the coloured level tag and one space.
- **the channel cache** (`LoggerCache`): a mutable map from channel name to logger, with `add` and `get`.
- **the logging facade** (`Log`). It resolves a channel's logger and never fails. A named channel or the configured default is looked up in the cache. A miss gives a logger that discards everything. Any container resolution failure gives the console "bootstrap" logger. The level methods (`debug` … `emergency`) all go through this resolution with no channel.
- **start-up registration** (`Extension::register`): the default configuration, and a loop that adds one logger per configured channel to the cache.

Modules:

- `Levels`: levels, label and colour tables, the level tag.
- `Placeholders`: the placeholder scan, `trim`, the substitution map.
- `Replacement`: `str_replace` with array arguments.
- `Formatter`: the formatted line.
- `Loggers`: the logger record and `Logger::build`.
- `Cache`: the `LoggerCache` class.
- `Log`: the facade.
- `Extension`: registration.
- `Wrappers`: `Option`.

The escape-sequence writer is a parameter (`Levels.Ansi`), so every property holds for any writer. The application container is replaced by an explicit value, `Log.Container`. It holds the configuration and the cache contents, each either available or not. An unavailable one stands for the `ResolutionFailedException` the facade catches.

`str_replace` with array arguments applies its pairs one after the other. Each pass works on the result of the previous one, so a substituted value that contains a later placeholder is replaced again. The model follows the code here. It does not treat the substitution as a single pass independent of order. `Formatter.Cascade` shows the difference: when the value of one placeholder is another placeholder of the same message, the later pass replaces it again.

The parent `LineFormatter` is configured with the format `"%message%" . PHP_EOL`. The model takes its output to be the message followed by a line feed (`Formatter.ParentFormat`). This is an assumption of the model, not something it derives.

## Model

| member | source | states |
|---|---|---|
| Levels.ValueInjective | src/DefaultLogFormatter.php:54-63 | distinct levels have distinct values, so the colour table keyed by value has one row per level |
| Levels.ValueOrdered | src/DefaultLogFormatter.php:54-63 | level values increase with severity, Debug lowest and Emergency highest |
| Levels.Style | src/DefaultLogFormatter.php:54-65 | every level has a row in the colour table; each row is a background colour then white foreground; blink is present exactly for Critical, Alert and Emergency |
| Levels.Label | src/DefaultLogFormatter.php:68-77 | every level has a label of exactly four upper-case letters |
| Levels.LabelInjective | src/DefaultLogFormatter.php:68-77 | two levels share a label only if they are the same level |
| Levels.LevelString | src/DefaultLogFormatter.php:79 | the tag is the colour sequence, a space, the label, a space, then the reset sequence, at fixed positions |
| Placeholders.WordRunEnd | src/DefaultLogFormatter.php:89 | returns the end of the longest run of `\w` characters from a position |
| Placeholders.MatchAt | src/DefaultLogFormatter.php:89 | a match found at a position is a token, and it is the only token starting there |
| Placeholders.ScanFrom | src/DefaultLogFormatter.php:89 | every match of the scan from a position is a token: `{`, one or more word characters, `}` |
| Placeholders.Scan | src/DefaultLogFormatter.php:89 | every entry of `$matches[0]` is a token; ScanSound, ScanComplete and ScanOrder state which tokens and in what order |
| Placeholders.MatchStarts | src/DefaultLogFormatter.php:89 | the start of every match lies in the message, at or after the position the scan starts from |
| Placeholders.ScanFromPositions | src/DefaultLogFormatter.php:89 | helper of ScanOrder: the matches from a position sit where MatchStarts says, in order and without overlap |
| Placeholders.ScanFromStarts | src/DefaultLogFormatter.php:89 | helper of ScanOrder: every token occurring at or after a position starts at one of the positions MatchStarts gives |
| Placeholders.ScanOrder | src/DefaultLogFormatter.php:89 | the matches occur at strictly increasing, non-overlapping positions, and every token occurrence of the message is at one of them, so the matches come in message order |
| Placeholders.TokensDisjoint | src/DefaultLogFormatter.php:89 | a token that starts inside another token's span starts no earlier than that token ends |
| Placeholders.TokensApart | src/DefaultLogFormatter.php:89 | occurrences of two different tokens in one string never overlap |
| Placeholders.ScanOne | src/DefaultLogFormatter.php:89 | a message with one token and no other opening brace matches exactly that token |
| Placeholders.ScanTwo | src/DefaultLogFormatter.php:89 | a message with two tokens and no other opening brace matches exactly those two, in order |
| Placeholders.ScanSound | src/DefaultLogFormatter.php:89 | every match is a token that occurs in the message |
| Placeholders.ScanComplete | src/DefaultLogFormatter.php:89 | every token occurring in the message is among the matches |
| Placeholders.ScanEmptyIff | src/DefaultLogFormatter.php:89 | the scan finds nothing exactly when the message holds no token |
| Placeholders.TrimBraces | src/DefaultLogFormatter.php:96 | the trimmed string is no longer than its input and neither begins nor ends with a brace; TrimToken gives its exact value on a token |
| Placeholders.TrimToken | src/DefaultLogFormatter.php:96 | trimming braces from a token leaves exactly the name between its two braces |
| Placeholders.BracedNameIsToken | src/DefaultLogFormatter.php:89 | `{name}` is a token exactly when `name` is a non-empty run of word characters, so a dotted or empty name never is |
| Placeholders.TokenOfName | src/DefaultLogFormatter.php:96 | the only token whose lookup name is `name` is `{name}` |
| Placeholders.TokenLookup | src/DefaultLogFormatter.php:96-97 | a token with a non-null context value under its name maps to that value; an absent or null one maps to the token itself |
| Placeholders.SubstitutionFor | src/DefaultLogFormatter.php:97 | a substitution other than the template itself is the non-null string stored under the template's trimmed name |
| Placeholders.Put | src/DefaultLogFormatter.php:97 | assigning an existing key keeps its position and sets its value; a new key is appended; keys stay distinct; other entries are unchanged |
| Placeholders.Reduce | src/DefaultLogFormatter.php:93-102 | the fold never produces a repeated key |
| Placeholders.ReduceKeys | src/DefaultLogFormatter.php:93-102 | the fold's keys are exactly the templates folded |
| Placeholders.ReduceOrder | src/DefaultLogFormatter.php:93-102 | the fold's keys are in the order of each template's first appearance |
| Placeholders.OrderStep | src/DefaultLogFormatter.php:97 | helper of Placeholders.ReduceOrder: one more assignment keeps the keys in first-appearance order |
| Placeholders.OrderStepNew | src/DefaultLogFormatter.php:97 | helper of Placeholders.ReduceOrder: a new key goes after every earlier key |
| Placeholders.PutValues | src/DefaultLogFormatter.php:97 | assigning a template its own substitution keeps every value drawn from the context |
| Placeholders.SubstitutionIgnores | src/DefaultLogFormatter.php:96-97 | a template looked up under another name ignores the entry under `name` |
| Placeholders.ReduceValues | src/DefaultLogFormatter.php:93-102 | each key of the fold maps to its context value, or to itself |
| Placeholders.Substitutions | src/DefaultLogFormatter.php:87-105 | the map never holds a key twice; SubstitutionsShape states its keys, order and values |
| Placeholders.SubstitutionsOfOne | src/DefaultLogFormatter.php:93-102 | a single match gives a one-entry map from the token to its substitution |
| Placeholders.SubstitutionsOfTwo | src/DefaultLogFormatter.php:93-102 | two distinct matches give a two-entry map in match order |
| Placeholders.SubstitutionsShape | src/DefaultLogFormatter.php:87-105 | the map's keys are exactly the distinct matched tokens, in the order of each one's first match (message order, by ScanOrder), each mapped to its context value or to itself |
| Placeholders.SubstitutionKeysAreTokens | src/DefaultLogFormatter.php:93-102 | every key is a token occurring in the message, looked up by the name between its braces |
| Placeholders.SubstitutionsEmptyIff | src/DefaultLogFormatter.php:89-91 | the map is empty exactly when the message holds no token |
| Placeholders.UnreferencedContextIgnored | src/DefaultLogFormatter.php:93-102 | a context entry whose braced name is not a token of the message has no key in the map, including a dotted name such as `{user.id}` that stays literal text |
| Placeholders.ReduceIgnoresUnreferenced | src/DefaultLogFormatter.php:93-102 | changing a context entry that no folded template names leaves the fold unchanged |
| Placeholders.SubstitutionsIgnoreUnreferenced | src/DefaultLogFormatter.php:93-102 | changing a context entry whose braced name is not a token of the message leaves the map unchanged |
| Replacement.ReplaceAllIdentity | src/DefaultLogFormatter.php:44 | replacing a string by itself changes nothing |
| Replacement.ReplaceAllAbsent | src/DefaultLogFormatter.php:44 | a search string that does not occur leaves the subject unchanged |
| Replacement.ReplaceAllKeepsLast | src/DefaultLogFormatter.php:44 | a final character absent from the search string stays final |
| Replacement.ReplaceAllSkip | src/DefaultLogFormatter.php:44 | characters before any possible occurrence are copied unchanged |
| Replacement.ReplaceAllStart | src/DefaultLogFormatter.php:44 | helper of Replacement.ReplaceOne and Formatter.Cascade: an occurrence at the start is replaced and the pass resumes after it |
| Replacement.ReplaceOne | src/DefaultLogFormatter.php:44 | a single occurrence, with no other character equal to its first, is replaced and the rest kept |
| Replacement.ReplaceAllShort | src/DefaultLogFormatter.php:44 | helper of Replacement.ReplaceAllSkip, Replacement.KeepsLastShort and Replacement.ReplaceAllSplit: a subject shorter than the search string is unchanged |
| Replacement.KeepsLastShort | src/DefaultLogFormatter.php:44 | helper of Replacement.ReplaceAllKeepsLast: a subject one character too short for the search string, ending with a character the search string lacks, is unchanged |
| Replacement.StrReplaceTwo | src/DefaultLogFormatter.php:44 | helper of Formatter.Cascade: a two-entry map applies its first pass, then its second pass to the result |
| Replacement.StrReplaceIdentity | src/DefaultLogFormatter.php:44 | a map whose entries all map a key to itself leaves the subject unchanged |
| Replacement.StrReplaceKeepsLast | src/DefaultLogFormatter.php:44 | a final character that no search string contains is still final after all passes |
| Replacement.ReplaceAll | src/DefaultLogFormatter.php:44 | a pass with a non-empty search string and a replacement of the same length keeps the subject's length; the ReplaceAll lemmas state what it replaces |
| Replacement.StrReplace | src/DefaultLogFormatter.php:44 | when every key is non-empty and each value is as long as its key, the passes keep the subject's length |
| Replacement.ReplaceAllSplit | src/DefaultLogFormatter.php:44 | a pass splits at any boundary that no occurrence of the search string crosses: the two sides are processed independently |
| Replacement.PassKeepsToken | src/DefaultLogFormatter.php:44 | a pass whose search string is another token, or the token itself mapped to itself, keeps an occurrence of a token |
| Replacement.StrReplaceKeepsToken | src/DefaultLogFormatter.php:44 | when every key is a token and a token of the subject, if it is a key, maps to itself, that token survives all the passes |
| Formatter.ParentFormat | src/DefaultLogFormatter.php:41 | the parent's rendering is the message followed by one line feed (assumed) |
| Formatter.Body | src/DefaultLogFormatter.php:41-44 | the substituted body ends with a line feed, whatever the context holds |
| Formatter.Format | src/DefaultLogFormatter.php:37-47 | the line is two spaces, the level tag, one space, then exactly the substituted body; it ends with a line feed; a message without tokens appears unchanged |
| Formatter.LineShape | src/DefaultLogFormatter.php:46 | helper of Formatter.Format: the parts of the line sit at fixed positions: two spaces, the tag, one space, the body |
| Formatter.PlainBody | src/DefaultLogFormatter.php:89-90 | a message without tokens has the parent's rendering as its body |
| Formatter.TokenHasNoLineFeed | src/DefaultLogFormatter.php:89 | no token contains a line feed |
| Formatter.LabelInLine | src/DefaultLogFormatter.php:46 | the level's label sits at a fixed offset after the colour sequence in every line |
| Formatter.UnresolvedTokensSurvive | src/DefaultLogFormatter.php:97 | when no token has a non-null context value, every token stays as literal text and the body is the message plus line feed |
| Formatter.UnresolvedTokenSurvives | src/DefaultLogFormatter.php:97 | a token of the message whose name is absent from the context, or null there, stays in the body, whatever the other tokens resolve to |
| Formatter.UnusedContextIgnored | src/DefaultLogFormatter.php:93-102 | a context entry whose braced name is not a token of the message does not change the formatted line |
| Formatter.SinglePlaceholder | src/DefaultLogFormatter.php:42-44 | a message with one token and no other opening brace gets that token replaced by its substitution and nothing else changed |
| Formatter.InterpolationExample | src/DefaultLogFormatter.php:97 | `User {id} logged in` with `id` = `42` gives `User 42 logged in` |
| Formatter.IdLookup | src/DefaultLogFormatter.php:96-97 | `{id}` is looked up under `id` and takes its value |
| Formatter.MissingKeyExample | src/DefaultLogFormatter.php:97 | a token whose name the context lacks stays in the line |
| Formatter.NullValueExample | src/DefaultLogFormatter.php:97 | a token whose context value is null stays in the line |
| Formatter.Cascade | src/DefaultLogFormatter.php:44 | in `ta tb`, when `ta`'s value is the token `tb`, both places end up holding `tb`'s value: a later pass rewrites an earlier pass's output |
| Formatter.CascadePasses | src/DefaultLogFormatter.php:44 | helper of Formatter.Cascade: the two passes of Cascade give the value of `tb` twice |
| Formatter.FirstPass | src/DefaultLogFormatter.php:44 | helper of Formatter.Cascade: the first pass of Cascade replaces only the leading token |
| Formatter.SecondPass | src/DefaultLogFormatter.php:44 | helper of Formatter.Cascade: the second pass of Cascade replaces both occurrences of `tb` |
| Formatter.NotInTail | src/DefaultLogFormatter.php:44 | helper of Formatter.Cascade: a token other than `tb` does not occur in the text after the first token |
| Formatter.OccursInTail | src/DefaultLogFormatter.php:44 | helper of Formatter.Cascade: the only token that can occur in that text is `tb` |
| Loggers.Wrap | src/Logger.php:165 | a single handler becomes a one-element list; a list stays as it is |
| Loggers.Build | src/Logger.php:163-166 | a given name is kept, a missing one is generated with the `channel_` prefix; the handlers are the wrapped list |
| Cache.LoggerCache.constructor | src/LoggerCache.php:12 | a new cache holds no channel |
| Cache.LoggerCache.Add | src/LoggerCache.php:22-27 | the name now maps to the logger, every other entry is unchanged, and the same cache is returned |
| Cache.LoggerCache.Get | src/LoggerCache.php:36-39 | returns the cached logger exactly when the name is present, none otherwise, and changes nothing |
| Cache.FreshCacheMisses | src/LoggerCache.php:36-39 | a fresh cache returns none for every name |
| Cache.SecondAddWins | src/LoggerCache.php:22-27 | adding twice under one name, chained through the returned cache, leaves the second logger |
| Cache.AddKeepsOthers | src/LoggerCache.php:24 | a lookup under another name gives the same result before and after an add |
| Log.Fallback | src/Log.php:47-50 | the fallback logger is named `bootstrap` and has exactly one console handler |
| Log.Null | src/Log.php:57-60 | the discarding logger is named `null` and has no handler |
| Log.Logger | src/Log.php:30-40 | a resolution failure gives the fallback; a cache hit gives the cached logger; a miss gives the `null` logger |
| Log.Channel | src/Log.php:18-21 | a named channel resolves exactly as Log::logger resolves it |
| Log.LevelCall | src/Log.php:70-164 | each level method logs its message and context at its own level, to the default channel's logger when the configuration resolves and to the console fallback otherwise |
| Log.DefaultChannel | src/Log.php:33 | with the configuration available, no channel means the configured default channel |
| Log.Outcomes | src/Log.php:30-40 | the result is always a cached logger, the `null` logger or the fallback |
| Extension.DefaultConfig | src/Extension.php:25-33 | the default configuration has the single channel `default`, which discards everything |
| Extension.Registered | src/Extension.php:39-43 | registration gives one logger per configured channel, named after it, with its wrapped handlers |
| Extension.Register | src/Extension.php:37-43 | the loop adds exactly the registered loggers to the cache |
| Extension.RegisteredChannelsResolve | src/Extension.php:39-43 | after registration every configured channel resolves to its logger, and a call with no channel resolves to the logger named after the configured default when that channel is configured |
| Extension.DefaultSetup | src/Extension.php:25-43 | with the default configuration the level methods reach the discarding `default` channel |

## Left out

- Monolog's `LineFormatter` internals: date formatting, normalisation of context values, stack traces, inline line breaks. `Formatter.ParentFormat` takes the parent's output to be the message plus `"\n"`, with `PHP_EOL` taken as `"\n"`. Monolog's `LineFormatter` is not part of this model. As it is commonly understood, it substitutes `%message%` first and then the other `%…%` fields of the whole line. A message that itself contains `%channel%`, `%level_name%`, `%level%`, `%datetime%`, `%context%` or `%extra%` would have those rewritten, and one containing `%context.x%` or `%extra.x%` would lose them. For such messages the assumption fails, and with it `Formatter.Format` and `Formatter.UnusedContextIgnored`: a `%context%` in the message prints the whole context.
- Context values other than strings and null. The substitution map takes the raw context value (src/DefaultLogFormatter.php:97); only `str_replace` (line 44) turns it into a string: an integer becomes its decimal digits, `true` becomes `"1"`, `false` the empty string, an array `"Array"` with a warning, and an object without `__toString` throws. Here a context value is `Null` or `Text`, so none of these conversions is modelled.
- Byte strings. PHP strings are byte sequences and the pattern has no `u` flag; the model's strings are sequences of characters and `\w` is the ASCII word class. The two agree on messages in valid UTF-8, since every character the pattern and `trim` look at is ASCII and no byte of a multi-byte UTF-8 character is ASCII.
- The Bramus ANSI writer. `Levels.Ansi` is a parameter giving the colour sequence for a list of attributes and the reset sequence; the escape bytes themselves are not modelled.
- Handler output and thresholds (`ConsoleHandler`, Monolog's `StreamHandler` and `NullHandler`). `Loggers.Handler` only records the kind of each handler.
- The per-level methods and `log` of `Logger`: they forward to Monolog. `Log.LevelCall` only states which logger and which record a facade call hands over.
- `uniqid`: `Loggers.Build` takes the generated suffix as a parameter and states only the `channel_` prefix.
- Object identity of loggers. A logger is a value, so two loggers with the same name and handlers are equal.
- The application container: `singletonIf`, `singleton`, `resolve` and the lifetime of singletons. `Log.Container` holds a snapshot of the cache contents, and `Extension.Register` works on a given cache object.
- Exceptions other than the container's resolution failure. Nothing else in the facade's `try` can throw in this model.
- `Extension::boot` and `Extension::dependencies`: they do nothing that the log core depends on.
- `LogConfig` is not modelled as a class; it is the record `Loggers.LogConfig` holding the default channel name and the handlers of each channel.
