/**
 * DefaultLogFormatter::format: the level tag, then the message with its
 * placeholders substituted, one record per line.
 */
module Formatter {
  import opened Levels
  import opened Placeholders
  import opened Replacement

  /** The parts of a Monolog record that the formatter reads. */
  datatype LogRecord = LogRecord(message: string, level: Level, context: Context)

  /**
   * The parent LineFormatter, configured with the format `"%message%" . PHP_EOL`.
   * Its date, context and stack-trace handling is outside this model; it is
   * taken to render the message followed by a line feed.
   */
  function ParentFormat(message: string): (line: string)
    ensures |line| == |message| + 1 && line[..|message|] == message && line[|message|] == '\n'
  {
    message + "\n"
  }

  /**
   * The substituted body: the substitution map applied to the parent's
   * rendering. No substitution can remove the line feed that ends it.
   */
  function Body(record: LogRecord): (body: string)
    ensures |body| > 0 && body[|body| - 1] == '\n'
  {
    var m := Substitutions(record.message, record.context);
    KeysHaveNoLineFeed(record.message, record.context);
    StrReplaceKeepsLast(m, record.message, '\n');
    StrReplace(m, ParentFormat(record.message))
  }

  /**
   * The formatted line: two spaces, the level tag, one space, then the body.
   * The line always ends with the line feed the parent added, and a message
   * without placeholders passes through unchanged.
   */
  function Format(ansi: Ansi, record: LogRecord): (line: string)
    ensures var tag := LevelString(ansi, record.level);
      && |line| > |tag| + 3
      && line[..2] == "  "
      && line[2..2 + |tag|] == tag
      && line[2 + |tag|] == ' '
      && line[3 + |tag|..] == Body(record)
      && line[|line| - 1] == '\n'
      && (!HasToken(record.message) ==> line[3 + |tag|..] == record.message + "\n")
  {
    var tag := LevelString(ansi, record.level);
    var body := Body(record);
    PlainBody(record);
    LineShape(tag, body);
    "  " + tag + " " + body
  }

  /** The positions of the parts of a line built from a tag and a body. */
  lemma LineShape(tag: string, body: string)
    ensures var line := "  " + tag + " " + body;
      && |line| == |tag| + 3 + |body|
      && line[..2] == "  "
      && line[2..2 + |tag|] == tag
      && line[2 + |tag|] == ' '
      && line[3 + |tag|..] == body
  {
  }

  /** A message without tokens gets an empty substitution map, so its body is the parent's rendering. */
  lemma PlainBody(record: LogRecord)
    ensures !HasToken(record.message) ==> Body(record) == record.message + "\n"
  {
    SubstitutionsEmptyIff(record.message, record.context);
  }

  /** A token is made of braces and word characters only, so it never holds a line feed. */
  lemma TokenHasNoLineFeed(t: string)
    requires IsToken(t)
    ensures '\n' !in t
  {
  }

  /** No key of the substitution map holds a line feed, since every key is a token. */
  lemma KeysHaveNoLineFeed(message: string, context: Context)
    ensures var m := Substitutions(message, context);
      forall k :: 0 <= k < |m| ==> '\n' !in m[k].search
  {
    var m := Substitutions(message, context);
    forall k | 0 <= k < |m| ensures '\n' !in m[k].search {
      assert Keys(m)[k] == m[k].search;
      SubstitutionKeysAreTokens(message, context, m[k].search);
      TokenHasNoLineFeed(m[k].search);
    }
  }

  /** The level tag of a formatted line carries the level's four-letter label at a fixed offset. */
  lemma LabelInLine(ansi: Ansi, record: LogRecord)
    ensures var c := |ansi.color(Style(record.level))|;
      Format(ansi, record)[3 + c..7 + c] == Label(record.level)
  {
    var tag := LevelString(ansi, record.level);
    var line := Format(ansi, record);
    var c := |ansi.color(Style(record.level))|;
    assert line[3 + c..7 + c] == line[2..2 + |tag|][c + 1..c + 5];
  }

  /** True when some token of the message names a non-null context value. */
  predicate Resolves(record: LogRecord) {
    exists t :: t in Scan(record.message) && SubstitutionFor(record.context, t) != t
  }

  /**
   * When no token of the message names a non-null context value, every
   * token survives as literal text and the body is the parent's rendering.
   */
  lemma UnresolvedTokensSurvive(record: LogRecord)
    requires !Resolves(record)
    ensures Body(record) == record.message + "\n"
  {
    var m := Substitutions(record.message, record.context);
    SubstitutionsShape(record.message, record.context);
    forall k | 0 <= k < |m| ensures m[k].replace == m[k].search {
      assert Keys(m)[k] == m[k].search;
    }
    StrReplaceIdentity(m, ParentFormat(record.message));
  }

  /**
   * A token of the message whose name the context lacks, or holds as null,
   * stays in the body as literal text, whatever the other tokens resolve to.
   */
  lemma UnresolvedTokenSurvives(record: LogRecord, t: string, i: nat)
    requires IsToken(t) && OccursAt(record.message, t, i)
    requires t[1..|t| - 1] !in record.context || record.context[t[1..|t| - 1]].Null?
    ensures Contains(Body(record), t)
  {
    var m := Substitutions(record.message, record.context);
    TokenLookup(record.context, t);
    SubstitutionsShape(record.message, record.context);
    forall k | 0 <= k < |m| ensures IsToken(m[k].search) && (m[k].search == t ==> m[k].replace == t) {
      assert Keys(m)[k] == m[k].search;
      SubstitutionKeysAreTokens(record.message, record.context, m[k].search);
    }
    var line := ParentFormat(record.message);
    assert line[i..i + |t|] == record.message[i..i + |t|];
    assert OccursAt(line, t, i);
    StrReplaceKeepsToken(m, line, t);
  }

  /**
   * Context entries that no placeholder of the message names do not affect
   * the formatted line: unused context is never printed.
   */
  lemma UnusedContextIgnored(ansi: Ansi, record: LogRecord, name: string, v: ContextValue)
    requires !(IsToken("{" + name + "}") && exists i :: OccursAt(record.message, "{" + name + "}", i))
    ensures Format(ansi, record.(context := record.context[name := v])) == Format(ansi, record)
  {
    SubstitutionsIgnoreUnreferenced(record.message, record.context, name, v);
  }

  /**
   * A message with a single placeholder and no other opening brace: the
   * placeholder is replaced by its substitution and the rest is kept.
   */
  lemma SinglePlaceholder(a: string, t: string, b: string, level: Level, context: Context)
    requires NoOpenBrace(a) && IsToken(t) && NoOpenBrace(b)
    ensures Body(LogRecord(a + t + b, level, context)) == a + SubstitutionFor(context, t) + b + "\n"
  {
    var v := SubstitutionFor(context, t);
    ScanOne(a, t, b);
    SubstitutionsOfOne(a + t + b, t, context);
    assert ParentFormat(a + t + b) == a + t + (b + "\n");
    assert StrReplace([Pair(t, v)], ParentFormat(a + t + b)) == ReplaceAll(ParentFormat(a + t + b), t, v);
    ReplaceOne(a, t, b + "\n", v);
  }

  /** A placeholder whose name the context holds is replaced by the value. */
  lemma InterpolationExample(message: string, context: Context)
    requires message == "User {id} logged in" && context == map["id" := Text("42")]
    ensures Body(LogRecord(message, Info, context)) == "User 42 logged in\n"
  {
    var a, t, b := "User ", "{id}", " logged in";
    assert a + "42" + b + "\n" == "User 42 logged in\n";
    assert message == a + t + b;
    IdLookup(context);
    SinglePlaceholder(a, t, b, Info, context);
  }

  /** The lookup of InterpolationExample: `{id}` is looked up under `id`. */
  lemma IdLookup(context: Context)
    requires context == map["id" := Text("42")]
    ensures SubstitutionFor(context, "{id}") == "42"
  {
    var t := "{id}";
    TokenLookup(context, t);
    assert t[1..|t| - 1] == "id";
  }

  /** A placeholder whose name the context lacks stays in the line as literal text. */
  lemma MissingKeyExample(message: string, context: Context)
    requires message == "Missing {unset}" && context == map[]
    ensures Body(LogRecord(message, Warning, context)) == "Missing {unset}\n"
  {
    var a, t, b := "Missing ", "{unset}", "";
    assert a + t + b + "\n" == "Missing {unset}\n";
    assert message == a + t + b;
    TokenLookup(context, t);
    var v := SubstitutionFor(context, t);
    assert v == t;
    SinglePlaceholder(a, t, b, Warning, context);
  }

  /** A placeholder whose context value is null stays in the line as literal text too. */
  lemma NullValueExample(message: string, context: Context)
    requires message == "Missing {unset}" && context == map["unset" := Null]
    ensures Body(LogRecord(message, Warning, context)) == "Missing {unset}\n"
  {
    var a, t, b := "Missing ", "{unset}", "";
    assert a + t + b + "\n" == "Missing {unset}\n";
    assert message == a + t + b;
    TokenLookup(context, t);
    assert t[1..|t| - 1] == "unset";
    var v := SubstitutionFor(context, t);
    assert v == t;
    SinglePlaceholder(a, t, b, Warning, context);
  }

  /**
   * The passes run one after the other. In `ta tb`, when the value of `ta`
   * is the token `tb` itself, the second pass replaces it again, so both
   * places end up holding the value of `tb`. Substituting both tokens at
   * once would have left the text of `tb` in the first place.
   */
  lemma Cascade(ta: string, tb: string, x: string, level: Level, context: Context)
    requires IsToken(ta) && IsToken(tb) && ta != tb
    requires ta[1..|ta| - 1] in context && context[ta[1..|ta| - 1]] == Text(tb)
    requires tb[1..|tb| - 1] in context && context[tb[1..|tb| - 1]] == Text(x)
    ensures Body(LogRecord(ta + " " + tb, level, context)) == x + " " + x + "\n"
  {
    var message := ta + " " + tb;
    ScanTwo("", ta, " ", tb, "");
    assert "" + ta + " " + tb + "" == message;
    TokenLookup(context, ta);
    TokenLookup(context, tb);
    SubstitutionsOfTwo(message, ta, tb, context);
    CascadePasses(ta, tb, x);
  }

  /** The two passes of Cascade: `ta` becomes `tb`, then both `tb` become `x`. */
  lemma CascadePasses(ta: string, tb: string, x: string)
    requires IsToken(ta) && IsToken(tb) && ta != tb
    ensures StrReplace([Pair(ta, tb), Pair(tb, x)], ta + " " + tb + "\n") == x + " " + x + "\n"
  {
    var tail := " " + tb + "\n";
    var s := ta + tail;
    assert ta + " " + tb + "\n" == s;
    StrReplaceTwo(Pair(ta, tb), Pair(tb, x), s);
    FirstPass(ta, tb, tail);
    SecondPass(tb, x, tail);
  }

  /** The first pass of Cascade replaces the leading `ta` and finds nothing else. */
  lemma FirstPass(ta: string, tb: string, tail: string)
    requires IsToken(ta) && IsToken(tb) && ta != tb && tail == " " + tb + "\n"
    ensures ReplaceAll(ta + tail, ta, tb) == tb + tail
  {
    ReplaceAllStart(ta, tail, tb);
    NotInTail(ta, tb);
    ReplaceAllAbsent(tail, ta, tb);
  }

  /** The second pass of Cascade replaces both occurrences of `tb`. */
  lemma SecondPass(tb: string, x: string, tail: string)
    requires IsToken(tb) && tail == " " + tb + "\n"
    ensures ReplaceAll(tb + tail, tb, x) == x + " " + x + "\n"
  {
    ReplaceAllStart(tb, tail, x);
    ReplaceOne(" ", tb, "\n", x);
    assert x + (" " + x + "\n") == x + " " + x + "\n";
  }

  /** A token other than `tb` does not occur in a space, `tb` and a line feed. */
  lemma NotInTail(ta: string, tb: string)
    requires IsToken(ta) && IsToken(tb) && ta != tb
    ensures !Contains(" " + tb + "\n", ta)
  {
    var s := " " + tb + "\n";
    forall i | 0 <= i <= |s| ensures !OccursAt(s, ta, i) {
      if OccursAt(s, ta, i) {
        OccursInTail(ta, tb, i);
      }
    }
  }

  /** The only token occurring in a space, `tb` and a line feed is `tb`. */
  lemma OccursInTail(ta: string, tb: string, i: int)
    requires IsToken(ta) && IsToken(tb) && OccursAt(" " + tb + "\n", ta, i)
    ensures ta == tb
  {
    var s := " " + tb + "\n";
    assert s[i] == s[i..i + |ta|][0] == '{';
    assert forall k :: 1 <= k <= |tb| ==> s[k] == tb[k - 1];
    assert i == 1;
    var j := |ta|;
    assert s[j] == s[i..i + |ta|][|ta| - 1] == '}';
    assert j == |tb|;
    assert ta == s[1..1 + |tb|] == tb;
  }
}
