/**
 * Placeholder tokens and the substitution map of
 * DefaultLogFormatter::getSubstitutions: every match of `\{[\w_]+\}` in the
 * message, paired with the context value it names, or with itself when the
 * context has no non-null value under that name.
 */
module Placeholders {
  import opened Wrappers

  // ---------------------------------------------------------------------
  // The pattern `\{[\w_]+\}` and its scan (preg_match_all)
  // ---------------------------------------------------------------------

  /** `\w` of a pattern without the Unicode flag: ASCII letters, digits and the underscore. */
  predicate IsWordChar(c: char) {
    ('a' <= c <= 'z') || ('A' <= c <= 'Z') || ('0' <= c <= '9') || c == '_'
  }

  /** A string that the pattern `\{[\w_]+\}` matches in full. */
  predicate IsToken(t: string) {
    && |t| >= 3
    && t[0] == '{'
    && t[|t| - 1] == '}'
    && forall k :: 1 <= k < |t| - 1 ==> IsWordChar(t[k])
  }

  /** True when `t` occurs in `s` starting at index `i`. */
  predicate OccursAt(s: string, t: string, i: int) {
    0 <= i && i + |t| <= |s| && s[i..i + |t|] == t
  }

  /** True when some substring of `s` is a token. */
  predicate HasToken(s: string) {
    exists i, j :: 0 <= i <= j <= |s| && IsToken(s[i..j])
  }

  /** The end (exclusive) of the longest run of word characters starting at `i`. */
  function WordRunEnd(s: string, i: nat): (e: nat)
    requires i <= |s|
    ensures i <= e <= |s|
    ensures forall k :: i <= k < e ==> IsWordChar(s[k])
    ensures e < |s| ==> !IsWordChar(s[e])
    decreases |s| - i
  {
    if i < |s| && IsWordChar(s[i]) then WordRunEnd(s, i + 1) else i
  }

  /**
   * The end (exclusive) of the match of the pattern that starts at `p`, if
   * any. The greedy `+` takes the longest run of word characters; no shorter
   * run can be followed by `}`, so backtracking finds nothing else.
   */
  function MatchAt(s: string, p: nat): (m: Option<nat>)
    requires p <= |s|
    ensures m.Some? ==> p < m.value <= |s| && IsToken(s[p..m.value])
    ensures forall e :: p <= e <= |s| && IsToken(s[p..e]) ==> m == Some(e)
  {
    if p < |s| && s[p] == '{' then
      var e := WordRunEnd(s, p + 1);
      if e > p + 1 && e < |s| && s[e] == '}' then
        Some(e + 1)
      else
        assert forall e' :: p <= e' <= |s| && IsToken(s[p..e']) ==> false by {
          forall e' | p <= e' <= |s| && IsToken(s[p..e'])
            ensures false
          {
            TokenRunEnds(s, p, e');
          }
        }
        None
    else
      None
  }

  /** A token found at `p` ends exactly where the run of word characters after `{` ends. */
  lemma TokenRunEnds(s: string, p: nat, e: nat)
    requires p <= e <= |s| && IsToken(s[p..e])
    ensures WordRunEnd(s, p + 1) == e - 1
  {
    var t := s[p..e];
    var r := WordRunEnd(s, p + 1);
    assert forall k :: p + 1 <= k < e - 1 ==> IsWordChar(s[k]) by {
      forall k | p + 1 <= k < e - 1 ensures IsWordChar(s[k]) {
        assert s[k] == t[k - p];
      }
    }
    assert s[e - 1] == t[|t| - 1] == '}';
  }

  /**
   * The matches of the pattern from index `p` onwards, left to right, each
   * search resuming where the previous match ended.
   */
  function ScanFrom(s: string, p: nat): (ts: seq<string>)
    requires p <= |s|
    ensures forall t :: t in ts ==> IsToken(t)
    decreases |s| - p
  {
    if p == |s| then []
    else
      match MatchAt(s, p)
      case Some(e) => [s[p..e]] + ScanFrom(s, e)
      case None => ScanFrom(s, p + 1)
  }

  /** No match can start at a character other than `{`: the scan skips such stretches. */
  lemma {:induction false} ScanSkip(s: string, p: nat, q: nat)
    requires p <= q <= |s|
    requires forall k :: p <= k < q ==> s[k] != '{'
    ensures ScanFrom(s, p) == ScanFrom(s, q)
    decreases q - p
  {
    if p < q {
      assert MatchAt(s, p) == None;
      ScanSkip(s, p + 1, q);
    }
  }

  /** All matches of `\{[\w_]+\}` in the message: `$matches[0]` after preg_match_all. */
  function Scan(s: string): (ts: seq<string>)
    ensures forall t :: t in ts ==> IsToken(t)
  {
    ScanFrom(s, 0)
  }

  /** Where each match of ScanFrom starts, in the same order. */
  function MatchStarts(s: string, p: nat): (starts: seq<nat>)
    requires p <= |s|
    ensures forall k :: 0 <= k < |starts| ==> p <= starts[k] < |s|
    decreases |s| - p
  {
    if p == |s| then []
    else
      match MatchAt(s, p)
      case Some(e) => [p] + MatchStarts(s, e)
      case None => MatchStarts(s, p + 1)
  }

  /** Each string of `ts` occurs in `s` at the matching position of `ps`, each ending no later than the next starts. */
  predicate Positioned(s: string, ts: seq<string>, ps: seq<nat>) {
    && |ps| == |ts|
    && (forall k :: 0 <= k < |ts| ==> OccursAt(s, ts[k], ps[k]))
    && (forall k :: 0 <= k < |ts| - 1 ==> ps[k] + |ts[k]| <= ps[k + 1])
  }

  /** A match placed before all the others keeps them positioned. */
  lemma PositionedCons(s: string, t: string, q: nat, ts: seq<string>, ps: seq<nat>)
    requires Positioned(s, ts, ps) && OccursAt(s, t, q)
    requires |ps| > 0 ==> q + |t| <= ps[0]
    ensures Positioned(s, [t] + ts, [q] + ps)
  {
    var ts', ps' := [t] + ts, [q] + ps;
    forall k | 0 <= k < |ts'| ensures OccursAt(s, ts'[k], ps'[k]) {
      if k > 0 {
        assert ts'[k] == ts[k - 1] && ps'[k] == ps[k - 1];
      }
    }
    forall k | 0 <= k < |ts'| - 1 ensures ps'[k] + |ts'[k]| <= ps'[k + 1] {
      if k > 0 {
        assert ts'[k] == ts[k - 1] && ps'[k] == ps[k - 1] && ps'[k + 1] == ps[k];
      }
    }
  }

  /** The matches from `p` lie where MatchStarts says, in order and without overlap. */
  lemma {:induction false} ScanFromPositions(s: string, p: nat)
    requires p <= |s|
    ensures Positioned(s, ScanFrom(s, p), MatchStarts(s, p))
    decreases |s| - p
  {
    if p < |s| {
      match MatchAt(s, p)
      case Some(e) =>
        ScanFromPositions(s, e);
        PositionedCons(s, s[p..e], p, ScanFrom(s, e), MatchStarts(s, e));
      case None =>
        ScanFromPositions(s, p + 1);
    }
  }

  /** Every token occurring at or after `p` starts at one of the positions of MatchStarts. */
  lemma {:induction false} ScanFromStarts(s: string, p: nat, i: nat, j: nat)
    requires p <= i <= j <= |s| && IsToken(s[i..j])
    ensures i in MatchStarts(s, p)
    decreases |s| - p
  {
    match MatchAt(s, p)
    case Some(e) =>
      if p < i {
        TokensDisjoint(s, p, e, i, j);
        ScanFromStarts(s, e, i, j);
      }
    case None =>
      ScanFromStarts(s, p + 1, i, j);
  }

  /**
   * The scan reads the message left to right: the matches sit at strictly
   * increasing, non-overlapping positions, and every token occurrence of
   * the message is at one of them. The order of the matches is therefore
   * the order of their positions in the message.
   */
  lemma ScanOrder(s: string)
    ensures var ts, ps := Scan(s), MatchStarts(s, 0);
      && |ps| == |ts|
      && (forall k :: 0 <= k < |ts| ==> OccursAt(s, ts[k], ps[k]))
      && (forall k :: 0 <= k < |ts| - 1 ==> ps[k] + |ts[k]| <= ps[k + 1])
      && (forall i, j :: 0 <= i <= j <= |s| && IsToken(s[i..j]) ==> i in ps)
  {
    ScanFromPositions(s, 0);
    forall i, j | 0 <= i <= j <= |s| && IsToken(s[i..j]) ensures i in MatchStarts(s, 0) {
      ScanFromStarts(s, 0, i, j);
    }
  }

  /** No opening brace anywhere in `s`. */
  predicate NoOpenBrace(s: string) {
    forall k :: 0 <= k < |s| ==> s[k] != '{'
  }

  /** From `p`, the scan skips to the token at `q` when no opening brace lies between them. */
  lemma ScanFromToken(s: string, p: nat, q: nat, e: nat)
    requires p <= q <= e <= |s| && IsToken(s[q..e])
    requires forall k :: p <= k < q ==> s[k] != '{'
    ensures ScanFrom(s, p) == [s[q..e]] + ScanFrom(s, e)
  {
    ScanSkip(s, p, q);
  }

  /** From `p`, the scan finds the token at `q` and nothing else when no other opening brace follows `p`. */
  lemma ScanFromOnly(s: string, p: nat, q: nat, e: nat)
    requires p <= q <= e <= |s| && IsToken(s[q..e])
    requires forall k :: p <= k < q ==> s[k] != '{'
    requires forall k :: e <= k < |s| ==> s[k] != '{'
    ensures ScanFrom(s, p) == [s[q..e]]
  {
    ScanFromToken(s, p, q, e);
    ScanSkip(s, e, |s|);
  }

  /** A message holding a single token, with no other opening brace, scans to that token alone. */
  lemma ScanOne(a: string, t: string, b: string)
    requires NoOpenBrace(a) && IsToken(t) && NoOpenBrace(b)
    ensures Scan(a + t + b) == [t]
  {
    var s := a + t + b;
    var e := |a| + |t|;
    assert s[|a|..e] == t;
    assert forall k :: e <= k < |s| ==> s[k] == b[k - e];
    ScanFromOnly(s, 0, |a|, e);
  }

  /** Two tokens separated and surrounded by text without opening braces scan to the two tokens, in order. */
  lemma ScanTwo(a: string, t1: string, m: string, t2: string, b: string)
    requires NoOpenBrace(a) && IsToken(t1) && NoOpenBrace(m) && IsToken(t2) && NoOpenBrace(b)
    ensures Scan(a + t1 + m + t2 + b) == [t1, t2]
  {
    var left := a + t1;
    var right := m + t2 + b;
    var s := left + right;
    var e1 := |left|;
    assert s[|a|..e1] == t1 by { assert s[..e1] == left; }
    ScanFromToken(s, 0, |a|, e1);
    TailScan(s, e1, m, t2, b);
    assert s == a + t1 + m + t2 + b;
  }

  /** The part of ScanTwo after the first token. */
  lemma TailScan(s: string, e1: nat, m: string, t2: string, b: string)
    requires e1 <= |s| && s[e1..] == m + t2 + b
    requires NoOpenBrace(m) && IsToken(t2) && NoOpenBrace(b)
    ensures ScanFrom(s, e1) == [t2]
  {
    var right := m + t2 + b;
    var q2 := e1 + |m|;
    var e2 := q2 + |t2|;
    assert s[q2..e2] == t2 by { assert right[|m|..|m| + |t2|] == t2; }
    forall k | e1 <= k < q2 ensures s[k] != '{' {
      assert s[k] == right[k - e1] == m[k - e1];
    }
    forall k | e2 <= k < |s| ensures s[k] != '{' {
      assert s[k] == right[k - e1] == b[k - e2];
    }
    ScanFromOnly(s, e1, q2, e2);
  }

  /** Every match is a token that occurs in the message at or after `p`. */
  lemma {:induction false} ScanFromSound(s: string, p: nat)
    requires p <= |s|
    ensures forall t :: t in ScanFrom(s, p) ==> IsToken(t) && exists i :: p <= i && OccursAt(s, t, i)
    decreases |s| - p
  {
    if p < |s| {
      match MatchAt(s, p)
      case Some(e) =>
        ScanFromSound(s, e);
        assert OccursAt(s, s[p..e], p);
      case None =>
        ScanFromSound(s, p + 1);
    }
  }

  /** Every match of the scan is a token occurring in the message. */
  lemma ScanSound(s: string)
    ensures forall t :: t in Scan(s) ==> IsToken(t) && exists i :: OccursAt(s, t, i)
  {
    ScanFromSound(s, 0);
  }

  /** Two tokens of one string cannot overlap: a later one starts no earlier than an earlier one ends. */
  lemma TokensDisjoint(s: string, p: nat, e: nat, i: nat, j: nat)
    requires p < i <= j <= |s| && p <= e <= |s|
    requires IsToken(s[p..e]) && IsToken(s[i..j])
    ensures e <= i
  {
    forall q | p < q < e ensures s[q] != '{' {
      assert s[q] == s[p..e][q - p];
    }
    assert s[i] == s[i..j][0] == '{';
  }

  /** Two tokens occurring at the same position are the same token: each ends at the first `}`. */
  lemma SameStart(s: string, k: nat, u: string, t: string)
    requires IsToken(u) && IsToken(t) && OccursAt(s, u, k) && OccursAt(s, t, k)
    ensures u == t
  {
    forall q | k < q < k + |u| - 1 ensures s[q] != '}' {
      assert s[q] == u[q - k];
    }
    forall q | k < q < k + |t| - 1 ensures s[q] != '}' {
      assert s[q] == t[q - k];
    }
    assert s[k + |u| - 1] == u[|u| - 1];
    assert s[k + |t| - 1] == t[|t| - 1];
    assert |u| == |t|;
    assert u == s[k..k + |u|] == t;
  }

  /** Occurrences of two different tokens in one string never overlap. */
  lemma TokensApart(s: string, u: string, k: nat, t: string, b: nat)
    requires IsToken(u) && IsToken(t) && u != t && OccursAt(s, u, k) && OccursAt(s, t, b)
    ensures k + |u| <= b || b + |t| <= k
  {
    if k < b {
      TokensDisjoint(s, k, k + |u|, b, b + |t|);
    } else if b < k {
      TokensDisjoint(s, b, b + |t|, k, k + |u|);
    } else {
      SameStart(s, k, u, t);
    }
  }

  /** A token does not occur inside a different token. */
  lemma TokenNotInside(t: string, u: string)
    requires IsToken(t) && IsToken(u) && u != t
    ensures forall k :: 0 <= k <= |t| ==> !OccursAt(t, u, k)
  {
    assert OccursAt(t, t, 0);
    forall k | 0 <= k <= |t| ensures !OccursAt(t, u, k) {
      if OccursAt(t, u, k) {
        TokensApart(t, u, k, t, 0);
      }
    }
  }

  /** An occurrence in a suffix is an occurrence in the whole string, shifted by the suffix's start. */
  lemma OccursShift(s: string, d: nat, t: string, k: nat)
    requires d <= |s|
    ensures OccursAt(s[d..], t, k) <==> OccursAt(s, t, k + d)
  {
    if k + |t| <= |s| - d {
      assert s[d..][k..k + |t|] == s[k + d..k + d + |t|];
    }
  }

  /** Every token occurring at or after `p` is among the matches of the scan from `p`. */
  lemma {:induction false} ScanFromComplete(s: string, p: nat, i: nat, j: nat)
    requires p <= i <= j <= |s| && IsToken(s[i..j])
    ensures s[i..j] in ScanFrom(s, p)
    decreases |s| - p
  {
    match MatchAt(s, p)
    case Some(e) =>
      if p < i {
        TokensDisjoint(s, p, e, i, j);
        ScanFromComplete(s, e, i, j);
      }
    case None =>
      ScanFromComplete(s, p + 1, i, j);
  }

  /** The scan finds every token of the message. */
  lemma ScanComplete(s: string, i: nat, j: nat)
    requires i <= j <= |s| && IsToken(s[i..j])
    ensures s[i..j] in Scan(s)
  {
    ScanFromComplete(s, 0, i, j);
  }

  /** The scan comes back empty exactly when the message holds no token. */
  lemma ScanEmptyIff(s: string)
    ensures Scan(s) == [] <==> !HasToken(s)
  {
    if Scan(s) != [] {
      ScanSound(s);
      var t := Scan(s)[0];
      assert t in Scan(s);
      var i :| OccursAt(s, t, i);
      assert IsToken(s[i..i + |t|]);
    }
    if HasToken(s) {
      var i, j :| 0 <= i <= j <= |s| && IsToken(s[i..j]);
      ScanComplete(s, i, j);
    }
  }

  // ---------------------------------------------------------------------
  // trim($template, "{}")
  // ---------------------------------------------------------------------

  predicate IsBrace(c: char) {
    c == '{' || c == '}'
  }

  /** Strips every leading and trailing brace, as `trim($template, "{}")` does. */
  function TrimBraces(s: string): (r: string)
    ensures |r| <= |s|
    ensures |r| > 0 ==> !IsBrace(r[0]) && !IsBrace(r[|r| - 1])
    decreases |s|
  {
    if |s| > 0 && IsBrace(s[0]) then TrimBraces(s[1..])
    else if |s| > 0 && IsBrace(s[|s| - 1]) then TrimBraces(s[..|s| - 1])
    else s
  }

  /** The lookup name of a token is the token with its two braces removed. */
  lemma TrimToken(t: string)
    requires IsToken(t)
    ensures TrimBraces(t) == t[1..|t| - 1]
  {
    var u := t[1..];
    var w := u[..|u| - 1];
    assert w == t[1..|t| - 1];
    assert TrimBraces(t) == TrimBraces(u);
    assert u[0] == t[1] && u[|u| - 1] == t[|t| - 1];
    assert TrimBraces(u) == TrimBraces(w);
    assert w[0] == t[1] && w[|w| - 1] == t[|t| - 2];
  }

  // ---------------------------------------------------------------------
  // The substitution map
  // ---------------------------------------------------------------------

  /** A context value as the substitution sees it: PHP's null, or a string. */
  datatype ContextValue = Null | Text(text: string)

  /** The record's context: values by name. */
  type Context = map<string, ContextValue>

  /** `$record->context[$key] ?? $template`: the named value when present and non-null, else the template. */
  function SubstitutionFor(context: Context, template: string): (v: string)
    ensures v != template ==> TrimBraces(template) in context && context[TrimBraces(template)] == Text(v)
  {
    var key := TrimBraces(template);
    if key in context && context[key].Text? then context[key].text else template
  }

  /**
   * A token is looked up under the name between its braces: a non-null
   * value there replaces it, and an absent or null one leaves the token as it is.
   */
  lemma TokenLookup(context: Context, t: string)
    requires IsToken(t)
    ensures var name := t[1..|t| - 1];
      && (name in context && context[name].Text? ==> SubstitutionFor(context, t) == context[name].text)
      && (name !in context || context[name].Null? ==> SubstitutionFor(context, t) == t)
  {
    TrimToken(t);
  }

  /** One entry of the ordered substitution map. */
  datatype Pair = Pair(search: string, replace: string)

  /** The keys of an ordered map, in order. */
  function Keys(m: seq<Pair>): (ks: seq<string>)
    ensures |ks| == |m| && forall k :: 0 <= k < |m| ==> ks[k] == m[k].search
  {
    if m == [] then [] else [m[0].search] + Keys(m[1..])
  }

  /** No key appears twice. */
  predicate Distinct(ks: seq<string>) {
    forall a, b :: 0 <= a < b < |ks| ==> ks[a] != ks[b]
  }

  /**
   * `$carry[$key] = $value` on an ordered PHP array: an existing key keeps
   * its position and takes the new value; a new key goes at the end.
   */
  function Put(m: seq<Pair>, key: string, value: string): (r: seq<Pair>)
    requires Distinct(Keys(m))
    ensures key in Keys(m) ==> Keys(r) == Keys(m)
    ensures key !in Keys(m) ==> Keys(r) == Keys(m) + [key]
    ensures Distinct(Keys(r))
    ensures forall k :: 0 <= k < |r| && r[k].search == key ==> r[k] == Pair(key, value)
    ensures forall k :: 0 <= k < |r| && r[k].search != key ==> k < |m| && r[k] == m[k]
  {
    if m == [] then [Pair(key, value)]
    else if m[0].search == key then [Pair(key, value)] + m[1..]
    else
      var rest := Put(m[1..], key, value);
      assert Keys(m) == [m[0].search] + Keys(m[1..]);
      assert m[0].search !in Keys(m[1..]) by {
        forall k | 0 <= k < |m| - 1 ensures Keys(m[1..])[k] != m[0].search {
          assert Keys(m)[k + 1] == Keys(m[1..])[k];
        }
      }
      DistinctCons(m[0].search, Keys(rest));
      [m[0]] + rest
  }

  /** A key not among distinct keys can go in front of them. */
  lemma DistinctCons(x: string, ks: seq<string>)
    requires Distinct(ks) && x !in ks
    ensures Distinct([x] + ks)
  {
    var r := [x] + ks;
    forall a, b | 0 <= a < b < |r| ensures r[a] != r[b] {
      assert r[b] == ks[b - 1];
      if a > 0 {
        assert r[a] == ks[a - 1];
      }
    }
  }

  /**
   * The `array_reduce` fold over the templates, one `Put` per template, as
   * a recursion on prefixes: the map built from all templates is the map
   * built from all but the last, updated with the last.
   */
  function Reduce(context: Context, templates: seq<string>): (m: seq<Pair>)
    ensures Distinct(Keys(m))
  {
    if templates == [] then []
    else
      var last := templates[|templates| - 1];
      Put(Reduce(context, templates[..|templates| - 1]), last, SubstitutionFor(context, last))
  }

  /** getSubstitutions: no match gives the empty map, otherwise the fold over the matches. */
  function Substitutions(message: string, context: Context): (m: seq<Pair>)
    ensures Distinct(Keys(m))
  {
    var matches := Scan(message);
    if matches == [] then [] else Reduce(context, matches)
  }

  /** A message whose only match is `t` maps `t` to its substitution and nothing else. */
  lemma SubstitutionsOfOne(message: string, t: string, context: Context)
    requires Scan(message) == [t]
    ensures Substitutions(message, context) == [Pair(t, SubstitutionFor(context, t))]
  {
    var ts := [t];
    assert ts[..0] == [];
    assert Reduce(context, ts[..0]) == [];
    assert Reduce(context, ts) == Put([], t, SubstitutionFor(context, t));
    assert Keys([]) == [];
  }

  /** A message whose matches are two distinct tokens maps each to its substitution, in that order. */
  lemma SubstitutionsOfTwo(message: string, t1: string, t2: string, context: Context)
    requires Scan(message) == [t1, t2] && t1 != t2
    ensures Substitutions(message, context) ==
      [Pair(t1, SubstitutionFor(context, t1)), Pair(t2, SubstitutionFor(context, t2))]
  {
    var ts := [t1, t2];
    assert ts[..1] == [t1];
    assert [t1][..0] == [];
    assert Reduce(context, [t1][..0]) == [];
    assert Reduce(context, [t1]) == Put([], t1, SubstitutionFor(context, t1));
    assert Keys([]) == [];
    assert Reduce(context, ts) == Put(Reduce(context, [t1]), t2, SubstitutionFor(context, t2));
  }

  /** The index of the first occurrence of `t` in `ts`. */
  function FirstIndex(ts: seq<string>, t: string): (i: nat)
    requires t in ts
    ensures i < |ts| && ts[i] == t && t !in ts[..i]
  {
    if ts[0] == t then 0 else 1 + FirstIndex(ts[1..], t)
  }

  /** The first occurrence of an element of a prefix is the same in the whole sequence. */
  lemma FirstIndexPrefix(ts: seq<string>, n: nat, t: string)
    requires n <= |ts| && t in ts[..n]
    ensures FirstIndex(ts[..n], t) == FirstIndex(ts, t)
  {
    var i := FirstIndex(ts[..n], t);
    assert ts[i] == t;
  }

  /** Every element of `ks` occurs in `ts`, and `ks` lists them by their first occurrence in `ts`. */
  predicate InFirstOrder(ks: seq<string>, ts: seq<string>) {
    && (forall t :: t in ks ==> t in ts)
    && forall a, b :: 0 <= a < b < |ks| ==>
         ks[a] in ts && ks[b] in ts && FirstIndex(ts, ks[a]) < FirstIndex(ts, ks[b])
  }

  /** Each entry of the map carries the substitution its key calls for in this context. */
  predicate ValuesFrom(context: Context, m: seq<Pair>) {
    forall k :: 0 <= k < |m| ==> m[k].replace == SubstitutionFor(context, m[k].search)
  }

  /** The fold's keys are exactly the templates, without repeats. */
  lemma {:induction false} ReduceKeys(context: Context, templates: seq<string>)
    ensures forall t :: t in Keys(Reduce(context, templates)) <==> t in templates
  {
    if templates != [] {
      var n := |templates| - 1;
      var init, last := templates[..n], templates[n];
      assert templates == init + [last];
      var prev := Reduce(context, init);
      ReduceKeys(context, init);
      assert Reduce(context, templates) == Put(prev, last, SubstitutionFor(context, last));
      assert forall t :: t in Keys(Reduce(context, templates)) <==> t in Keys(prev) || t == last;
    }
  }

  /** The fold lists its keys in the order of their first appearance among the templates. */
  lemma {:induction false} ReduceOrder(context: Context, templates: seq<string>)
    ensures InFirstOrder(Keys(Reduce(context, templates)), templates)
  {
    if templates != [] {
      var n := |templates| - 1;
      var init, last := templates[..n], templates[n];
      assert templates == init + [last];
      var m := Reduce(context, init);
      assert Reduce(context, templates) == Put(m, last, SubstitutionFor(context, last));
      ReduceOrder(context, init);
      ReduceKeys(context, init);
      OrderStep(m, init, last, SubstitutionFor(context, last));
    }
  }

  /** Appending a template keeps the first-appearance order, adding the template at the end when it is new. */
  lemma OrderStep(m: seq<Pair>, init: seq<string>, last: string, value: string)
    requires Distinct(Keys(m)) && InFirstOrder(Keys(m), init)
    requires forall t :: t in Keys(m) <==> t in init
    ensures InFirstOrder(Keys(Put(m, last, value)), init + [last])
  {
    var pk := Keys(m);
    var ts := init + [last];
    forall t | t in init ensures FirstIndex(ts, t) == FirstIndex(init, t) {
      FirstIndexAppend(init, last, t);
    }
    if last !in pk {
      OrderStepNew(pk, init, last);
    }
  }

  /** Appending an element does not move the first occurrence of anything already present. */
  lemma FirstIndexAppend(init: seq<string>, last: string, t: string)
    requires t in init
    ensures FirstIndex(init + [last], t) == FirstIndex(init, t)
  {
    var ts := init + [last];
    assert init == ts[..|init|];
    FirstIndexPrefix(ts, |init|, t);
  }

  /** The case of OrderStep where `last` is new: it goes after every earlier key. */
  lemma OrderStepNew(pk: seq<string>, init: seq<string>, last: string)
    requires InFirstOrder(pk, init)
    requires forall t :: t in pk <==> t in init
    requires last !in pk
    requires forall t :: t in init ==> FirstIndex(init + [last], t) == FirstIndex(init, t)
    ensures InFirstOrder(pk + [last], init + [last])
  {
    var ts := init + [last];
    var ks := pk + [last];
    var n := |init|;
    assert FirstIndex(ts, last) == n;
    forall a, b | 0 <= a < b < |ks|
      ensures ks[a] in ts && ks[b] in ts && FirstIndex(ts, ks[a]) < FirstIndex(ts, ks[b])
    {
      assert ks[a] == pk[a];
      if b < |pk| {
        assert ks[b] == pk[b];
      }
    }
  }

  /** Every entry of the fold maps its template to that template's substitution. */
  lemma {:induction false} ReduceValues(context: Context, templates: seq<string>)
    ensures ValuesFrom(context, Reduce(context, templates))
  {
    if templates != [] {
      var n := |templates| - 1;
      ReduceValues(context, templates[..n]);
      PutValues(context, Reduce(context, templates[..n]), templates[n]);
    }
  }

  /** Putting a template with its own substitution keeps every value drawn from the context. */
  lemma PutValues(context: Context, m: seq<Pair>, key: string)
    requires Distinct(Keys(m)) && ValuesFrom(context, m)
    ensures ValuesFrom(context, Put(m, key, SubstitutionFor(context, key)))
  {
    var v := SubstitutionFor(context, key);
    var r := Put(m, key, v);
    forall k | 0 <= k < |r| ensures r[k].replace == SubstitutionFor(context, r[k].search) {
      if r[k].search == key {
        assert r[k] == Pair(key, v);
      } else {
        assert r[k] == m[k];
      }
    }
  }

  /**
   * The keys of the substitution map are exactly the distinct tokens of the
   * message, in the order of their first match; each maps to its context
   * value, or to itself when that value is missing or null.
   */
  lemma SubstitutionsShape(message: string, context: Context)
    ensures var m := Substitutions(message, context);
      && Distinct(Keys(m))
      && (forall t :: t in Keys(m) <==> t in Scan(message))
      && InFirstOrder(Keys(m), Scan(message))
      && ValuesFrom(context, m)
  {
    ReduceKeys(context, Scan(message));
    ReduceOrder(context, Scan(message));
    ReduceValues(context, Scan(message));
  }

  /** Every key of the substitution map is a token of the message, looked up by its inner name. */
  lemma SubstitutionKeysAreTokens(message: string, context: Context, t: string)
    requires t in Keys(Substitutions(message, context))
    ensures IsToken(t) && (exists i :: OccursAt(message, t, i))
    ensures TrimBraces(t) == t[1..|t| - 1]
  {
    SubstitutionsShape(message, context);
    ScanSound(message);
    TrimToken(t);
  }

  /** A message without tokens gives the empty map. */
  lemma SubstitutionsEmptyIff(message: string, context: Context)
    ensures Substitutions(message, context) == [] <==> !HasToken(message)
  {
    ScanEmptyIff(message);
    if Scan(message) != [] {
      SubstitutionsShape(message, context);
      assert Scan(message)[0] in Keys(Substitutions(message, context));
    }
  }

  /**
   * A context entry that no token of the message names never enters the
   * map: no key's lookup name is that entry's name.
   */
  lemma UnreferencedContextIgnored(message: string, context: Context, name: string)
    requires !(IsToken("{" + name + "}") && exists i :: OccursAt(message, "{" + name + "}", i))
    ensures forall t :: t in Keys(Substitutions(message, context)) ==> TrimBraces(t) != name
  {
    forall t | t in Keys(Substitutions(message, context)) ensures TrimBraces(t) != name {
      SubstitutionKeysAreTokens(message, context, t);
      if TrimBraces(t) == name {
        TokenOfName(t, name);
      }
    }
  }

  /**
   * `{name}` is a token exactly when `name` is a non-empty run of word
   * characters; a dotted name such as `user.id`, or the empty name, is not,
   * so its braces stay literal text and its context entry is never looked up.
   */
  lemma BracedNameIsToken(name: string)
    ensures IsToken("{" + name + "}") <==> |name| > 0 && forall k :: 0 <= k < |name| ==> IsWordChar(name[k])
  {
    var t := "{" + name + "}";
    if IsToken(t) {
      forall k | 0 <= k < |name| ensures IsWordChar(name[k]) {
        assert name[k] == t[k + 1];
      }
    }
    if |name| > 0 && forall k :: 0 <= k < |name| ==> IsWordChar(name[k]) {
      forall k | 1 <= k < |t| - 1 ensures IsWordChar(t[k]) {
        assert t[k] == name[k - 1];
      }
    }
  }

  /** The only token whose lookup name is `name` is `{name}`. */
  lemma TokenOfName(t: string, name: string)
    requires IsToken(t) && TrimBraces(t) == name
    ensures t == "{" + name + "}"
  {
    TrimToken(t);
  }

  /**
   * Adding or changing a context entry that no token names leaves the map
   * unchanged: the formatter ignores context it does not reference.
   */
  lemma {:induction false} ReduceIgnoresUnreferenced(context: Context, templates: seq<string>, name: string, v: ContextValue)
    requires forall t :: t in templates ==> TrimBraces(t) != name
    ensures Reduce(context[name := v], templates) == Reduce(context, templates)
  {
    if templates != [] {
      var n := |templates| - 1;
      var init, last := templates[..n], templates[n];
      assert forall t :: t in init ==> t in templates;
      ReduceIgnoresUnreferenced(context, init, name, v);
      SubstitutionIgnores(context, last, name, v);
    }
  }

  /** The substitution of a template whose lookup name is not `name` ignores the entry under `name`. */
  lemma SubstitutionIgnores(context: Context, template: string, name: string, v: ContextValue)
    requires TrimBraces(template) != name
    ensures SubstitutionFor(context[name := v], template) == SubstitutionFor(context, template)
  {
  }

  /** The substitution map does not depend on context entries that no token of the message names. */
  lemma SubstitutionsIgnoreUnreferenced(message: string, context: Context, name: string, v: ContextValue)
    requires !(IsToken("{" + name + "}") && exists i :: OccursAt(message, "{" + name + "}", i))
    ensures Substitutions(message, context[name := v]) == Substitutions(message, context)
  {
    ScanSound(message);
    forall t | t in Scan(message) ensures TrimBraces(t) != name {
      if TrimBraces(t) == name {
        TokenOfName(t, name);
      }
    }
    if Scan(message) != [] {
      ReduceIgnoresUnreferenced(context, Scan(message), name, v);
    }
  }
}
