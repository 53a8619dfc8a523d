/**
 * PHP's `str_replace` with array arguments: the pairs are applied one after
 * the other, each pass replacing every non-overlapping occurrence of its
 * search string from left to right in the result of the previous pass.
 */
module Replacement {
  import opened Placeholders

  /** True when `search` occurs somewhere in `s`. */
  predicate Contains(s: string, search: string) {
    exists i :: 0 <= i <= |s| && OccursAt(s, search, i)
  }

  /**
   * One pass: every occurrence of `search`, scanning left to right and
   * resuming after each replaced occurrence, becomes `replace`. The
   * inserted text is not scanned again. An empty search string leaves the
   * subject as it is.
   */
  function ReplaceAll(subject: string, search: string, replace: string): (r: string)
    ensures |search| > 0 && |replace| == |search| ==> |r| == |subject|
    decreases |subject|
  {
    if |search| == 0 || |subject| < |search| then subject
    else if subject[..|search|] == search then replace + ReplaceAll(subject[|search|..], search, replace)
    else [subject[0]] + ReplaceAll(subject[1..], search, replace)
  }

  /** `str_replace(array_keys($m), array_values($m), $subject)`: the passes in the map's order. */
  function StrReplace(m: seq<Pair>, subject: string): (r: string)
    ensures (forall k :: 0 <= k < |m| ==> |m[k].search| > 0 && |m[k].replace| == |m[k].search|) ==> |r| == |subject|
    decreases |m|
  {
    if m == [] then subject
    else StrReplace(m[1..], ReplaceAll(subject, m[0].search, m[0].replace))
  }

  /** Replacing a string by itself changes nothing. */
  lemma {:induction false} ReplaceAllIdentity(subject: string, search: string)
    ensures ReplaceAll(subject, search, search) == subject
    decreases |subject|
  {
    if |search| == 0 || |subject| < |search| {
    } else if subject[..|search|] == search {
      ReplaceAllIdentity(subject[|search|..], search);
      assert subject == search + subject[|search|..];
    } else {
      ReplaceAllIdentity(subject[1..], search);
      assert subject == [subject[0]] + subject[1..];
    }
  }

  /** A search string that does not occur leaves the subject unchanged. */
  lemma {:induction false} ReplaceAllAbsent(subject: string, search: string, replace: string)
    requires !Contains(subject, search)
    ensures ReplaceAll(subject, search, replace) == subject
    decreases |subject|
  {
    if |search| == 0 || |subject| < |search| {
    } else {
      assert !OccursAt(subject, search, 0);
      assert !Contains(subject[1..], search) by {
        if Contains(subject[1..], search) {
          var rest := subject[1..];
          var i :| 0 <= i <= |rest| && OccursAt(rest, search, i);
          assert rest[i..i + |search|] == subject[i + 1..i + 1 + |search|];
          assert OccursAt(subject, search, i + 1);
        }
      }
      ReplaceAllAbsent(subject[1..], search, replace);
      assert subject == [subject[0]] + subject[1..];
    }
  }

  /**
   * A character that the search string does not contain is never part of a
   * replaced occurrence: a final such character stays final.
   */
  lemma {:induction false} ReplaceAllKeepsLast(subject: string, c: char, search: string, replace: string)
    requires c !in search
    ensures ReplaceAll(subject + [c], search, replace) == ReplaceAll(subject, search, replace) + [c]
    decreases |subject|
  {
    var s := subject + [c];
    if |search| == 0 || |s| < |search| {
    } else if |subject| < |search| {
      KeepsLastShort(subject, c, search, replace);
    } else if s[..|search|] == search {
      assert subject[..|search|] == search;
      assert s[|search|..] == subject[|search|..] + [c];
      ReplaceAllKeepsLast(subject[|search|..], c, search, replace);
    } else {
      assert subject[..|search|] != search;
      assert s[1..] == subject[1..] + [c];
      ReplaceAllKeepsLast(subject[1..], c, search, replace);
    }
  }

  /**
   * The case of ReplaceAllKeepsLast where only the window ending with `c`
   * is long enough, and `search` lacks `c`: nothing is replaced.
   */
  lemma KeepsLastShort(subject: string, c: char, search: string, replace: string)
    requires c !in search && |subject| < |search| <= |subject| + 1
    ensures ReplaceAll(subject + [c], search, replace) == subject + [c]
  {
    var s := subject + [c];
    assert s[..|search|] == s;
    assert s[|s| - 1] == c;
    assert s[..|search|] != search;
    ReplaceAllShort(s[1..], search, replace);
  }

  /** Characters before the first possible start of an occurrence are copied as they are. */
  lemma {:induction false} ReplaceAllSkip(subject: string, search: string, replace: string, p: nat)
    requires |search| > 0 && p <= |subject|
    requires forall k :: 0 <= k < p ==> subject[k] != search[0]
    ensures ReplaceAll(subject, search, replace) == subject[..p] + ReplaceAll(subject[p..], search, replace)
    decreases p
  {
    if p > 0 && |subject| >= |search| {
      assert subject[..|search|][0] == subject[0];
      ReplaceAllSkip(subject[1..], search, replace, p - 1);
      assert subject[1..][p - 1..] == subject[p..];
      assert subject[..p] == [subject[0]] + subject[1..][..p - 1];
    } else if p > 0 {
      assert subject[..p] + subject[p..] == subject;
      ReplaceAllShort(subject[p..], search, replace);
    }
  }

  /** An occurrence at the very start is replaced, and the pass resumes after it. */
  lemma ReplaceAllStart(search: string, rest: string, replace: string)
    requires |search| > 0
    ensures ReplaceAll(search + rest, search, replace) == replace + ReplaceAll(rest, search, replace)
  {
    assert (search + rest)[..|search|] == search;
    assert (search + rest)[|search|..] == rest;
  }

  /**
   * A subject in which the search string occurs once, with no other
   * character equal to its first one, has that single occurrence replaced.
   */
  lemma ReplaceOne(a: string, search: string, b: string, replace: string)
    requires |search| > 0
    requires forall k :: 0 <= k < |a| ==> a[k] != search[0]
    requires forall k :: 0 <= k < |b| ==> b[k] != search[0]
    ensures ReplaceAll(a + search + b, search, replace) == a + replace + b
  {
    var s := a + search + b;
    assert s[..|a|] == a;
    assert s[|a|..] == search + b;
    forall k | 0 <= k < |a| ensures s[k] != search[0] {
      assert s[k] == a[k];
    }
    ReplaceAllSkip(s, search, replace, |a|);
    ReplaceAllStart(search, b, replace);
    ReplaceAllSkip(b, search, replace, |b|);
    assert b[..|b|] == b && b[|b|..] == [];
    assert ReplaceAll(b, search, replace) == b;
    assert a + (replace + b) == a + replace + b;
  }

  /** A subject shorter than the search string is left as it is. */
  lemma ReplaceAllShort(subject: string, search: string, replace: string)
    requires |subject| < |search|
    ensures ReplaceAll(subject, search, replace) == subject
  {
  }

  /** A two-entry map applies its first pass, then its second to the result. */
  lemma StrReplaceTwo(first: Pair, second: Pair, subject: string)
    ensures StrReplace([first, second], subject) ==
      ReplaceAll(ReplaceAll(subject, first.search, first.replace), second.search, second.replace)
  {
    var m := [first, second];
    var pass1 := ReplaceAll(subject, first.search, first.replace);
    var pass2 := ReplaceAll(pass1, second.search, second.replace);
    assert m[1..] == [second];
    assert [second][1..] == [];
    assert StrReplace([second], pass1) == StrReplace([], pass2);
  }

  /** A map whose every entry maps its key to itself leaves the subject unchanged. */
  lemma {:induction false} StrReplaceIdentity(m: seq<Pair>, subject: string)
    requires forall k :: 0 <= k < |m| ==> m[k].replace == m[k].search
    ensures StrReplace(m, subject) == subject
    decreases |m|
  {
    if m != [] {
      ReplaceAllIdentity(subject, m[0].search);
      StrReplaceIdentity(m[1..], subject);
    }
  }

  /** A final character that no search string contains is still final after all the passes. */
  lemma {:induction false} StrReplaceKeepsLast(m: seq<Pair>, subject: string, c: char)
    requires forall k :: 0 <= k < |m| ==> c !in m[k].search
    ensures exists body :: StrReplace(m, subject + [c]) == body + [c]
    decreases |m|
  {
    if m == [] {
      assert StrReplace(m, subject + [c]) == subject + [c];
    } else {
      ReplaceAllKeepsLast(subject, c, m[0].search, m[0].replace);
      StrReplaceKeepsLast(m[1..], ReplaceAll(subject, m[0].search, m[0].replace), c);
    }
  }

  /**
   * A pass splits at a boundary that no occurrence of the search string
   * crosses: the parts on either side are processed independently.
   */
  lemma {:induction false} ReplaceAllSplit(x: string, y: string, search: string, replace: string)
    requires forall k :: 0 <= k < |x| < k + |search| ==> !OccursAt(x + y, search, k)
    ensures ReplaceAll(x + y, search, replace) == ReplaceAll(x, search, replace) + ReplaceAll(y, search, replace)
    decreases |x|
  {
    var s := x + y;
    if |search| == 0 {
    } else if x == [] {
      assert s == y;
    } else if |s| < |search| {
    } else if s[..|search|] == search {
      assert |search| <= |x| by {
        assert OccursAt(s, search, 0);
      }
      CrossFreeShift(x, y, search, |search|);
      ReplaceAllSplit(x[|search|..], y, search, replace);
      SplitMatchFront(x, y, search, replace);
    } else {
      CrossFreeShift(x, y, search, 1);
      ReplaceAllSplit(x[1..], y, search, replace);
      SplitCopyFront(x, y, search, replace);
    }
  }

  /** The step of ReplaceAllSplit where an occurrence starts the subject and lies within `x`. */
  lemma SplitMatchFront(x: string, y: string, search: string, replace: string)
    requires 0 < |search| <= |x| && x[..|search|] == search
    requires var rest := x[|search|..];
      ReplaceAll(rest + y, search, replace) == ReplaceAll(rest, search, replace) + ReplaceAll(y, search, replace)
    ensures ReplaceAll(x + y, search, replace) == ReplaceAll(x, search, replace) + ReplaceAll(y, search, replace)
  {
    assert (x + y)[..|search|] == search;
    assert (x + y)[|search|..] == x[|search|..] + y;
  }

  /** The step of ReplaceAllSplit where the subject starts with a character that is copied. */
  lemma SplitCopyFront(x: string, y: string, search: string, replace: string)
    requires 0 < |search| && 0 < |x| && |search| <= |x + y| && (x + y)[..|search|] != search
    requires ReplaceAll(x[1..] + y, search, replace) == ReplaceAll(x[1..], search, replace) + ReplaceAll(y, search, replace)
    ensures ReplaceAll(x + y, search, replace) == ReplaceAll(x, search, replace) + ReplaceAll(y, search, replace)
  {
    CopyFront(x, y, search, replace);
    assert [x[0]] + (ReplaceAll(x[1..], search, replace) + ReplaceAll(y, search, replace))
      == ([x[0]] + ReplaceAll(x[1..], search, replace)) + ReplaceAll(y, search, replace);
  }

  /** Both `x + y` and `x` lose their first character to the copy when no occurrence starts there. */
  lemma CopyFront(x: string, y: string, search: string, replace: string)
    requires 0 < |search| && 0 < |x| && |search| <= |x + y| && (x + y)[..|search|] != search
    ensures ReplaceAll(x + y, search, replace) == [x[0]] + ReplaceAll(x[1..] + y, search, replace)
    ensures ReplaceAll(x, search, replace) == [x[0]] + ReplaceAll(x[1..], search, replace)
  {
    assert (x + y)[1..] == x[1..] + y;
    if |x| >= |search| {
      assert x[..|search|] == (x + y)[..|search|];
    } else {
      ReplaceAllShort(x[1..], search, replace);
      assert x == [x[0]] + x[1..];
    }
  }

  /** Dropping a prefix of `x` keeps the boundary between `x` and `y` free of crossing occurrences. */
  lemma CrossFreeShift(x: string, y: string, search: string, d: nat)
    requires d <= |x|
    requires forall k :: 0 <= k < |x| < k + |search| ==> !OccursAt(x + y, search, k)
    ensures forall k :: 0 <= k < |x| - d < k + |search| ==> !OccursAt(x[d..] + y, search, k)
  {
    assert x[d..] + y == (x + y)[d..];
    forall k | 0 <= k < |x| - d < k + |search| ensures !OccursAt(x[d..] + y, search, k) {
      OccursShift(x + y, d, search, k);
    }
  }

  /**
   * A token occurring in the subject still occurs after a pass whose
   * search string is another token, or the token itself mapped to itself:
   * occurrences of different tokens never overlap, so the pass cannot
   * touch it.
   */
  lemma PassKeepsToken(s: string, t: string, b: nat, u: string, v: string)
    requires IsToken(t) && IsToken(u) && OccursAt(s, t, b)
    requires u == t ==> v == t
    ensures Contains(ReplaceAll(s, u, v), t)
  {
    if u == t {
      ReplaceAllIdentity(s, t);
      assert OccursAt(ReplaceAll(s, u, v), t, b);
    } else {
      var e := b + |t|;
      CrossFree(s, t, b, u, e);
      SplitAt(s, e, u, v);
      var pre := s[..e];
      assert pre[b..] == t;
      assert OccursAt(pre, t, b);
      CrossFree(pre, t, b, u, b);
      SplitAt(pre, b, u, v);
      TokenNotInside(t, u);
      ReplaceAllAbsent(t, u, v);
      var before := ReplaceAll(pre[..b], u, v);
      assert ReplaceAll(s, u, v) == before + t + ReplaceAll(s[e..], u, v);
      assert OccursAt(ReplaceAll(s, u, v), t, |before|);
    }
  }

  /** No occurrence of a different token crosses the start or the end of an occurrence of `t`. */
  lemma CrossFree(s: string, t: string, b: nat, u: string, d: nat)
    requires IsToken(t) && IsToken(u) && u != t && OccursAt(s, t, b)
    requires d == b || d == b + |t|
    ensures forall k :: 0 <= k < d < k + |u| ==> !OccursAt(s, u, k)
  {
    forall k | 0 <= k < d < k + |u| ensures !OccursAt(s, u, k) {
      if OccursAt(s, u, k) {
        TokensApart(s, u, k, t, b);
      }
    }
  }

  /** ReplaceAllSplit at a position of one subject. */
  lemma SplitAt(s: string, d: nat, search: string, replace: string)
    requires d <= |s|
    requires forall k :: 0 <= k < d < k + |search| ==> !OccursAt(s, search, k)
    ensures ReplaceAll(s, search, replace) == ReplaceAll(s[..d], search, replace) + ReplaceAll(s[d..], search, replace)
  {
    assert s == s[..d] + s[d..];
    ReplaceAllSplit(s[..d], s[d..], search, replace);
  }

  /**
   * A token occurring in the subject survives every pass of a map whose
   * search strings are tokens and which maps that token, if at all, to itself.
   */
  lemma {:induction false} StrReplaceKeepsToken(m: seq<Pair>, subject: string, t: string)
    requires IsToken(t) && Contains(subject, t)
    requires forall k :: 0 <= k < |m| ==> IsToken(m[k].search)
    requires forall k :: 0 <= k < |m| && m[k].search == t ==> m[k].replace == t
    ensures Contains(StrReplace(m, subject), t)
    decreases |m|
  {
    if m != [] {
      var b :| 0 <= b <= |subject| && OccursAt(subject, t, b);
      PassKeepsToken(subject, t, b, m[0].search, m[0].replace);
      StrReplaceKeepsToken(m[1..], ReplaceAll(subject, m[0].search, m[0].replace), t);
    }
  }
}
