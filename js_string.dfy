/**
 * The part of ECMAScript's `String.prototype.replace` that the endpoint
 * templating relies on: a call whose pattern is a STRING (not a regular
 * expression) and whose replacement is a string. Only the first occurrence
 * of the pattern is replaced, and the replacement text is expanded by the
 * GetSubstitution operation of ECMA-262, which gives `$$`, `$&`, `` $` `` and
 * `$'` a special meaning even when the pattern is a plain string.
 */
module JsString {
  import opened Wrappers

  /** `pat` occurs in `s` starting at index `i`. */
  predicate MatchAt(s: string, pat: string, i: int) {
    0 <= i && i + |pat| <= |s| && s[i..i + |pat|] == pat
  }

  /** `i` is the index of the first occurrence of `pat` in `s`. */
  predicate FirstMatch(s: string, pat: string, i: int) {
    MatchAt(s, pat, i) && forall j :: 0 <= j < i ==> !MatchAt(s, pat, j)
  }

  /** `pat` does not occur anywhere in `s`. */
  predicate NoMatch(s: string, pat: string) {
    forall i :: 0 <= i <= |s| ==> !MatchAt(s, pat, i)
  }

  /** There is at most one first occurrence. */
  lemma FirstMatchUnique(s: string, pat: string, i: int, k: int)
    requires FirstMatch(s, pat, i) && FirstMatch(s, pat, k)
    ensures i == k
  {
  }

  /** The search of StringIndexOf, from index `from` onward. */
  function FindFrom(s: string, pat: string, from: nat): (r: Option<nat>)
    decreases |s| - from
    ensures r.Some? ==> from <= r.value && MatchAt(s, pat, r.value)
    ensures r.Some? ==> forall j :: from <= j < r.value ==> !MatchAt(s, pat, j)
    ensures r.None? ==> forall j :: from <= j ==> !MatchAt(s, pat, j)
  {
    if from + |pat| > |s| then None
    else if s[from..from + |pat|] == pat then Some(from)
    else FindFrom(s, pat, from + 1)
  }

  /**
   * StringIndexOf(s, pat, 0): the index of the first occurrence, or `None`
   * (JavaScript's -1). An empty pattern occurs at index 0.
   */
  function FirstIndexOf(s: string, pat: string): (r: Option<nat>)
    ensures r.Some? <==> !NoMatch(s, pat)
    ensures r.Some? ==> FirstMatch(s, pat, r.value)
  {
    FindFrom(s, pat, 0)
  }

  /**
   * GetSubstitution for a string pattern (no capture groups, no named
   * groups): `$$` gives `$`, `$&` the matched text, `` $` `` the text before
   * the match, `$'` the text after it; every other character, including a
   * `$` followed by a digit or by `<`, is copied as it is.
   */
  function GetSubstitution(rep: string, before: string, matched: string, after: string): (r: string)
    decreases |rep|
    ensures '$' !in rep ==> r == rep
  {
    if |rep| == 0 then ""
    else if rep[0] == '$' && |rep| >= 2 && rep[1] == '$' then
      "$" + GetSubstitution(rep[2..], before, matched, after)
    else if rep[0] == '$' && |rep| >= 2 && rep[1] == '&' then
      matched + GetSubstitution(rep[2..], before, matched, after)
    else if rep[0] == '$' && |rep| >= 2 && rep[1] == '`' then
      before + GetSubstitution(rep[2..], before, matched, after)
    else if rep[0] == '$' && |rep| >= 2 && rep[1] == '\'' then
      after + GetSubstitution(rep[2..], before, matched, after)
    else
      [rep[0]] + GetSubstitution(rep[1..], before, matched, after)
  }

  /**
   * `s.replace(pat, rep)` with a string `pat`: the first occurrence of `pat`
   * is replaced by the expansion of `rep`; the text before and after it is
   * kept verbatim; without an occurrence `s` is returned unchanged.
   */
  function ReplaceFirst(s: string, pat: string, rep: string): string {
    match FirstIndexOf(s, pat)
    case None => s
    case Some(i) =>
      var after := s[i + |pat|..];
      s[..i] + GetSubstitution(rep, s[..i], pat, after) + after
  }

  /**
   * At the first occurrence: the text before it and after it is kept
   * verbatim, the occurrence itself becomes the expansion of `rep`, and a
   * replacement without `$` is inserted literally.
   */
  lemma ReplaceFirstAt(s: string, pat: string, rep: string, i: nat)
    requires FirstMatch(s, pat, i)
    ensures ReplaceFirst(s, pat, rep)
         == s[..i] + GetSubstitution(rep, s[..i], pat, s[i + |pat|..]) + s[i + |pat|..]
    ensures '$' !in rep ==> ReplaceFirst(s, pat, rep) == s[..i] + rep + s[i + |pat|..]
  {
    var r := FirstIndexOf(s, pat);
    assert !NoMatch(s, pat);
    FirstMatchUnique(s, pat, r.value, i);
  }

  /** Without an occurrence the string comes back unchanged. */
  lemma ReplaceFirstAbsent(s: string, pat: string, rep: string)
    requires NoMatch(s, pat)
    ensures ReplaceFirst(s, pat, rep) == s
  {
  }

  /**
   * Only the first occurrence is rewritten: with a `$`-free replacement,
   * every later occurrence that does not overlap the first one is still an
   * occurrence in the result, shifted by the change in length.
   */
  lemma ReplaceFirstKeepsLaterMatches(s: string, pat: string, rep: string, i: nat, j: nat)
    requires '$' !in rep
    requires FirstMatch(s, pat, i)
    requires MatchAt(s, pat, j) && i + |pat| <= j
    ensures MatchAt(ReplaceFirst(s, pat, rep), pat, j - |pat| + |rep|)
  {
    var r := ReplaceFirst(s, pat, rep);
    var k := j - |pat| + |rep|;
    ReplaceFirstAt(s, pat, rep, i);
    assert r[k..k + |pat|] == s[j..j + |pat|] by {
      forall t | k <= t < k + |pat|
        ensures r[t] == s[t - k + j]
      {
        assert r[t] == s[i + |pat|..][t - i - |rep|];
      }
    }
  }

  /**
   * A prefix that cannot hold the pattern: when the pattern has a `:` at
   * index `k`, no `:` before it, and `p` has no `:` at all, no occurrence of
   * the pattern in `p + pat + q` starts inside `p`.
   */
  lemma NoMatchInColonFreePrefix(p: string, pat: string, q: string, k: nat)
    requires k < |pat| && pat[k] == ':' && ':' !in pat[..k]
    requires ':' !in p
    ensures FirstMatch(p + pat + q, pat, |p|)
  {
    var s := p + pat + q;
    assert s[|p|..|p| + |pat|] == pat;
    forall j | 0 <= j < |p|
      ensures !MatchAt(s, pat, j)
    {
      if j + |pat| <= |s| {
        assert s[j + k] != ':' by {
          if j + k < |p| {
            assert s[j + k] == p[j + k];
          } else {
            assert s[j + k] == pat[..k][j + k - |p|];
          }
        }
        assert s[j..j + |pat|][k] != pat[k];
      }
    }
  }

  /**
   * `ch` never follows a `:` in `x`: every `:` in `x` is followed, inside
   * `x`, by a character other than `ch`. A string without `:` has this
   * property for every `ch`.
   */
  predicate ColonsNotFollowedBy(x: string, ch: char) {
    forall i :: 0 <= i < |x| && x[i] == ':' ==> i + 1 < |x| && x[i + 1] != ch
  }

  lemma ColonsNotFollowedByConcat(a: string, b: string, ch: char)
    requires ColonsNotFollowedBy(a, ch) && ColonsNotFollowedBy(b, ch)
    ensures ColonsNotFollowedBy(a + b, ch)
  {
    var x := a + b;
    forall i | 0 <= i < |x| && x[i] == ':'
      ensures i + 1 < |x| && x[i + 1] != ch
    {
      if i < |a| {
        assert a[i] == ':';
      } else {
        assert b[i - |a|] == ':';
      }
    }
  }

  /**
   * For a pattern that starts with `:` followed by `pat[1]`, no occurrence
   * starts inside a prefix in which no `:` is followed by `pat[1]`.
   */
  lemma NoMatchInGuardedPrefix(x: string, pat: string, q: string)
    requires |pat| >= 2 && pat[0] == ':'
    requires ColonsNotFollowedBy(x, pat[1])
    ensures FirstMatch(x + pat + q, pat, |x|)
  {
    var s := x + pat + q;
    assert s[|x|..|x| + |pat|] == pat;
    forall j | 0 <= j < |x|
      ensures !MatchAt(s, pat, j)
    {
      if j + |pat| <= |s| {
        assert s[j] == x[j];
        if x[j] == ':' {
          assert s[j + 1] == x[j + 1];
          assert s[j..j + |pat|][1] != pat[1];
        } else {
          assert s[j..j + |pat|][0] != pat[0];
        }
      }
    }
  }

  /** The same as ReplaceAfterColonFreePrefix, for a guarded prefix. */
  lemma ReplaceAfterGuardedPrefix(x: string, pat: string, q: string, rep: string)
    requires |pat| >= 2 && pat[0] == ':'
    requires ColonsNotFollowedBy(x, pat[1]) && '$' !in rep
    ensures ReplaceFirst(x + pat + q, pat, rep) == x + rep + q
  {
    var s := x + pat + q;
    NoMatchInGuardedPrefix(x, pat, q);
    ReplaceFirstAt(s, pat, rep, |x|);
    assert s[..|x|] == x;
    assert s[|x| + |pat|..] == q;
  }

  /**
   * Replacing a placeholder that begins right after a `:`-free prefix puts
   * the replacement exactly there and keeps both sides verbatim.
   */
  lemma ReplaceAfterColonFreePrefix(p: string, pat: string, q: string, rep: string, k: nat)
    requires k < |pat| && pat[k] == ':' && ':' !in pat[..k]
    requires ':' !in p && '$' !in rep
    ensures ReplaceFirst(p + pat + q, pat, rep) == p + rep + q
  {
    var s := p + pat + q;
    NoMatchInColonFreePrefix(p, pat, q, k);
    ReplaceFirstAt(s, pat, rep, |p|);
    assert s[..|p|] == p;
    assert s[|p| + |pat|..] == q;
  }

  /**
   * A replacement of `$&` is not taken literally: it re-inserts the matched
   * text, so replacing the first occurrence of any pattern by `$&` gives the
   * string back unchanged.
   */
  lemma DollarAmpersandReinsertsMatch(s: string, pat: string, i: nat)
    requires FirstMatch(s, pat, i)
    ensures ReplaceFirst(s, pat, "$&") == s
  {
    ReplaceFirstAt(s, pat, "$&", i);
    AmpersandIsMatched(s[..i], pat, s[i + |pat|..]);
    SplitAtMatch(s, pat, i);
  }

  lemma AmpersandIsMatched(before: string, matched: string, after: string)
    ensures GetSubstitution("$&", before, matched, after) == matched
  {
    var amp := "$&";
    assert amp[0] == '$' && amp[1] == '&' && amp[2..] == "";
  }

  lemma SplitAtMatch(s: string, pat: string, i: nat)
    requires MatchAt(s, pat, i)
    ensures s == s[..i] + pat + s[i + |pat|..]
  {
    assert s == s[..i] + s[i..i + |pat|] + s[i + |pat|..];
  }

  /**
   * `v` with every `$` doubled: the replacement string that GetSubstitution
   * expands back to exactly `v`.
   */
  function EscapeDollars(v: string): (r: string)
    decreases |v|
    ensures '$' !in v ==> r == v
    ensures |r| == |v| + multiset(v)['$']
  {
    if |v| == 0 then ""
    else
      assert v == [v[0]] + v[1..];
      if v[0] == '$' then "$$" + EscapeDollars(v[1..])
      else [v[0]] + EscapeDollars(v[1..])
  }

  /** An escaped value is inserted literally, whatever `$` patterns it holds. */
  lemma {:induction false} EscapedSubstitutionIsLiteral(v: string, before: string, matched: string, after: string)
    decreases |v|
    ensures GetSubstitution(EscapeDollars(v), before, matched, after) == v
  {
    if |v| > 0 {
      var e := EscapeDollars(v[1..]);
      EscapedSubstitutionIsLiteral(v[1..], before, matched, after);
      if v[0] == '$' {
        assert ("$$" + e)[2..] == e;
      } else {
        assert ([v[0]] + e)[1..] == e;
      }
      assert v == [v[0]] + v[1..];
    }
  }

  /** Replacing by an escaped value inserts the value itself at the first occurrence. */
  lemma ReplaceFirstEscapedAt(s: string, pat: string, v: string, i: nat)
    requires FirstMatch(s, pat, i)
    ensures ReplaceFirst(s, pat, EscapeDollars(v)) == s[..i] + v + s[i + |pat|..]
  {
    ReplaceFirstAt(s, pat, EscapeDollars(v), i);
    EscapedSubstitutionIsLiteral(v, s[..i], pat, s[i + |pat|..]);
  }
}
