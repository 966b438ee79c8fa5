/**
 * The scan `re.sub` and `re.findall` perform, for any pattern: try the
 * pattern at each position from the left; where it matches, take the whole
 * match and continue after it, otherwise move on by one character. The
 * pattern is a parameter here, so what is proved in this module holds for
 * every pattern.
 */
module Scan {
  import opened Wrappers

  /** A pattern tried at the start of a string: the length of the match, or `None`. */
  type Matcher = string -> Option<nat>

  /** A match is never empty and never runs past the end of the string. */
  ghost predicate IsMatcher(m: Matcher)
  {
    forall s :: m(s).Some? ==> 1 <= m(s).value <= |s|
  }

  /** A match starts at position `i` of `t`. */
  ghost predicate MatchesAt(t: string, i: nat, m: Matcher)
  {
    i < |t| && m(t[i..]).Some?
  }

  /** Some position of `t` starts a match. */
  ghost predicate HasMatch(t: string, m: Matcher)
  {
    exists i :: 0 <= i < |t| && MatchesAt(t, i, m)
  }

  /** `re.sub(pattern, value, t, count)`: the leftmost non-overlapping
      matches, replaced by `value` from left to right, at most `count` of
      them (a `count` of zero here means none); the text after the last
      replaced match is copied unchanged. */
  function Replace(t: string, m: Matcher, value: string, count: nat): string
    requires IsMatcher(m)
    decreases |t|
  {
    if count == 0 || |t| == 0 then t
    else match m(t)
      case Some(n) => value + Replace(t[n..], m, value, count - 1)
      case None => [t[0]] + Replace(t[1..], m, value, count)
  }

  /** How many leftmost non-overlapping matches there are in `t`
      (what `len(re.findall(pattern, t))` reports). */
  function Occurrences(t: string, m: Matcher): nat
    requires IsMatcher(m)
    decreases |t|
  {
    if |t| == 0 then 0
    else match m(t)
      case Some(n) => 1 + Occurrences(t[n..], m)
      case None => Occurrences(t[1..], m)
  }

  /** Where no match starts, one character is copied. */
  lemma ReplaceSkip(t: string, m: Matcher, value: string, count: nat)
    requires IsMatcher(m) && |t| > 0 && count > 0 && m(t).None?
    ensures Replace(t, m, value, count) == [t[0]] + Replace(t[1..], m, value, count)
  {
  }

  /** Where a match starts, it is replaced by the value. */
  lemma ReplaceHit(t: string, m: Matcher, value: string, count: nat)
    requires IsMatcher(m) && |t| > 0 && count > 0 && m(t).Some?
    ensures Replace(t, m, value, count) == value + Replace(t[m(t).value..], m, value, count - 1)
  {
  }

  lemma OccurrencesHit(t: string, m: Matcher)
    requires IsMatcher(m) && |t| > 0 && m(t).Some?
    ensures Occurrences(t, m) == 1 + Occurrences(t[m(t).value..], m)
  {
  }

  lemma OccurrencesSkip(t: string, m: Matcher)
    requires IsMatcher(m) && |t| > 0 && m(t).None?
    ensures Occurrences(t, m) == Occurrences(t[1..], m)
  {
  }

  /** Without a match in `t`, there is none at its start or in its tail. */
  lemma HasMatchTail(t: string, m: Matcher)
    requires |t| > 0 && !HasMatch(t, m)
    ensures !HasMatch(t[1..], m) && m(t).None?
  {
    assert t[0..] == t;
    assert !MatchesAt(t, 0, m);
    forall i | 0 <= i < |t| - 1 ensures !MatchesAt(t[1..], i, m) {
      assert t[1..][i..] == t[i + 1..];
      assert !MatchesAt(t, i + 1, m);
    }
  }

  /** A match in the tail of `t` is a match in `t`. */
  lemma HasMatchFromTail(t: string, m: Matcher)
    requires |t| > 0 && HasMatch(t[1..], m)
    ensures HasMatch(t, m)
  {
    var i :| 0 <= i < |t| - 1 && MatchesAt(t[1..], i, m);
    assert t[1..][i..] == t[i + 1..];
    assert MatchesAt(t, i + 1, m);
  }

  /** Text without a match goes through a substitution unchanged. */
  lemma {:induction false} ReplaceWithoutMatch(t: string, m: Matcher, value: string, count: nat)
    requires IsMatcher(m) && !HasMatch(t, m)
    ensures Replace(t, m, value, count) == t
    decreases |t|
  {
    if count > 0 && |t| > 0 {
      HasMatchTail(t, m);
      ReplaceSkip(t, m, value, count);
      ReplaceWithoutMatch(t[1..], m, value, count);
      assert [t[0]] + t[1..] == t;
    }
  }

  /** A text has no match exactly when its match count is zero. */
  lemma {:induction false} OccurrencesZeroIff(t: string, m: Matcher)
    requires IsMatcher(m)
    ensures Occurrences(t, m) == 0 <==> !HasMatch(t, m)
    decreases |t|
  {
    if |t| > 0 {
      if m(t).Some? {
        OccurrencesHit(t, m);
        assert t[0..] == t && MatchesAt(t, 0, m);
      } else {
        OccurrencesSkip(t, m);
        OccurrencesZeroIff(t[1..], m);
        if HasMatch(t[1..], m) {
          HasMatchFromTail(t, m);
        } else {
          HasMatchTail'(t, m);
        }
      }
    }
  }

  /** No match at the start and none in the tail: none at all. */
  lemma HasMatchTail'(t: string, m: Matcher)
    requires |t| > 0 && m(t).None? && !HasMatch(t[1..], m)
    ensures !HasMatch(t, m)
  {
    forall i | 0 <= i < |t| ensures !MatchesAt(t, i, m) {
      if i == 0 {
        assert t[0..] == t;
      } else {
        assert t[1..][i - 1..] == t[i..];
        assert !MatchesAt(t[1..], i - 1, m);
      }
    }
  }

  /** A match anywhere in `b` is still a match once text is put in front of it. */
  lemma HasMatchAppend(a: string, b: string, m: Matcher)
    requires HasMatch(b, m)
    ensures HasMatch(a + b, m)
  {
    var i :| 0 <= i < |b| && MatchesAt(b, i, m);
    assert (a + b)[|a| + i..] == b[i..];
    assert MatchesAt(a + b, |a| + i, m);
  }

  /** A cap at or above the number of matches is the same as no cap: every
      match is replaced. */
  lemma {:induction false} ReplaceCapAboveOccurrences(t: string, m: Matcher, value: string, a: nat, b: nat)
    requires IsMatcher(m) && Occurrences(t, m) <= a && Occurrences(t, m) <= b
    ensures Replace(t, m, value, a) == Replace(t, m, value, b)
    decreases |t|
  {
    if |t| > 0 {
      if Occurrences(t, m) == 0 {
        OccurrencesZeroIff(t, m);
        ReplaceWithoutMatch(t, m, value, a);
        ReplaceWithoutMatch(t, m, value, b);
      } else if m(t).Some? {
        OccurrencesHit(t, m);
        ReplaceHit(t, m, value, a);
        ReplaceHit(t, m, value, b);
        ReplaceCapAboveOccurrences(t[m(t).value..], m, value, a - 1, b - 1);
      } else if a == 0 || b == 0 {
        assert false;
      } else {
        OccurrencesSkip(t, m);
        ReplaceSkip(t, m, value, a);
        ReplaceSkip(t, m, value, b);
        ReplaceCapAboveOccurrences(t[1..], m, value, a, b);
      }
    }
  }

  /** With fewer replacements allowed than there are matches, a match is
      left in the output. */
  lemma {:induction false} ReplaceBelowOccurrences(t: string, m: Matcher, value: string, n: nat)
    requires IsMatcher(m) && n < Occurrences(t, m)
    ensures HasMatch(Replace(t, m, value, n), m)
    decreases |t|
  {
    if n == 0 {
      OccurrencesZeroIff(t, m);
    } else if m(t).Some? {
      var k := m(t).value;
      OccurrencesHit(t, m);
      ReplaceHit(t, m, value, n);
      ReplaceBelowOccurrences(t[k..], m, value, n - 1);
      HasMatchAppend(value, Replace(t[k..], m, value, n - 1), m);
    } else {
      OccurrencesSkip(t, m);
      ReplaceSkip(t, m, value, n);
      ReplaceBelowOccurrences(t[1..], m, value, n);
      HasMatchAppend([t[0]], Replace(t[1..], m, value, n), m);
    }
  }

  /** A capped substitution: up to the cap, every match is replaced (as with
      any larger cap); beyond it, a match is left in the output. */
  lemma ReplaceCapped(t: string, m: Matcher, value: string, cap: nat)
    requires IsMatcher(m)
    ensures Occurrences(t, m) <= cap ==>
      Replace(t, m, value, cap) == Replace(t, m, value, Occurrences(t, m) + |t|)
    ensures Occurrences(t, m) > cap ==> HasMatch(Replace(t, m, value, cap), m)
  {
    if Occurrences(t, m) <= cap {
      ReplaceCapAboveOccurrences(t, m, value, cap, Occurrences(t, m) + |t|);
    } else {
      ReplaceBelowOccurrences(t, m, value, cap);
    }
  }

  /** With at least `cap` matches, the substitution stops right after the
      `cap`-th: the text from there on is copied as written and holds every
      match beyond the first `cap`. */
  lemma {:induction false} ReplaceOverCapTail(t: string, m: Matcher, value: string, cap: nat) returns (k: nat, p: string)
    requires IsMatcher(m) && cap <= Occurrences(t, m)
    ensures k <= |t| && Occurrences(t[k..], m) == Occurrences(t, m) - cap
    ensures Replace(t, m, value, cap) == p + t[k..]
    decreases |t|
  {
    if cap == 0 {
      k, p := 0, [];
      assert t[0..] == t;
    } else if m(t).Some? {
      var n := m(t).value;
      OccurrencesHit(t, m);
      var k', p' := ReplaceOverCapTail(t[n..], m, value, cap - 1);
      k, p := OverCapHit(t, m, value, cap, k', p');
    } else {
      OccurrencesSkip(t, m);
      var k', p' := ReplaceOverCapTail(t[1..], m, value, cap);
      k, p := OverCapSkip(t, m, value, cap, k', p');
    }
  }

  /** A match at the start: its replacement goes in front of the rest's. */
  lemma OverCapHit(t: string, m: Matcher, value: string, cap: nat, k': nat, p': string) returns (k: nat, p: string)
    requires IsMatcher(m) && |t| > 0 && cap > 0 && m(t).Some?
    requires Occurrences(t, m) == 1 + Occurrences(t[m(t).value..], m)
    requires k' <= |t[m(t).value..]|
    requires Occurrences(t[m(t).value..][k'..], m) == Occurrences(t[m(t).value..], m) - (cap - 1)
    requires Replace(t[m(t).value..], m, value, cap - 1) == p' + t[m(t).value..][k'..]
    ensures k <= |t| && Occurrences(t[k..], m) == Occurrences(t, m) - cap
    ensures Replace(t, m, value, cap) == p + t[k..]
  {
    var n := m(t).value;
    ReplaceHit(t, m, value, cap);
    k, p := n + k', value + p';
    assert t[n..][k'..] == t[k..];
    Regroup(value, p', t[k..]);
  }

  /** No match at the start: the first character goes in front of the rest's result. */
  lemma OverCapSkip(t: string, m: Matcher, value: string, cap: nat, k': nat, p': string) returns (k: nat, p: string)
    requires IsMatcher(m) && |t| > 0 && cap > 0 && m(t).None?
    requires Occurrences(t, m) == Occurrences(t[1..], m)
    requires k' <= |t[1..]|
    requires Occurrences(t[1..][k'..], m) == Occurrences(t[1..], m) - cap
    requires Replace(t[1..], m, value, cap) == p' + t[1..][k'..]
    ensures k <= |t| && Occurrences(t[k..], m) == Occurrences(t, m) - cap
    ensures Replace(t, m, value, cap) == p + t[k..]
  {
    ReplaceSkip(t, m, value, cap);
    k, p := 1 + k', [t[0]] + p';
    assert t[1..][k'..] == t[k..];
    Regroup([t[0]], p', t[k..]);
  }

  lemma Regroup(a: string, b: string, c: string)
    ensures a + (b + c) == (a + b) + c
  {
  }

  /** Characters at which no match starts are copied as they are. */
  lemma {:induction false} ReplaceCopyPrefix(p: string, rest: string, m: Matcher, value: string, count: nat)
    requires IsMatcher(m) && count > 0
    requires forall i :: 0 <= i < |p| ==> !MatchesAt(p + rest, i, m)
    ensures Replace(p + rest, m, value, count) == p + Replace(rest, m, value, count)
  {
    var t := p + rest;
    if |p| == 0 {
      assert t == rest;
    } else {
      assert t[1..] == p[1..] + rest;
      forall i | 0 <= i < |p| - 1 ensures !MatchesAt(p[1..] + rest, i, m) {
        assert (p[1..] + rest)[i..] == t[i + 1..];
        assert !MatchesAt(t, i + 1, m);
      }
      ReplaceCopyPrefix(p[1..], rest, m, value, count);
      assert m(t).None? by { assert t[0..] == t && !MatchesAt(t, 0, m); }
      ReplaceSkip(t, m, value, count);
      assert t[0] == p[0];
      ConsTail(p, Replace(rest, m, value, count));
    }
  }

  lemma ConsTail(p: string, x: string)
    requires |p| > 0
    ensures [p[0]] + (p[1..] + x) == p + x
  {
    assert [p[0]] + p[1..] == p;
  }

  /** A text with one match at its start and none after it gets exactly
      that match replaced. */
  lemma ReplaceFirstOnly(t: string, m: Matcher, value: string, count: nat, n: nat)
    requires IsMatcher(m) && count > 0 && |t| > 0 && m(t) == Some(n)
    requires !HasMatch(t[n..], m)
    ensures Replace(t, m, value, count) == value + t[n..]
  {
    ReplaceHit(t, m, value, count);
    ReplaceWithoutMatch(t[n..], m, value, count - 1);
  }
}
