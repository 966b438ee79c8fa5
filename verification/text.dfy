/**
 * The handful of Python `str` operations the builder is written with,
 * stated on `seq<char>`: `isspace`, `strip`, `split` and `join` on a
 * single-character separator, single-character `replace`, and the
 * universal-newline translation that `Path.read_text` applies.
 */
module Text {

  /** Python's `str.isspace()` on one character. This is also the set that
      `\s` matches in a `str` pattern and the set that `str.strip()` removes. */
  predicate IsSpace(c: char)
  {
    ('\t' <= c <= '\r') || ('\U{1C}' <= c <= '\U{1F}') || c == ' '
    || c == '\U{85}' || c == '\U{A0}' || c == '\U{1680}'
    || ('\U{2000}' <= c <= '\U{200A}') || c == '\U{2028}' || c == '\U{2029}'
    || c == '\U{202F}' || c == '\U{205F}' || c == '\U{3000}'
  }

  predicate AllSpace(s: string)
  {
    forall i :: 0 <= i < |s| ==> IsSpace(s[i])
  }

  /** No whitespace at either end. */
  predicate NoEndSpace(s: string)
  {
    s == [] || (!IsSpace(s[0]) && !IsSpace(s[|s| - 1]))
  }

  /** Length of the whitespace run at the front of `s`: what a greedy `\s*` consumes. */
  function SpaceRun(s: string): (n: nat)
    ensures n <= |s|
    ensures AllSpace(s[..n])
    ensures n < |s| ==> !IsSpace(s[n])
  {
    if |s| > 0 && IsSpace(s[0]) then 1 + SpaceRun(s[1..]) else 0
  }

  /** Length of the whitespace run at the back of `s`. */
  function TrailingSpaceRun(s: string): (n: nat)
    ensures n <= |s|
    ensures AllSpace(s[|s| - n..])
    ensures n < |s| ==> !IsSpace(s[|s| - 1 - n])
    ensures |s| > 0 && !IsSpace(s[0]) ==> n < |s|
  {
    if |s| > 0 && IsSpace(s[|s| - 1]) then
      var n := 1 + TrailingSpaceRun(s[..|s| - 1]);
      AllSpaceSnoc(s, n);
      n
    else 0
  }

  /** A whitespace run before a final whitespace character is one longer. */
  lemma AllSpaceSnoc(s: string, n: nat)
    requires 1 <= n <= |s| && IsSpace(s[|s| - 1]) && AllSpace(s[..|s| - 1][|s| - n..])
    ensures AllSpace(s[|s| - n..])
  {
    var r := s[|s| - n..];
    forall i | 0 <= i < n ensures IsSpace(r[i]) {
      if i < n - 1 {
        assert r[i] == s[..|s| - 1][|s| - n..][i];
      }
    }
  }

  /** `str.strip()`: the result is the slice of `s` left once the whitespace
      at both ends is removed, so it is empty exactly when `s` is all
      whitespace, and otherwise starts and ends with a non-space. */
  function Strip(s: string): (r: string)
    ensures SpaceRun(s) + |r| <= |s| && r == s[SpaceRun(s)..SpaceRun(s) + |r|]
    ensures AllSpace(s[SpaceRun(s) + |r|..])
    ensures r == [] <==> AllSpace(s)
    ensures NoEndSpace(r)
  {
    var k := SpaceRun(s);
    var m := TrailingSpaceRun(s[k..]);
    StripSlice(s, k, m);
    s[k..|s| - m]
  }

  /** The slice between the two whitespace runs has the properties `Strip`
      promises. */
  lemma StripSlice(s: string, k: nat, m: nat)
    requires k == SpaceRun(s) && m == TrailingSpaceRun(s[k..])
    ensures k + m <= |s|
    ensures var r := s[k..|s| - m];
      && k + |r| <= |s| && r == s[k..k + |r|]
      && AllSpace(s[k + |r|..])
      && (r == [] <==> AllSpace(s))
      && NoEndSpace(r)
  {
    StripTail(s, k, m);
    StripEmptyIffAllSpace(s, k, m);
    StripEnds(s, k, m);
    assert k + |s[k..|s| - m]| == |s| - m;
  }

  lemma StripTail(s: string, k: nat, m: nat)
    requires k == SpaceRun(s) && m == TrailingSpaceRun(s[k..])
    ensures k + m <= |s| && AllSpace(s[|s| - m..])
  {
    assert s[k..][|s[k..]| - m..] == s[|s| - m..];
  }

  lemma StripEnds(s: string, k: nat, m: nat)
    requires k + m <= |s|
    requires k < |s| ==> !IsSpace(s[k])
    requires m < |s| - k ==> !IsSpace(s[k..][|s| - k - 1 - m])
    ensures NoEndSpace(s[k..|s| - m])
  {
    var t := s[k..|s| - m];
    if t != [] {
      assert t[0] == s[k];
      assert t[|t| - 1] == s[|s| - m - 1] == s[k..][|s| - k - 1 - m];
    }
  }

  lemma StripEmptyIffAllSpace(s: string, k: nat, m: nat)
    requires k == SpaceRun(s) && m == TrailingSpaceRun(s[k..])
    ensures m == |s| - k <==> AllSpace(s)
  {
    if k == |s| {
      assert s[..k] == s && |s[k..]| == 0;
    } else {
      assert s[k..][0] == s[k] && !IsSpace(s[k]);
      assert !AllSpace(s);
    }
  }

  /** A string with no whitespace at either end is its own `strip()`. */
  lemma StripFixed(s: string)
    requires NoEndSpace(s)
    ensures Strip(s) == s
  {
    if s != [] {
      assert SpaceRun(s) == 0;
      assert s[0..] == s;
      assert TrailingSpaceRun(s) == 0;
    }
  }

  /** A suffix holds no character its string does not hold. */
  lemma SuffixWithout(s: string, k: nat, c: char)
    requires k <= |s| && c !in s
    ensures c !in s[k..]
  {
    forall i | 0 <= i < |s| - k ensures s[k..][i] != c {
      assert s[k..][i] == s[k + i];
    }
  }

  /** `strip()` removes characters and adds none. */
  lemma StripWithout(s: string, c: char)
    requires c !in s
    ensures c !in Strip(s)
  {
    var r := Strip(s);
    var k := SpaceRun(s);
    forall i | 0 <= i < |r| ensures r[i] != c {
      assert r[i] == s[k + i];
    }
  }

  /** `s.split(sep)` for a one-character separator: one piece more than
      there are separators, none containing the separator, empty pieces kept. */
  function Split(s: string, sep: char): (r: seq<string>)
    ensures |r| >= 1
    ensures forall i :: 0 <= i < |r| ==> sep !in r[i]
  {
    if |s| == 0 then [""]
    else if s[0] == sep then [""] + Split(s[1..], sep)
    else
      var rest := Split(s[1..], sep);
      [[s[0]] + rest[0]] + rest[1..]
  }

  /** `sep.join(parts)` for a one-character separator. */
  function Join(parts: seq<string>, sep: char): (r: string)
    ensures |parts| == 1 ==> r == parts[0]
  {
    if |parts| == 0 then ""
    else if |parts| == 1 then parts[0]
    else parts[0] + [sep] + Join(parts[1..], sep)
  }

  /** Joining the pieces of a split gives the string back. */
  lemma {:induction false} JoinSplit(s: string, sep: char)
    ensures Join(Split(s, sep), sep) == s
  {
    if |s| > 0 {
      JoinSplit(s[1..], sep);
      var rest := Split(s[1..], sep);
      if s[0] != sep && |rest| > 1 {
        assert Join(rest, sep) == rest[0] + [sep] + Join(rest[1..], sep);
        assert [[s[0]] + rest[0]] + rest[1..] == [[s[0]] + rest[0]] + rest[1..][0..];
        assert ([[s[0]] + rest[0]] + rest[1..])[1..] == rest[1..];
      }
    }
  }

  /** A string without the separator splits into itself alone. */
  lemma {:induction false} SplitNoSep(s: string, sep: char)
    requires sep !in s
    ensures Split(s, sep) == [s]
  {
    if |s| > 0 {
      SplitNoSep(s[1..], sep);
      assert [s[0]] + s[1..] == s;
    }
  }

  /** Splitting at a separator splits the two sides independently. */
  lemma {:induction false} SplitConcat(a: string, b: string, sep: char)
    ensures Split(a + [sep] + b, sep) == Split(a, sep) + Split(b, sep)
  {
    if |a| == 0 {
      assert a + [sep] + b == [sep] + b;
      SplitCons(sep, b, sep);
    } else {
      var t := a[1..] + [sep] + b;
      assert a + [sep] + b == [a[0]] + t;
      assert a == [a[0]] + a[1..];
      SplitConcat(a[1..], b, sep);
      SplitCons(a[0], t, sep);
      SplitCons(a[0], a[1..], sep);
      if a[0] != sep {
        ConsHeadConcat([a[0]], Split(a[1..], sep), Split(b, sep));
      }
    }
  }

  /** One step of a split: a separator starts a new piece, any other
      character joins the first piece. */
  lemma SplitCons(c: char, t: string, sep: char)
    ensures Split([c] + t, sep)
      == if c == sep then [""] + Split(t, sep) else [[c] + Split(t, sep)[0]] + Split(t, sep)[1..]
  {
    assert ([c] + t)[1..] == t;
  }

  /** Prefixing the first piece commutes with appending more pieces. */
  lemma ConsHeadConcat(x: string, r: seq<string>, q: seq<string>)
    requires |r| >= 1
    ensures [x + (r + q)[0]] + (r + q)[1..] == ([x + r[0]] + r[1..]) + q
  {
    assert (r + q)[0] == r[0];
    assert (r + q)[1..] == r[1..] + q;
  }

  /** Splitting what was joined gives the parts back, as long as no part
      holds the separator. */
  lemma {:induction false} SplitJoin(parts: seq<string>, sep: char)
    requires |parts| >= 1
    requires forall i :: 0 <= i < |parts| ==> sep !in parts[i]
    ensures Split(Join(parts, sep), sep) == parts
  {
    if |parts| == 1 {
      SplitNoSep(parts[0], sep);
    } else {
      SplitJoin(parts[1..], sep);
      SplitConcat(parts[0], Join(parts[1..], sep), sep);
      SplitNoSep(parts[0], sep);
      assert [parts[0]] + parts[1..] == parts;
    }
  }

  /** No piece of a split holds a character its input does not hold. */
  lemma {:induction false} SplitPiecesWithout(s: string, sep: char, c: char)
    requires c !in s
    ensures forall i :: 0 <= i < |Split(s, sep)| ==> c !in Split(s, sep)[i]
  {
    if |s| > 0 {
      assert c !in s[1..] by { assert forall k :: 0 <= k < |s| - 1 ==> s[1..][k] == s[k + 1]; }
      SplitPiecesWithout(s[1..], sep, c);
    }
  }

  /** A split has a single piece exactly when the separator does not occur. */
  lemma {:induction false} SplitSingleIff(s: string, sep: char)
    ensures |Split(s, sep)| == 1 <==> sep !in s
  {
    if sep !in s {
      SplitNoSep(s, sep);
    } else if |s| > 0 && s[0] != sep {
      assert sep in s[1..] by {
        var k :| 0 <= k < |s| && s[k] == sep;
        assert s[1..][k - 1] == sep;
      }
      SplitSingleIff(s[1..], sep);
    }
  }

  /** `s.startswith(prefix)`, one character at a time. */
  function StartsWith(s: string, prefix: string): bool
  {
    |prefix| <= |s| && (|prefix| == 0 || (s[0] == prefix[0] && StartsWith(s[1..], prefix[1..])))
  }

  /** `s` starts with `prefix` exactly when its first `|prefix|` characters
      are `prefix`. */
  lemma {:induction false} StartsWithIff(s: string, prefix: string)
    ensures StartsWith(s, prefix) <==> |prefix| <= |s| && s[..|prefix|] == prefix
  {
    if |prefix| > 0 && |prefix| <= |s| {
      StartsWithIff(s[1..], prefix[1..]);
      if s[..|prefix|] == prefix {
        assert s[1..][..|prefix| - 1] == prefix[1..];
      }
      if s[0] == prefix[0] && s[1..][..|prefix| - 1] == prefix[1..] {
        assert s[..|prefix|] == [s[0]] + s[1..][..|prefix| - 1];
      }
    }
  }

  /** A string starts with any of its prefixes. */
  lemma StartsWithConcat(prefix: string, rest: string)
    ensures StartsWith(prefix + rest, prefix) && (prefix + rest)[|prefix|..] == rest
  {
    StartsWithIff(prefix + rest, prefix);
  }

  /** No character of `s` is whitespace. */
  predicate NoSpace(s: string)
  {
    forall c :: c in s ==> !IsSpace(c)
  }

  /** `strip()` is idempotent. */
  lemma StripIdempotent(s: string)
    ensures Strip(Strip(s)) == Strip(s)
  {
    StripFixed(Strip(s));
  }

  /** A string without whitespace is its own `strip()`. */
  lemma StripNoSpace(s: string)
    requires NoSpace(s)
    ensures Strip(s) == s
  {
    if s != [] {
      assert s[0] in s && s[|s| - 1] in s;
    }
    StripFixed(s);
  }

  /** Two separators, three pieces. */
  lemma SplitThree(a: string, b: string, c: string, sep: char)
    requires sep !in a && sep !in b && sep !in c
    ensures Split(a + [sep] + b + [sep] + c, sep) == [a, b, c]
  {
    SplitConcat(a + [sep] + b, c, sep);
    SplitConcat(a, b, sep);
    SplitNoSep(a, sep);
    SplitNoSep(b, sep);
    SplitNoSep(c, sep);
  }

  /** `s.replace(from, to)` for one-character `from` and `to`: every `from`
      becomes `to`, and every other character stays where it was. */
  function ReplaceChar(s: string, from: char, to: char): (r: string)
    ensures |r| == |s|
    ensures forall i :: 0 <= i < |s| ==> r[i] == (if s[i] == from then to else s[i])
  {
    if |s| == 0 then ""
    else [if s[0] == from then to else s[0]] + ReplaceChar(s[1..], from, to)
  }

  /** Replacing a character that occurs once, between `a` and `b`. */
  lemma ReplaceCharAround(a: string, b: string, from: char, to: char)
    requires from !in a && from !in b
    ensures ReplaceChar(a + [from] + b, from, to) == a + [to] + b
  {
    var s := a + [from] + b;
    var r := ReplaceChar(s, from, to);
    var e := a + [to] + b;
    forall i | 0 <= i < |s| ensures r[i] == e[i] {
      if i < |a| {
        assert s[i] == a[i] && a[i] in a;
      } else if i > |a| {
        assert s[i] == b[i - |a| - 1] && b[i - |a| - 1] in b;
      }
    }
    assert r == e;
  }

  /** The universal-newline translation of text-mode reading: every `\r\n`
      and every lone `\r` becomes `\n`. */
  function NormalizeNewlines(s: string): (r: string)
    ensures '\r' !in r
    ensures '\r' !in s ==> r == s
    ensures |r| <= |s|
  {
    if |s| == 0 then ""
    else if s[0] == '\r' then
      if |s| > 1 && s[1] == '\n' then "\n" + NormalizeNewlines(s[2..])
      else "\n" + NormalizeNewlines(s[1..])
    else
      assert '\r' !in s ==> '\r' !in s[1..] by {
        assert forall k :: 0 <= k < |s| - 1 ==> s[1..][k] == s[k + 1];
      }
      [s[0]] + NormalizeNewlines(s[1..])
  }
  /** Text-mode reading turns a `\r\n` into one `\n` and copies the text
      before it. */
  lemma NormalizeCRLF(a: string, b: string)
    requires '\r' !in a
    ensures NormalizeNewlines(a + "\r\n" + b) == a + "\n" + NormalizeNewlines(b)
  {
    assert a + "\r\n" + b == a + ("\r\n" + b);
    NormalizePrefix(a, "\r\n" + b);
    var s := "\r\n" + b;
    assert s[0] == '\r' && s[1] == '\n' && s[2..] == b;
  }

  /** A `\r` not followed by `\n` becomes `\n` on its own. */
  lemma NormalizeLoneCR(a: string, b: string)
    requires '\r' !in a && (b == [] || b[0] != '\n')
    ensures NormalizeNewlines(a + "\r" + b) == a + "\n" + NormalizeNewlines(b)
  {
    assert a + "\r" + b == a + ("\r" + b);
    NormalizePrefix(a, "\r" + b);
    var s := "\r" + b;
    assert s[0] == '\r' && s[1..] == b;
    assert |s| > 1 ==> s[1] == b[0];
  }

  /** Text without `\r` in front of `rest` is copied as it is. */
  lemma {:induction false} NormalizePrefix(a: string, rest: string)
    requires '\r' !in a
    ensures NormalizeNewlines(a + rest) == a + NormalizeNewlines(rest)
  {
    if |a| == 0 {
      assert a + rest == rest;
    } else {
      NormalizeStep(a, rest);
      NormalizePrefix(a[1..], rest);
      ConsAssoc(a, NormalizeNewlines(rest));
    }
  }

  /** A first character other than `\r` is copied. */
  lemma NormalizeStep(a: string, rest: string)
    requires |a| > 0 && '\r' !in a
    ensures '\r' !in a[1..]
    ensures NormalizeNewlines(a + rest) == [a[0]] + NormalizeNewlines(a[1..] + rest)
  {
    assert a[0] in a;
    assert (a + rest)[0] == a[0] && (a + rest)[1..] == a[1..] + rest;
    assert forall k :: 0 <= k < |a| - 1 ==> a[1..][k] == a[k + 1];
  }

  lemma ConsAssoc(a: string, x: string)
    requires |a| > 0
    ensures [a[0]] + (a[1..] + x) == a + x
  {
    assert [a[0]] + a[1..] == a;
  }
}
