/**
 * `_fill_template_variable`: one `re.sub` of the pattern `({{\s*NAME\s*}})`
 * by a value. The flags `re.IGNORECASE | re.MULTILINE` are passed in the
 * fourth positional slot of `re.sub`, which is `count`, so the substitution
 * is case-sensitive and stops after the ten leftmost non-overlapping
 * matches. The model follows that behaviour.
 */
module Placeholder {
  import opened Wrappers
  import opened Text
  import opened Scan

  /** `re.IGNORECASE | re.MULTILINE`, that is 2 | 8, which lands in `count`. */
  const MaxReplacements: nat := 10

  /** Characters with a meaning in a Python regular expression outside a character class. */
  predicate IsRegexMeta(c: char)
  {
    c in ".^$*+?{}[]\\|()"
  }

  /** A variable name that `re` reads as literal text, and that the `\s*`
      in front of it cannot eat into. The builder's six names qualify. */
  predicate ValidName(name: string)
  {
    |name| > 0 && forall i :: 0 <= i < |name| ==> !IsSpace(name[i]) && !IsRegexMeta(name[i])
  }

  /** The shape of a placeholder at the start of `s`: two opening braces,
      whitespace up to the name at `j`, the name as written, whitespace up to
      the two closing braces at `k`. */
  ghost predicate Layout(s: string, name: string, j: nat, k: nat)
  {
    2 <= j && j + |name| <= k && k + 2 <= |s|
    && s[..2] == "{{" && AllSpace(s[2..j]) && s[j..j + |name|] == name
    && AllSpace(s[j + |name|..k]) && s[k..k + 2] == "}}"
  }

  /** `p` is exactly one placeholder for `name`, with nothing after its
      closing braces. */
  ghost predicate IsPlaceholder(p: string, name: string)
  {
    exists j: nat, k: nat :: k + 2 == |p| && Layout(p, name, j, k)
  }

  /** Where the regular expression matches when tried at the very start of
      `s`: the length of the match, or `None`. */
  function PlaceholderAt(s: string, name: string): (r: Option<nat>)
    ensures r.Some? ==> 4 + |name| <= r.value <= |s|
  {
    MatchStage(s, name, 0, 0)
  }

  /** The pattern, tried at the start of `s`, as three steps: stage 0 takes
      `{{` and the whitespace after it, stage 1 the name at `pos` and the
      whitespace after it, stage 2 the `}}` at `pos`. The result is the end
      of the match. */
  function MatchStage(s: string, name: string, stage: nat, pos: nat): (r: Option<nat>)
    requires stage <= 2
    ensures r.Some? ==> r.value <= |s|
    ensures r.Some? && stage == 0 ==> 4 + |name| <= r.value
    ensures r.Some? && stage == 1 ==> pos + |name| + 2 <= r.value
    ensures r.Some? && stage == 2 ==> pos + 2 <= r.value
    decreases 2 - stage
  {
    if stage == 0 then
      if |s| >= 2 && s[..2] == "{{" then MatchStage(s, name, 1, 2 + SpaceRun(s[2..])) else None
    else if stage == 1 then
      if pos + |name| <= |s| && s[pos..pos + |name|] == name then
        MatchStage(s, name, 2, pos + |name| + SpaceRun(s[pos + |name|..]))
      else None
    else if pos + 2 <= |s| && s[pos..pos + 2] == "}}" then Some(pos + 2)
    else None
  }

  lemma MatchOpen(s: string, name: string)
    ensures PlaceholderAt(s, name)
      == if |s| >= 2 && s[..2] == "{{" then MatchStage(s, name, 1, 2 + SpaceRun(s[2..])) else None
  {
  }

  lemma MatchName(s: string, name: string, pos: nat)
    ensures MatchStage(s, name, 1, pos)
      == if pos + |name| <= |s| && s[pos..pos + |name|] == name then
           MatchStage(s, name, 2, pos + |name| + SpaceRun(s[pos + |name|..]))
         else None
  {
  }

  lemma MatchClose(s: string, name: string, pos: nat)
    ensures MatchStage(s, name, 2, pos) == if pos + 2 <= |s| && s[pos..pos + 2] == "}}" then Some(pos + 2) else None
  {
  }

  /** A greedy `\s*` stops exactly at the end of a whitespace run. */
  lemma {:induction false} SpaceRunExact(s: string, n: nat)
    requires n <= |s| && AllSpace(s[..n]) && (n < |s| ==> !IsSpace(s[n]))
    ensures SpaceRun(s) == n
  {
    if n > 0 {
      assert s[1..][..n - 1] == s[..n][1..];
      SpaceRunExact(s[1..], n - 1);
    }
  }

  /** The whitespace run that starts at `a` ends at `b`. */
  lemma SpaceRunBetween(s: string, a: nat, b: nat)
    requires a <= b < |s| && AllSpace(s[a..b]) && !IsSpace(s[b])
    ensures a + SpaceRun(s[a..]) == b
  {
    assert s[a..][..b - a] == s[a..b];
    assert s[a..][b - a] == s[b];
    SpaceRunExact(s[a..], b - a);
  }

  /** What `\s*` takes from position `a` is whitespace. */
  lemma SpaceRunSlice(s: string, a: nat)
    requires a <= |s|
    ensures a + SpaceRun(s[a..]) <= |s| && AllSpace(s[a..a + SpaceRun(s[a..])])
  {
    assert s[a..][..SpaceRun(s[a..])] == s[a..a + SpaceRun(s[a..])];
  }

  /** A layout is kept by every prefix that still holds its closing braces. */
  lemma LayoutPrefix(s: string, name: string, j: nat, k: nat, n: nat)
    requires k + 2 <= n <= |s|
    ensures Layout(s, name, j, k) <==> Layout(s[..n], name, j, k)
  {
    var p := s[..n];
    if 2 <= j && j + |name| <= k {
      assert p[..2] == s[..2] && p[2..j] == s[2..j] && p[j..j + |name|] == s[j..j + |name|];
      assert p[j + |name|..k] == s[j + |name|..k] && p[k..k + 2] == s[k..k + 2];
    }
  }

  /** The three steps of a match at the start of `s`, taken one at a time. */
  lemma PlaceholderAtUnfold(s: string, name: string, j: nat, k: nat)
    requires |s| >= 2 && s[..2] == "{{" && j == 2 + SpaceRun(s[2..])
    requires j + |name| <= |s| && s[j..j + |name|] == name
    requires k == j + |name| + SpaceRun(s[j + |name|..]) && k + 2 <= |s| && s[k..k + 2] == "}}"
    ensures PlaceholderAt(s, name) == Some(k + 2)
  {
    MatchOpen(s, name);
    MatchName(s, name, j);
    MatchClose(s, name, k);
  }

  /** A match at the start of `s` has the layout of a placeholder and ends
      right after its closing braces. */
  lemma PlaceholderAtLayout(s: string, name: string) returns (j: nat, k: nat)
    requires PlaceholderAt(s, name).Some?
    ensures Layout(s, name, j, k) && PlaceholderAt(s, name) == Some(k + 2)
  {
    j := MatchedOpen(s, name);
    k := MatchedName(s, name, j);
    MatchedClose(s, name, k);
  }

  /** Stage 0 took the braces and the whitespace up to `j`. */
  lemma MatchedOpen(s: string, name: string) returns (j: nat)
    requires PlaceholderAt(s, name).Some?
    ensures 2 <= j <= |s| && s[..2] == "{{" && AllSpace(s[2..j])
    ensures PlaceholderAt(s, name) == MatchStage(s, name, 1, j)
  {
    MatchOpen(s, name);
    j := 2 + SpaceRun(s[2..]);
    SpaceRunSlice(s, 2);
  }

  /** Stage 1 took the name and the whitespace up to `k`. */
  lemma MatchedName(s: string, name: string, j: nat) returns (k: nat)
    requires MatchStage(s, name, 1, j).Some?
    ensures j + |name| <= k <= |s| && s[j..j + |name|] == name && AllSpace(s[j + |name|..k])
    ensures MatchStage(s, name, 1, j) == MatchStage(s, name, 2, k)
  {
    MatchName(s, name, j);
    k := j + |name| + SpaceRun(s[j + |name|..]);
    SpaceRunSlice(s, j + |name|);
  }

  lemma MatchedClose(s: string, name: string, k: nat)
    requires MatchStage(s, name, 2, k).Some?
    ensures k + 2 <= |s| && s[k..k + 2] == "}}" && MatchStage(s, name, 2, k) == Some(k + 2)
  {
    MatchClose(s, name, k);
  }

  /** The regular expression, tried at the start of `s`, matches every
      placeholder for a name that does not start with whitespace, whatever
      follows it, and matches all of it. */
  lemma PlaceholderAtComplete(s: string, name: string, j: nat, k: nat)
    requires |name| > 0 && !IsSpace(name[0]) && Layout(s, name, j, k)
    ensures PlaceholderAt(s, name) == Some(k + 2)
  {
    assert s[j] == s[j..j + |name|][0];
    assert s[k] == s[k..k + 2][0];
    SpaceRunBetween(s, 2, j);
    SpaceRunBetween(s, j + |name|, k);
    PlaceholderAtUnfold(s, name, j, k);
  }

  /** For a name that does not start with whitespace (every valid name),
      the pattern matches a prefix of length `n` exactly
      when that prefix is a placeholder. */
  lemma PlaceholderAtIff(s: string, name: string, n: nat)
    requires |name| > 0 && !IsSpace(name[0]) && n <= |s|
    ensures PlaceholderAt(s, name) == Some(n) <==> IsPlaceholder(s[..n], name)
  {
    if PlaceholderAt(s, name) == Some(n) {
      PlaceholderAtSound(s, name);
    }
    if IsPlaceholder(s[..n], name) {
      var j: nat, k: nat :| k + 2 == n && Layout(s[..n], name, j, k);
      LayoutPrefix(s, name, j, n - 2, n);
      PlaceholderAtComplete(s, name, j, n - 2);
    }
  }

  /** What the pattern matches is a placeholder. */
  lemma PlaceholderAtSound(s: string, name: string)
    requires PlaceholderAt(s, name).Some?
    ensures IsPlaceholder(s[..PlaceholderAt(s, name).value], name)
  {
    var j, k := PlaceholderAtLayout(s, name);
    LayoutPrefix(s, name, j, k, k + 2);
    assert Layout(s[..k + 2], name, j, k);
  }

  /** The pattern `({{\s*NAME\s*}})` as a matcher for the substitution scan. */
  function Pattern(name: string): (m: Matcher)
    ensures IsMatcher(m)
  {
    s => PlaceholderAt(s, name)
  }

  lemma PatternAt(name: string, s: string)
    ensures Pattern(name)(s) == PlaceholderAt(s, name)
  {
  }

  /** Some position of `t` starts a match for `name`. */
  ghost predicate HasPlaceholder(t: string, name: string)
  {
    HasMatch(t, Pattern(name))
  }

  /** `_fill_template_variable(template, name, value)`. Backslashes in the
      value are excluded because `re.sub` would read them as escapes. */
  function FillTemplateVariable(template: string, name: string, value: string): (r: string)
    requires ValidName(name) && '\\' !in value
    ensures !HasPlaceholder(template, name) ==> r == template
  {
    assert !HasPlaceholder(template, name) ==> Replace(template, Pattern(name), value, MaxReplacements) == template by {
      if !HasPlaceholder(template, name) {
        ReplaceWithoutMatch(template, Pattern(name), value, MaxReplacements);
      }
    }
    Replace(template, Pattern(name), value, MaxReplacements)
  }

  /** The effect of the misplaced flags: at most ten matches are replaced.
      Up to ten, the call replaces every match, as an uncapped substitution
      would; beyond ten, a match survives. */
  lemma FillTemplateVariableCount(template: string, name: string, value: string)
    requires ValidName(name) && '\\' !in value
    ensures Occurrences(template, Pattern(name)) <= 10 ==>
      FillTemplateVariable(template, name, value)
        == Replace(template, Pattern(name), value, Occurrences(template, Pattern(name)) + |template|)
    ensures Occurrences(template, Pattern(name)) > 10 ==>
      HasPlaceholder(FillTemplateVariable(template, name, value), name)
  {
    ReplaceCapped(template, Pattern(name), value, MaxReplacements);
  }

  /** With ten placeholders or more, the call stops after the tenth: the
      text from there on is kept as written, with every placeholder beyond
      the first ten still in it. */
  lemma FillTemplateVariableOverCap(template: string, name: string, value: string) returns (k: nat, p: string)
    requires ValidName(name) && '\\' !in value
    requires Occurrences(template, Pattern(name)) >= 10
    ensures k <= |template|
    ensures Occurrences(template[k..], Pattern(name)) == Occurrences(template, Pattern(name)) - 10
    ensures FillTemplateVariable(template, name, value) == p + template[k..]
  {
    k, p := ReplaceOverCapTail(template, Pattern(name), value, MaxReplacements);
  }

  /** A name with a character the text does not contain has no match in it. */
  lemma NameCharAbsent(t: string, name: string, c: char)
    requires c in name && c !in t
    ensures !HasPlaceholder(t, name)
  {
    forall i | 0 <= i < |t| ensures !MatchesAt(t, i, Pattern(name)) {
      NameCharAbsentAt(t[i..], name, c);
      PatternAt(name, t[i..]);
    }
  }

  lemma NameCharAbsentAt(s: string, name: string, c: char)
    requires c in name && c !in s
    ensures PlaceholderAt(s, name).None?
  {
    MatchOpen(s, name);
    if |s| >= 2 && s[..2] == "{{" {
      var j := 2 + SpaceRun(s[2..]);
      MatchName(s, name, j);
      if j + |name| <= |s| && s[j..j + |name|] == name {
        assert false;
      }
    }
  }

  /** A template that is one placeholder `{{ name }}` becomes the value. */
  lemma FillTemplateVariableSingle(name: string, value: string)
    requires ValidName(name) && '\\' !in value
    ensures FillTemplateVariable("{{ " + name + " }}", name, value) == value
  {
    var p := "{{ " + name + " }}";
    assert p + "" == p;
    SimplePlaceholderMatch(name, "");
    PatternAt(name, p);
    assert p[|p|..] == "";
    ReplaceFirstOnly(p, Pattern(name), value, MaxReplacements, |p|);
  }

  /** The match is on the name as written: `{{ tag }}` is replaced,
      `{{ Tag }}` is not. */
  lemma FillTemplateVariableCaseSensitive()
    ensures FillTemplateVariable("{{ tag }}", "tag", "web") == "web"
    ensures FillTemplateVariable("{{ Tag }}", "tag", "web") == "{{ Tag }}"
  {
    TagLiterals();
    FillTemplateVariableSingle("tag", "web");
    NameCharAbsent("{{ Tag }}", "tag", 't');
  }

  lemma TagLiterals()
    ensures ValidName("tag") && "{{ " + "tag" + " }}" == "{{ tag }}"
  {
    assert forall i :: 0 <= i < 3 ==> "tag"[i] in "tag";
  }

  /** A valid name holds neither of the metacharacters `\` and `{`. */
  lemma NameHasNoMetaChars(name: string)
    requires ValidName(name)
    ensures '\\' !in name && '{' !in name
  {
    assert ".^$*+?{}[]\\|()"[10] == '\\' && ".^$*+?{}[]\\|()"[6] == '{';
    forall i | 0 <= i < |name| ensures name[i] != '\\' && name[i] != '{' {
      assert !IsRegexMeta(name[i]);
    }
  }

  /** Text without an opening brace holds no placeholder. */
  lemma NoBraceNoPlaceholder(t: string, name: string)
    requires '{' !in t
    ensures !HasPlaceholder(t, name)
  {
    forall i | 0 <= i < |t| ensures !MatchesAt(t, i, Pattern(name)) {
      NoOpeningNoMatch(t[i..], name);
    }
  }

  /** One pass over `{{ {{ name }} }}` replaces the inner placeholder only. */
  lemma NestedPlaceholderPass(name: string, value: string)
    requires |name| > 0 && !IsSpace(name[0]) && name[0] != '{'
    ensures Replace("{{ {{ " + name + " }} }}", Pattern(name), value, 10) == "{{ " + value + " }}"
  {
    NestedSplit(name, value);
    NestedPrefixPass(name, value);
    InnerPlaceholderPass(name, value);
  }

  lemma NestedSplit(name: string, value: string)
    ensures "{{ {{ " + name + " }} }}" == "{{ " + ("{{ " + name + " }} }}")
    ensures "{{ " + (value + " }}") == "{{ " + value + " }}"
  {
  }

  /** The first three characters of `{{ {{ name }} }}` are copied. */
  lemma NestedPrefixPass(name: string, value: string)
    requires |name| > 0 && name[0] != '{'
    ensures Replace("{{ " + ("{{ " + name + " }} }}"), Pattern(name), value, 10)
      == "{{ " + Replace("{{ " + name + " }} }}", Pattern(name), value, 10)
  {
    assert ("{{ " + name + " }} }}")[0] == '{';
    BracePrefixNoMatch("{{ " + name + " }} }}", name);
    ReplaceCopyPrefix("{{ ", "{{ " + name + " }} }}", Pattern(name), value, 10);
  }

  /** None of the first three characters of `{{ ` followed by a brace starts
      a match for a name that does not start with a brace. */
  lemma BracePrefixNoMatch(x: string, name: string)
    requires |name| > 0 && name[0] != '{' && |x| > 0 && x[0] == '{'
    ensures forall i :: 0 <= i < 3 ==> !MatchesAt("{{ " + x, i, Pattern(name))
  {
    var s := "{{ " + x;
    forall i | 0 <= i < 3 ensures !MatchesAt(s, i, Pattern(name)) {
      PatternAt(name, s[i..]);
      if i == 0 {
        assert s[0..] == s;
        OpenThenBraceNoMatch(x, name);
      } else {
        assert s[i..][1] == s[i + 1] == ' ' || s[i..][0] == ' ';
        NoOpeningNoMatch(s[i..], name);
      }
    }
  }

  /** In `{{ name }} }}` the placeholder is replaced and the rest copied. */
  lemma InnerPlaceholderPass(name: string, value: string)
    requires |name| > 0 && !IsSpace(name[0])
    ensures Replace("{{ " + name + " }} }}", Pattern(name), value, 10) == value + " }}"
  {
    CloseTwice(name);
    SimplePlaceholderMatch(name, " }}");
    assert '{' !in " }}";
    ReplaceOnePlaceholder("{{ " + name + " }}", " }}", name, value);
  }

  /** `{{ name }} }}` is `{{ name }}` followed by ` }}`. */
  lemma CloseTwice(name: string)
    ensures "{{ " + name + " }} }}" == ("{{ " + name + " }}") + " }}"
  {
    assert " }} }}" == " }}" + " }}";
    ConcatAssoc("{{ " + name, " }}", " }}");
  }

  lemma ConcatAssoc(a: string, b: string, c: string)
    ensures a + (b + c) == (a + b) + c
  {
  }

  /** A text that starts with a match and has no opening brace after it:
      the match is replaced and the rest is copied. */
  lemma ReplaceOnePlaceholder(q: string, rest: string, name: string, value: string)
    requires |q| > 0 && PlaceholderAt(q + rest, name) == Some(|q|) && '{' !in rest
    ensures Replace(q + rest, Pattern(name), value, 10) == value + rest
  {
    PatternAt(name, q + rest);
    assert (q + rest)[|q|..] == rest;
    NoBraceNoPlaceholder(rest, name);
    ReplaceFirstOnly(q + rest, Pattern(name), value, 10, |q|);
  }

  /** No match can start where the text does not start with two opening braces. */
  lemma NoOpeningNoMatch(t: string, name: string)
    requires |t| < 2 || t[0] != '{' || t[1] != '{'
    ensures PlaceholderAt(t, name).None?
  {
    MatchOpen(t, name);
    if |t| >= 2 {
      assert t[..2][0] == t[0] && t[..2][1] == t[1];
    }
  }

  /** `{{ name }}` is a match, whatever follows it. */
  lemma SimplePlaceholderMatch(name: string, rest: string)
    requires |name| > 0 && !IsSpace(name[0])
    ensures PlaceholderAt("{{ " + name + " }}" + rest, name) == Some(|name| + 6)
  {
    var t := "{{ " + name + " }}" + rest;
    var n := |name|;
    assert t[..2] == "{{" && t[2..3] == " " && t[3..3 + n] == name;
    assert t[3 + n..4 + n] == " " && t[4 + n..6 + n] == "}}";
    assert Layout(t, name, 3, 4 + n);
    PlaceholderAtComplete(t, name, 3, 4 + n);
  }

  /** In `{{ {{ name }} }}` the first `{{` is followed by a space and a
      brace, not by the name, so no match starts there. */
  lemma OpenThenBraceNoMatch(x: string, name: string)
    requires |name| > 0 && name[0] != '{' && |x| > 0 && x[0] == '{'
    ensures PlaceholderAt("{{ " + x, name).None?
  {
    var s := "{{ " + x;
    assert s[2..][0] == ' ' && s[2..][1..][0] == '{';
    assert SpaceRun(s[2..]) == 1;
    MatchOpen(s, name);
    MatchName(s, name, 3);
    assert 3 + |name| <= |s| ==> s[3..3 + |name|][0] != name[0];
  }
}
