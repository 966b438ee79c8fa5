/**
 * `_fill_template`: every variable, in the mapping's order, applied as one
 * full substitution pass to the template's path text and, separately, to
 * its content.
 */
module Fill {
  import opened Wrappers
  import opened Text
  import opened Scan
  import opened Placeholder

  /** A variable mapping as a list of (name, value) pairs in dict order. */
  type Variables = seq<(string, string)>

  /** Every name is one the pattern can be built from, and no value holds a backslash. */
  predicate ValidVariables(vars: Variables)
  {
    forall k :: 0 <= k < |vars| ==> ValidName(vars[k].0) && '\\' !in vars[k].1
  }

  /** The text after the passes for `vars`, first to last. */
  function FillAll(t: string, vars: Variables): string
    requires ValidVariables(vars)
  {
    if |vars| == 0 then t
    else
      var (name, value) := vars[|vars| - 1];
      FillTemplateVariable(FillAll(t, vars[..|vars| - 1]), name, value)
  }

  /** `_fill_template(path, template, variables)`: the loop rebinds the
      path text and the content once per variable. The filled path is a
      function of the path and the variables alone, and the filled content
      of the content and the variables alone. */
  method FillTemplate(path: string, template: string, vars: Variables) returns (pathText: string, text: string)
    requires ValidVariables(vars)
    ensures pathText == FillAll(path, vars)
    ensures text == FillAll(template, vars)
  {
    pathText := path;
    text := template;
    var i := 0;
    while i < |vars|
      invariant 0 <= i <= |vars|
      invariant pathText == FillAll(path, vars[..i])
      invariant text == FillAll(template, vars[..i])
    {
      var (name, value) := vars[i];
      FillAllSnoc(path, vars, i);
      FillAllSnoc(template, vars, i);
      pathText := FillTemplateVariable(pathText, name, value);
      text := FillTemplateVariable(text, name, value);
      i := i + 1;
    }
    assert vars[..i] == vars;
  }

  /** One more variable is one more pass. */
  lemma FillAllSnoc(t: string, vars: Variables, i: nat)
    requires ValidVariables(vars) && i < |vars|
    ensures ValidVariables(vars[..i]) && ValidVariables(vars[..i + 1])
    ensures FillAll(t, vars[..i + 1]) == FillTemplateVariable(FillAll(t, vars[..i]), vars[i].0, vars[i].1)
  {
    assert vars[..i + 1][..i] == vars[..i];
  }

  /** Passes compose in order: filling with `a + b` is filling with `a`,
      then with `b`. */
  lemma {:induction false} FillAllAppend(t: string, a: Variables, b: Variables)
    requires ValidVariables(a) && ValidVariables(b)
    ensures ValidVariables(a + b)
    ensures FillAll(t, a + b) == FillAll(FillAll(t, a), b)
  {
    if |b| > 0 {
      var b' := b[..|b| - 1];
      assert (a + b)[..|a + b| - 1] == a + b';
      FillAllAppend(t, a, b');
    } else {
      assert a + b == a;
    }
  }

  /** No placeholder of any of the mapping's names in the text. */
  ghost predicate Inert(t: string, vars: Variables)
  {
    forall k :: 0 <= k < |vars| ==> !HasPlaceholder(t, vars[k].0)
  }

  /** A text with no placeholder of any mapped name is left as it is. */
  lemma {:induction false} FillAllInert(t: string, vars: Variables)
    requires ValidVariables(vars) && Inert(t, vars)
    ensures FillAll(t, vars) == t
  {
    if |vars| > 0 {
      var front := vars[..|vars| - 1];
      assert Inert(t, front) by {
        forall k | 0 <= k < |front| ensures !HasPlaceholder(t, front[k].0) {
          assert front[k] == vars[k];
        }
      }
      FillAllInert(t, front);
    }
  }

  /** Filling again with the same variables changes nothing, as long as
      the first fill left no placeholder of a mapped name behind. */
  lemma FillAllIdempotent(t: string, vars: Variables)
    requires ValidVariables(vars) && Inert(FillAll(t, vars), vars)
    ensures FillAll(FillAll(t, vars), vars) == FillAll(t, vars)
  {
    FillAllInert(FillAll(t, vars), vars);
  }

  /** Values free of placeholders are not enough for idempotence: the pass
      for a name can assemble a new placeholder for that name out of the text
      around the one it replaces, and the second run then changes the text. */
  lemma IdempotenceNeedsMoreThanInertValues(name: string)
    requires ValidName(name)
    ensures var vars := [(name, name)];
      && ValidVariables(vars) && Inert(name, vars)
      && FillAll("{{ {{ " + name + " }} }}", vars) == "{{ " + name + " }}"
      && FillAll(FillAll("{{ {{ " + name + " }} }}", vars), vars) == name
  {
    NameHasNoMetaChars(name);
    assert Inert(name, [(name, name)]) by {
      NoBraceNoPlaceholder(name, name);
    }
    NestedFillOnce(name);
    FillAllSingle("{{ " + name + " }}", name, name);
    FillTemplateVariableSingle(name, name);
  }

  /** The first run over `{{ {{ name }} }}` with `name` mapped to itself. */
  lemma NestedFillOnce(name: string)
    requires ValidName(name)
    ensures FillAll("{{ {{ " + name + " }} }}", [(name, name)]) == "{{ " + name + " }}"
  {
    NameHasNoMetaChars(name);
    assert name[0] in name;
    FillAllSingle("{{ {{ " + name + " }} }}", name, name);
    NestedPlaceholderPass(name, name);
  }

  /** With one variable, filling is one call of `_fill_template_variable`. */
  lemma FillAllSingle(t: string, name: string, value: string)
    requires ValidName(name) && '\\' !in value
    ensures ValidVariables([(name, value)])
    ensures FillAll(t, [(name, value)]) == FillTemplateVariable(t, name, value)
  {
    assert [(name, value)][..0] == [];
  }
}
