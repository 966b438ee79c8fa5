/**
 * `make`: the build tree is emptied, then every template is filled once per
 * base image, images first and templates second, and written under the
 * filled path. The tree is a map from path text to content; a later write
 * to the same path replaces the earlier one.
 */
module Generate {
  import opened Wrappers
  import opened Text
  import opened Placeholder
  import opened Fill
  import opened Tags
  import opened Tree

  /** A template file: its path relative to the template root and its
      content as stored (before text-mode newline translation). */
  datatype Template = Template(path: string, content: string)

  /** The exit code of `make` when no base image is given. */
  const NoImagesExit: int := -1

  /** The names of the variables `make` builds, in the mapping's order. */
  const VariableNames: seq<string> := ["image", "image-safe", "base-image", "tag", "index", "password"]

  function DigitChar(d: nat): (c: char)
    requires d < 10
    ensures '0' <= c <= '9' && (c as int) - ('0' as int) == d
  {
    ('0' as int + d) as char
  }

  /** `str(i)` for a non-negative integer: its decimal digits, most
      significant first, with no leading zero. */
  function Decimal(n: nat): (r: string)
    ensures |r| >= 1 && (r[0] == '0' ==> n == 0)
    ensures forall i :: 0 <= i < |r| ==> '0' <= r[i] <= '9'
  {
    if n < 10 then [DigitChar(n)]
    else Decimal(n / 10) + [DigitChar(n % 10)]
  }

  /** The number a string of decimal digits denotes. */
  function DecimalValue(s: string): nat
    requires forall i :: 0 <= i < |s| ==> '0' <= s[i] <= '9'
  {
    if |s| == 0 then 0
    else DecimalValue(s[..|s| - 1]) * 10 + ((s[|s| - 1] as int) - ('0' as int))
  }

  /** The decimal string denotes the number it was made from. */
  lemma {:induction false} DecimalRoundTrip(n: nat)
    ensures DecimalValue(Decimal(n)) == n
  {
    if n >= 10 {
      var r := Decimal(n);
      DecimalRoundTrip(n / 10);
      assert r[..|r| - 1] == Decimal(n / 10);
    }
  }

  /** The six variable names are ones the pattern can be built from. */
  lemma VariableNamesValid()
    ensures forall k :: 0 <= k < |VariableNames| ==> ValidName(VariableNames[k])
  {
    NameValid("image");
    NameValid("image-safe");
    NameValid("base-image");
    NameValid("tag");
    NameValid("index");
    NameValid("password");
  }

  lemma NameValid(name: string)
    requires |name| > 0 && forall i :: 0 <= i < |name| ==> 'a' <= name[i] <= 'z' || name[i] == '-'
    ensures ValidName(name)
  {
  }

  /** The mapping `make` builds for the image at `index`: every name is
      one the pattern can be built from, in the order the mapping lists them. */
  function ImageVariables(image: string, index: nat, password: string, autotag: bool): (vars: Variables)
    requires '\\' !in image && '\\' !in password
    ensures ValidVariables(vars)
    ensures |vars| == |VariableNames| && forall k :: 0 <= k < |vars| ==> vars[k].0 == VariableNames[k]
  {
    var safe, base, tag, digits := ImageSafe(image), Strip(image), ImageTag(image, autotag), Decimal(index);
    StripWithout(image, '\\');
    Bind(image, safe, base, tag, digits, password)
  }

  /** The image and the password are passed through as given, and the
      index as a decimal string that reads back as the index. */
  lemma ImageVariablesGiven(image: string, index: nat, password: string, autotag: bool)
    requires '\\' !in image && '\\' !in password
    ensures var vars := ImageVariables(image, index, password, autotag);
      vars[0].1 == image && vars[5].1 == password && DecimalValue(vars[4].1) == index
  {
    DecimalRoundTrip(index);
  }

  /** The `image-safe` value is `Tags.ImageSafe` of the image, so it has the
      image's length and no `\`, `/` or `:`; the `base-image` value is the
      stripped image, which stripping again leaves alone; the `tag` value is
      `Tags.ImageTag` of the image, so it holds no `:`; the `index` value is
      the decimal string of the index. */
  lemma ImageVariablesDerived(image: string, index: nat, password: string, autotag: bool)
    requires '\\' !in image && '\\' !in password
    ensures var vars := ImageVariables(image, index, password, autotag);
      var safe := vars[1].1;
      safe == ImageSafe(image)
      && |safe| == |image| && '\\' !in safe && '/' !in safe && ':' !in safe
      && vars[2].1 == Strip(image) && Strip(vars[2].1) == vars[2].1
      && vars[3].1 == ImageTag(image, autotag) && ':' !in vars[3].1
      && vars[4].1 == Decimal(index)
  {
    StripIdempotent(image);
  }

  /** The variable names paired, in order, with six values free of backslashes. */
  function Bind(v0: string, v1: string, v2: string, v3: string, v4: string, v5: string): (vars: Variables)
    requires '\\' !in v0 && '\\' !in v1 && '\\' !in v2 && '\\' !in v3 && '\\' !in v4 && '\\' !in v5
    ensures ValidVariables(vars)
    ensures |vars| == |VariableNames| && forall k :: 0 <= k < |vars| ==> vars[k].0 == VariableNames[k]
    ensures vars[0].1 == v0 && vars[1].1 == v1 && vars[2].1 == v2
    ensures vars[3].1 == v3 && vars[4].1 == v4 && vars[5].1 == v5
  {
    VariableNamesValid();
    var values := [v0, v1, v2, v3, v4, v5];
    seq(6, k requires 0 <= k < 6 => (VariableNames[k], values[k]))
  }

  /** Every image and the password are free of backslashes. */
  predicate Escapable(images: seq<string>, password: string)
  {
    '\\' !in password && forall i :: 0 <= i < |images| ==> '\\' !in images[i]
  }

  /** The write for one template and one image: the filled path and the
      filled content (read in text mode, so with newlines translated). */
  function Filled(t: Template, vars: Variables): Write
    requires ValidVariables(vars)
  {
    (FillAll(t.path, vars), FillAll(NormalizeNewlines(t.content), vars))
  }

  /** The writes for the templates, in order, with one mapping. */
  function TemplateWrites(templates: seq<Template>, vars: Variables): (w: seq<Write>)
    requires ValidVariables(vars)
    ensures |w| == |templates|
    ensures forall t :: 0 <= t < |templates| ==> w[t] == Filled(templates[t], vars)
  {
    if |templates| == 0 then []
    else TemplateWrites(templates[..|templates| - 1], vars) + [Filled(templates[|templates| - 1], vars)]
  }

  /** One more template adds its write at the end. */
  lemma TemplateWritesSnoc(templates: seq<Template>, vars: Variables, t: nat)
    requires ValidVariables(vars) && t < |templates|
    ensures TemplateWrites(templates[..t + 1], vars) == TemplateWrites(templates[..t], vars) + [Filled(templates[t], vars)]
  {
    assert templates[..t + 1][..t] == templates[..t];
  }

  /** The mapping `make` builds for each image, in image order. */
  function Mappings(images: seq<string>, password: string, autotag: bool): (ms: seq<Variables>)
    requires Escapable(images, password)
    ensures |ms| == |images|
    ensures forall i :: 0 <= i < |images| ==> ms[i] == ImageVariables(images[i], i, password, autotag)
    ensures AllValid(ms)
  {
    seq(|images|, i requires 0 <= i < |images| => ImageVariables(images[i], i, password, autotag))
  }

  /** Every mapping is one the fill accepts. */
  predicate AllValid(ms: seq<Variables>)
  {
    forall i :: 0 <= i < |ms| ==> ValidVariables(ms[i])
  }

  /** The writes grouped by mapping: block `i` holds the writes with
      mapping `i`, one per template, in template order. */
  function Blocks(templates: seq<Template>, ms: seq<Variables>): (b: seq<seq<Write>>)
    requires AllValid(ms)
    ensures |b| == |ms|
  {
    if |ms| == 0 then []
    else Blocks(templates, ms[..|ms| - 1]) + [TemplateWrites(templates, ms[|ms| - 1])]
  }

  /** Block `i` holds the writes with mapping `i`. */
  lemma {:induction false} BlockAt(templates: seq<Template>, ms: seq<Variables>, i: nat)
    requires AllValid(ms) && i < |ms|
    ensures Blocks(templates, ms)[i] == TemplateWrites(templates, ms[i])
  {
    if i < |ms| - 1 {
      var front := ms[..|ms| - 1];
      BlockAt(templates, front, i);
      assert front[i] == ms[i];
    }
  }

  /** All the writes, mappings first and templates second. */
  function Writes(templates: seq<Template>, ms: seq<Variables>): seq<Write>
    requires AllValid(ms)
  {
    Concat(Blocks(templates, ms))
  }

  /** One more mapping adds its block of writes at the end. */
  lemma WritesSnoc(templates: seq<Template>, ms: seq<Variables>, i: nat)
    requires AllValid(ms) && i < |ms|
    ensures Writes(templates, ms[..i + 1]) == Writes(templates, ms[..i]) + TemplateWrites(templates, ms[i])
  {
    assert ms[..i + 1][..i] == ms[..i];
  }

  /** The tree after one more mapping is the tree before it with that
      mapping's block written. */
  lemma MakeStep(templates: seq<Template>, ms: seq<Variables>, i: nat)
    requires AllValid(ms) && i < |ms|
    ensures Apply(map[], Writes(templates, ms[..i + 1]))
      == Apply(Apply(map[], Writes(templates, ms[..i])), TemplateWrites(templates, ms[i]))
  {
    WritesSnoc(templates, ms, i);
    ApplyAppend(map[], Writes(templates, ms[..i]), TemplateWrites(templates, ms[i]));
  }

  /** There is one write per mapping and template, and the write for
      mapping `i` and template `t` comes at position `i * |templates| + t`. */
  lemma WritesIndex(templates: seq<Template>, ms: seq<Variables>)
    requires AllValid(ms)
    ensures |Writes(templates, ms)| == |ms| * |templates|
    ensures forall i, t :: 0 <= i < |ms| && 0 <= t < |templates| ==>
      Position(i, t, |templates|) < |ms| * |templates| &&
      Writes(templates, ms)[Position(i, t, |templates|)] == Filled(templates[t], ms[i])
  {
    BlocksShape(templates, ms);
    ConcatIndex(Blocks(templates, ms), |templates|);
    forall i, t | 0 <= i < |ms| && 0 <= t < |templates|
      ensures Blocks(templates, ms)[i][t] == Filled(templates[t], ms[i])
    {
      BlockPath(templates, ms, i, t);
    }
  }

  /** A path is in the tree the writes build exactly when some template
      fills to it with some mapping. */
  lemma WritesKeys(templates: seq<Template>, ms: seq<Variables>, path: string)
    requires AllValid(ms)
    ensures path in Apply(map[], Writes(templates, ms)) <==>
      exists i, t :: 0 <= i < |ms| && 0 <= t < |templates| && FillAll(templates[t].path, ms[i]) == path
  {
    if path in Apply(map[], Writes(templates, ms)) {
      WritesKeysFrom(templates, ms, path);
    }
    if exists i, t :: 0 <= i < |ms| && 0 <= t < |templates| && FillAll(templates[t].path, ms[i]) == path {
      var i, t :| 0 <= i < |ms| && 0 <= t < |templates| && FillAll(templates[t].path, ms[i]) == path;
      WritesKeysTo(templates, ms, i, t);
    }
  }

  /** Every path in the tree is the filled path of some mapping and template. */
  lemma WritesKeysFrom(templates: seq<Template>, ms: seq<Variables>, path: string)
    requires AllValid(ms) && path in Apply(map[], Writes(templates, ms))
    ensures exists i, t :: 0 <= i < |ms| && 0 <= t < |templates| && FillAll(templates[t].path, ms[i]) == path
  {
    BlocksShape(templates, ms);
    var i, t := ConcatKeyFrom(Blocks(templates, ms), |templates|, path);
    BlockPath(templates, ms, i, t);
  }

  /** The filled path of every mapping and template is in the tree. */
  lemma WritesKeysTo(templates: seq<Template>, ms: seq<Variables>, i: nat, t: nat)
    requires AllValid(ms) && i < |ms| && t < |templates|
    ensures FillAll(templates[t].path, ms[i]) in Apply(map[], Writes(templates, ms))
  {
    var blocks: seq<seq<Write>> := Blocks(templates, ms);
    var path := FillAll(templates[t].path, ms[i]);
    BlocksShape(templates, ms);
    BlockPath(templates, ms, i, t);
    ConcatKeys(blocks, |templates|, path);
  }

  /** Every block holds one write per template. */
  lemma BlocksShape(templates: seq<Template>, ms: seq<Variables>)
    requires AllValid(ms)
    ensures forall b :: 0 <= b < |Blocks(templates, ms)| ==> |Blocks(templates, ms)[b]| == |templates|
  {
    forall b | 0 <= b < |Blocks(templates, ms)| ensures |Blocks(templates, ms)[b]| == |templates| {
      BlockAt(templates, ms, b);
    }
  }

  /** Write `t` of block `i` goes to the path of template `t` filled with mapping `i`. */
  lemma BlockPath(templates: seq<Template>, ms: seq<Variables>, i: nat, t: nat)
    requires AllValid(ms) && i < |ms| && t < |templates|
    ensures |Blocks(templates, ms)[i]| == |templates|
    ensures Blocks(templates, ms)[i][t] == Filled(templates[t], ms[i])
    ensures Blocks(templates, ms)[i][t].0 == FillAll(templates[t].path, ms[i])
  {
    BlockAt(templates, ms, i);
  }

  /** When several mapping and template pairs fill to the same path, the
      tree holds the content of the last of them in mapping-then-template
      order. */
  lemma WritesLastWins(templates: seq<Template>, ms: seq<Variables>, i: nat, t: nat)
    requires AllValid(ms) && i < |ms| && t < |templates|
    requires forall i', t' :: 0 <= i' < |ms| && 0 <= t' < |templates| && (i < i' || (i == i' && t < t')) ==>
      FillAll(templates[t'].path, ms[i']) != FillAll(templates[t].path, ms[i])
    ensures var tree := Apply(map[], Writes(templates, ms));
      FillAll(templates[t].path, ms[i]) in tree
      && tree[FillAll(templates[t].path, ms[i])] == FillAll(NormalizeNewlines(templates[t].content), ms[i])
  {
    var blocks: seq<seq<Write>> := Blocks(templates, ms);
    BlocksShape(templates, ms);
    BlockPath(templates, ms, i, t);
    forall i', t' | 0 <= i' < |ms| && 0 <= t' < |templates| && (i < i' || (i == i' && t < t'))
      ensures blocks[i'][t'].0 != blocks[i][t].0
    {
      BlockPath(templates, ms, i', t');
    }
    ConcatLastWins(blocks, |templates|, i, t);
  }

  /** The build tree: a map from path text to file content. */
  class BuildRoot {
    var files: map<string, string>

    /** A tree holding whatever an earlier run left. */
    constructor(existing: map<string, string>)
      ensures files == existing
    {
      files := existing;
    }

    /** `_prepare_build_root`: remove the tree if there is one, then create
        it empty. */
    method Prepare()
      modifies this
      ensures files == map[]
    {
      files := map[];
    }

    /** The inner loop of `make`: every template filled with one mapping
        and written, in template order. */
    method WriteTemplates(templates: seq<Template>, vars: Variables)
      requires ValidVariables(vars)
      modifies this
      ensures files == Apply(old(files), TemplateWrites(templates, vars))
    {
      var t := 0;
      while t < |templates|
        invariant 0 <= t <= |templates|
        invariant files == Apply(old(files), TemplateWrites(templates[..t], vars))
      {
        var path, content := FillTemplate(templates[t].path, NormalizeNewlines(templates[t].content), vars);
        TemplateWritesSnoc(templates, vars, t);
        ApplySnoc(old(files), TemplateWrites(templates[..t], vars), (path, content));
        files := files[path := content];
        t := t + 1;
      }
      assert templates[..t] == templates;
    }

    /** `make`: with no base image, fail with exit code -1 and leave the
        tree alone; otherwise empty the tree and write, for each image in
        order and each template in order, the filled content under the
        filled path. */
    method Make(images: seq<string>, templates: seq<Template>, password: string, autotag: bool) returns (exitCode: int)
      requires Escapable(images, password)
      modifies this
      ensures |images| == 0 ==> exitCode == NoImagesExit && files == old(files)
      ensures |images| > 0 ==> exitCode == 0 && files == Apply(map[], Writes(templates, Mappings(images, password, autotag)))
    {
      if |images| == 0 {
        return NoImagesExit;
      }
      Prepare();
      ghost var ms := Mappings(images, password, autotag);
      var i := 0;
      while i < |images|
        invariant 0 <= i <= |images|
        invariant files == Apply(map[], Writes(templates, ms[..i]))
      {
        var vars := ImageVariables(images[i], i, password, autotag);
        assert vars == ms[i];
        MakeStep(templates, ms, i);
        WriteTemplates(templates, vars);
        i := i + 1;
      }
      assert ms[..i] == ms;
      return 0;
    }
  }

  /** Every path in the tree `make` generates is the filled path of some
      image and some template, and every such pair has its path in the tree. */
  lemma MakeKeys(images: seq<string>, templates: seq<Template>, password: string, autotag: bool, path: string)
    requires Escapable(images, password)
    ensures var ms := Mappings(images, password, autotag);
      path in Apply(map[], Writes(templates, ms)) <==>
      exists i, t :: 0 <= i < |images| && 0 <= t < |templates|
        && FillAll(templates[t].path, ImageVariables(images[i], i, password, autotag)) == path
  {
    WritesKeys(templates, Mappings(images, password, autotag), path);
  }

  /** When several image and template pairs fill to the same path, the file
      holds the content of the last of them in image-then-template order. */
  lemma MakeLastWins(images: seq<string>, templates: seq<Template>, password: string, autotag: bool, i: nat, t: nat)
    requires Escapable(images, password) && i < |images| && t < |templates|
    requires forall i', t' :: 0 <= i' < |images| && 0 <= t' < |templates| && (i < i' || (i == i' && t < t')) ==>
      FillAll(templates[t'].path, ImageVariables(images[i'], i', password, autotag))
        != FillAll(templates[t].path, ImageVariables(images[i], i, password, autotag))
    ensures var vars := ImageVariables(images[i], i, password, autotag);
      var tree := Apply(map[], Writes(templates, Mappings(images, password, autotag)));
      FillAll(templates[t].path, vars) in tree
      && tree[FillAll(templates[t].path, vars)] == FillAll(NormalizeNewlines(templates[t].content), vars)
  {
    WritesLastWins(templates, Mappings(images, password, autotag), i, t);
  }
}
