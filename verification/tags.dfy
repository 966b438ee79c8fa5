/**
 * Tag derivation and recovery: `_autotag`, the manual tag and the
 * `image-safe` form built for each image, `_find_tag`, and the
 * missing-tag exit of `build`.
 */
module Tags {
  import opened Wrappers
  import opened Text

  /** The parts `_autotag` parses out of an image reference
      `user/.../name:version-flavor`; only `version` and `name` reach its result. */
  datatype ImageRef = ImageRef(user: Option<string>, name: string, version: Option<string>, flavor: Option<string>)

  /** The parsing half of `_autotag`: strip, then parse what is left. */
  function ParseImage(image: string): (r: ImageRef)
    ensures ':' !in r.name && '/' !in r.name
    ensures r.user.Some? ==> ':' !in r.user.value && '/' !in r.user.value
    ensures r.version.None? <==> ':' !in Strip(image)
    ensures r.version.Some? ==> ':' !in r.version.value && '-' !in r.version.value
    ensures r.flavor.Some? ==> r.version.Some? && ':' !in r.flavor.value
  {
    ParseStrippedParts(Strip(image));
    ParseStripped(Strip(image))
  }

  /** Split on `:`, parse the first chunk as the repository and the second,
      when there is one, as `version-flavor`; chunks after the second are
      dropped. */
  function ParseStripped(s: string): ImageRef
  {
    var chunks := Split(s, ':');
    var (user, name) := RepoParts(chunks[0]);
    if |chunks| == 1 then ImageRef(user, name, None, None)
    else
      var (version, flavor) := VersionParts(chunks[1]);
      ImageRef(user, name, Some(version), flavor)
  }

  /** What the parse gives back holds no `:`, its name and user no `/`, its
      version no `-`; there is a version exactly when there was a `:`. */
  lemma ParseStrippedParts(s: string)
    ensures var r := ParseStripped(s);
      && ':' !in r.name && '/' !in r.name
      && (r.user.Some? ==> ':' !in r.user.value && '/' !in r.user.value)
      && (r.version.None? <==> ':' !in s)
      && (r.version.Some? ==> ':' !in r.version.value && '-' !in r.version.value)
      && (r.flavor.Some? ==> r.version.Some? && ':' !in r.flavor.value)
  {
    SplitSingleIff(s, ':');
  }

  /** The repository chunk split on `/`: the first segment is the user when
      there is more than one segment, and the last is the name. */
  function RepoParts(repo: string): (r: (Option<string>, string))
    ensures '/' !in r.1 && (r.0.Some? ==> '/' !in r.0.value)
    ensures ':' !in repo ==> ':' !in r.1 && (r.0.Some? ==> ':' !in r.0.value)
  {
    var chunks3 := Split(repo, '/');
    assert ':' !in repo ==> forall i :: 0 <= i < |chunks3| ==> ':' !in chunks3[i] by {
      if ':' !in repo { SplitPiecesWithout(repo, '/', ':'); }
    }
    (if |chunks3| == 1 then None else Some(chunks3[0]), chunks3[|chunks3| - 1])
  }

  /** The tag chunk split on `-`: the version is the first piece, and the
      flavor, when there is more than one piece, the rest joined back with `-`. */
  function VersionParts(chunk: string): (r: (string, Option<string>))
    ensures '-' !in r.0
    ensures ':' !in chunk ==> ':' !in r.0 && (r.1.Some? ==> ':' !in r.1.value)
  {
    var chunks2 := Split(chunk, '-');
    if ':' in chunk then
      (chunks2[0], if |chunks2| == 1 then None else Some(Join(chunks2[1..], '-')))
    else
      SplitPiecesWithout(chunk, '-', ':');
      (chunks2[0], if |chunks2| == 1 then None else Some(JoinWithout(chunks2[1..], '-', ':')))
  }

  /** `sep.join(parts)`, with the fact that a character found in no part
      and different from `sep` is not in the result. */
  function JoinWithout(parts: seq<string>, sep: char, c: char): (r: string)
    requires c != sep && forall i :: 0 <= i < |parts| ==> c !in parts[i]
    ensures r == Join(parts, sep) && c !in r
  {
    if |parts| <= 1 then Join(parts, sep)
    else
      var rest := JoinWithout(parts[1..], sep, c);
      assert c !in parts[0];
      parts[0] + [sep] + rest
  }

  /** `_autotag(image)`: `version or name`, so an absent or empty version
      falls back to the last `/`-segment of the repository. Its result
      never holds a `:`. */
  function Autotag(image: string): (r: string)
    ensures ':' !in r
  {
    var p := ParseImage(image);
    if p.version.Some? && p.version.value != "" then p.version.value else p.name
  }

  /** The parts are ones `ParseImage` can give back: no `:` anywhere, no
      `/` in the user or the name, no `-` in the version, no whitespace,
      and a flavor only after a version. */
  predicate WellFormed(r: ImageRef)
  {
    && (r.user.Some? ==> ':' !in r.user.value && '/' !in r.user.value && NoSpace(r.user.value))
    && ':' !in r.name && '/' !in r.name && NoSpace(r.name)
    && (r.version.Some? ==> ':' !in r.version.value && '-' !in r.version.value && NoSpace(r.version.value))
    && (r.flavor.Some? ==> r.version.Some? && ':' !in r.flavor.value && NoSpace(r.flavor.value))
  }

  /** The reference text for the parts: `user/name:version-flavor`, each
      separator written only when the part after it is present. */
  function Render(r: ImageRef): (s: string)
  {
    var repo := RenderRepo(r.user, r.name);
    if r.version.None? then repo else repo + [':'] + RenderVersion(r.version.value, r.flavor)
  }

  function RenderRepo(user: Option<string>, name: string): string
  {
    if user.Some? then user.value + ['/'] + name else name
  }

  function RenderVersion(version: string, flavor: Option<string>): string
  {
    if flavor.Some? then version + ['-'] + flavor.value else version
  }

  lemma RepoPartsRender(user: Option<string>, name: string)
    requires '/' !in name && (user.Some? ==> '/' !in user.value)
    ensures RepoParts(RenderRepo(user, name)) == (user, name)
  {
    SplitNoSep(name, '/');
    if user.Some? {
      SplitConcat(user.value, name, '/');
      SplitNoSep(user.value, '/');
    }
  }

  lemma VersionPartsRender(version: string, flavor: Option<string>)
    requires '-' !in version
    ensures VersionParts(RenderVersion(version, flavor)) == (version, flavor)
  {
    SplitNoSep(version, '-');
    if flavor.Some? {
      SplitConcat(version, flavor.value, '-');
      JoinSplit(flavor.value, '-');
      assert ([version] + Split(flavor.value, '-'))[1..] == Split(flavor.value, '-');
    }
  }

  lemma SplitTwo(a: string, b: string, sep: char)
    requires sep !in a && sep !in b
    ensures Split(a + [sep] + b, sep) == [a, b]
  {
    SplitConcat(a, b, sep);
    SplitNoSep(a, sep);
    SplitNoSep(b, sep);
  }

  lemma RenderNoSpace(r: ImageRef)
    requires WellFormed(r)
    ensures NoSpace(Render(r))
  {
  }

  lemma RenderNoColon(r: ImageRef)
    requires WellFormed(r)
    ensures ':' !in RenderRepo(r.user, r.name)
    ensures r.version.Some? ==> ':' !in RenderVersion(r.version.value, r.flavor)
  {
  }

  /** Parsing a rendered reference gives its parts back. */
  lemma ParseRender(r: ImageRef)
    requires WellFormed(r)
    ensures ParseImage(Render(r)) == r
  {
    RenderNoSpace(r);
    StripNoSpace(Render(r));
    RenderNoColon(r);
    var repo := RenderRepo(r.user, r.name);
    RepoPartsRender(r.user, r.name);
    if r.version.None? {
      SplitNoSep(repo, ':');
    } else {
      SplitTwo(repo, RenderVersion(r.version.value, r.flavor), ':');
      VersionPartsRender(r.version.value, r.flavor);
    }
  }

  /** The tag `_autotag` gives for a reference written from its parts: the
      version when there is a non-empty one, the name otherwise. User and
      flavor never reach it. */
  lemma AutotagRender(r: ImageRef)
    requires WellFormed(r)
    ensures Autotag(Render(r)) == if r.version.Some? && r.version.value != "" then r.version.value else r.name
  {
    ParseRender(r);
  }

  /** Whitespace around the reference does not change the tag. */
  lemma AutotagStripped(image: string)
    ensures Autotag(Strip(image)) == Autotag(image)
  {
    StripIdempotent(image);
  }

  /** Without a `:` there is no version, and the tag is the last
      `/`-segment of the stripped reference. */
  lemma AutotagWithoutVersion(image: string)
    requires ':' !in Strip(image)
    ensures var segments := Split(Strip(image), '/');
      Autotag(image) == segments[|segments| - 1]
  {
    ParseNoColon(Strip(image));
  }

  lemma ParseNoColon(s: string)
    requires ':' !in s
    ensures ParseStripped(s).version.None?
    ensures ParseStripped(s).name == Split(s, '/')[|Split(s, '/')| - 1]
  {
    SplitNoSep(s, ':');
    ParseSingleChunk(s);
    RepoPartsName(s);
  }

  lemma ParseSingleChunk(s: string)
    requires Split(s, ':') == [s]
    ensures ParseStripped(s) == ImageRef(RepoParts(s).0, RepoParts(s).1, None, None)
  {
  }

  lemma RepoPartsName(repo: string)
    ensures RepoParts(repo).1 == Split(repo, '/')[|Split(repo, '/')| - 1]
  {
  }

  /** `alpine` is tagged `alpine`. */
  lemma AutotagExampleName()
    ensures Autotag("alpine") == "alpine"
  {
    var r := ImageRef(None, "alpine", None, None);
    assert WellFormed(r) by { AsciiNoSpace("alpine"); }
    AutotagExample("alpine", r);
  }

  /** `python:3.11-alpine` is tagged `3.11`. */
  lemma AutotagExampleVersion()
    ensures Autotag("python:3.11-alpine") == "3.11"
  {
    var r := ImageRef(None, "python", Some("3.11"), Some("alpine"));
    ExampleParts(r);
    assert Render(r) == "python:3.11-alpine";
    AutotagExample("python:3.11-alpine", r);
  }

  /** The user prefix does not reach the tag. */
  lemma AutotagExampleUser()
    ensures Autotag("myuser/python:3.11-alpine") == "3.11"
  {
    var r := ImageRef(Some("myuser"), "python", Some("3.11"), Some("alpine"));
    ExampleParts(ImageRef(None, "python", Some("3.11"), Some("alpine")));
    ExampleUser();
    ExampleUserRender();
    AutotagExample("myuser/python:3.11-alpine", r);
  }

  /** The parts of the `python:3.11-alpine` example are well formed. */
  lemma ExampleParts(r: ImageRef)
    requires r == ImageRef(None, "python", Some("3.11"), Some("alpine"))
    ensures WellFormed(r)
  {
    AsciiNoSpace("python"); AsciiNoSpace("3.11"); AsciiNoSpace("alpine");
  }

  /** Adding the user `myuser` keeps the parts well formed. */
  lemma ExampleUser()
    ensures WellFormed(ImageRef(Some("myuser"), "python", Some("3.11"), Some("alpine")))
  {
    ExampleParts(ImageRef(None, "python", Some("3.11"), Some("alpine")));
    AsciiNoSpace("myuser");
  }

  lemma ExampleUserRender()
    ensures Render(ImageRef(Some("myuser"), "python", Some("3.11"), Some("alpine"))) == "myuser/python:3.11-alpine"
  {
  }

  /** An empty version falls back to the name (`version or name`). */
  lemma AutotagExampleEmptyVersion()
    ensures Autotag("python:") == "python"
    ensures Autotag("python:-x") == "python"
  {
    var r1 := ImageRef(None, "python", Some(""), None);
    var r2 := ImageRef(None, "python", Some(""), Some("x"));
    assert WellFormed(r1) && WellFormed(r2) by { AsciiNoSpace("python"); AsciiNoSpace("x"); }
    assert Render(r1) == "python:";
    assert Render(r2) == "python:-x";
    AutotagExample("python:", r1);
    AutotagExample("python:-x", r2);
  }

  lemma AutotagExample(image: string, r: ImageRef)
    requires WellFormed(r) && Render(r) == image
    ensures Autotag(image) == if r.version.Some? && r.version.value != "" then r.version.value else r.name
  {
    AutotagRender(r);
  }

  /** A string of visible ASCII characters holds no whitespace. */
  lemma AsciiNoSpace(s: string)
    requires forall i :: 0 <= i < |s| ==> '!' <= s[i] <= '~'
    ensures NoSpace(s)
  {
  }

  /** Only the last `/`-segment of the repository reaches the tag: the
      middle of a three-segment repository is dropped with the rest. */
  lemma AutotagRegistryExample()
    ensures Autotag("registry.io/foo/bar") == "bar"
  {
    RegistryExampleStripped();
    RegistryExampleSegments();
    AutotagWithoutVersion("registry.io/foo/bar");
  }

  lemma RegistryExampleStripped()
    ensures Strip("registry.io/foo/bar") == "registry.io/foo/bar" && ':' !in "registry.io/foo/bar"
  {
    RegistryExampleChars();
    StripNoSpace("registry.io/foo/bar");
  }

  lemma RegistryExampleChars()
    ensures NoSpace("registry.io/foo/bar") && ':' !in "registry.io/foo/bar"
  {
    AsciiNoSpace("registry.io/foo/bar");
  }

  lemma RegistryExampleSegments()
    ensures Split("registry.io/foo/bar", '/') == ["registry.io", "foo", "bar"]
  {
    assert "registry.io/foo/bar" == "registry.io" + ['/'] + "foo" + ['/'] + "bar";
    SplitThree("registry.io", "foo", "bar", '/');
  }

  /** The manual tag (used when automatic tagging is off): the stripped
      reference with every `:` turned into `_`. */
  function ManualTag(image: string): (r: string)
    ensures ':' !in r && |r| == |Strip(image)|
    ensures forall i :: 0 <= i < |r| ==> r[i] == (if Strip(image)[i] == ':' then '_' else Strip(image)[i])
  {
    ReplaceChar(Strip(image), ':', '_')
  }

  /** The manual tag of `python:3.11-alpine` is `python_3.11-alpine`. */
  lemma ManualTagExample()
    ensures ManualTag("python:3.11-alpine") == "python_3.11-alpine"
  {
    ManualTagExampleStripped();
    ManualTagExampleReplaced();
  }

  lemma ManualTagExampleStripped()
    ensures Strip("python:3.11-alpine") == "python:3.11-alpine"
  {
    AsciiNoSpace("python:3.11-alpine");
    StripNoSpace("python:3.11-alpine");
  }

  lemma ManualTagExampleReplaced()
    ensures ReplaceChar("python:3.11-alpine", ':', '_') == "python_3.11-alpine"
  {
    ManualTagExampleParts();
    ReplaceCharAround("python", "3.11-alpine", ':', '_');
  }

  lemma ManualTagExampleParts()
    ensures "python:3.11-alpine" == "python" + [':'] + "3.11-alpine"
    ensures "python" + ['_'] + "3.11-alpine" == "python_3.11-alpine"
    ensures ':' !in "python" && ':' !in "3.11-alpine"
  {
  }

  /** The manual tag is its own manual tag. */
  lemma ManualTagIdempotent(image: string)
    ensures ManualTag(ManualTag(image)) == ManualTag(image)
  {
    var r := ManualTag(image);
    ManualTagEnds(image);
    ManualTagFixed(r);
  }

  /** The manual tag keeps the non-space ends of the stripped reference. */
  lemma ManualTagEnds(image: string)
    ensures NoEndSpace(ManualTag(image))
  {
    var t := Strip(image);
    var r := ManualTag(image);
    if r != [] {
      assert r[0] == t[0] || r[0] == '_';
      assert r[|r| - 1] == t[|t| - 1] || r[|r| - 1] == '_';
    }
  }

  /** A reference without `:` and without whitespace at either end is its
      own manual tag. */
  lemma ManualTagFixed(r: string)
    requires ':' !in r && NoEndSpace(r)
    ensures ManualTag(r) == r
  {
    StripFixed(r);
    forall i | 0 <= i < |r| ensures ManualTag(r)[i] == r[i] {
      assert r[i] in r;
    }
  }

  /** The `tag` variable: the autotag, or the manual tag when autotagging
      is off. Either way it holds no `:`, and no backslash unless the image
      holds one. */
  function ImageTag(image: string, autotag: bool): (r: string)
    ensures ':' !in r
    ensures '\\' !in image ==> '\\' !in r
  {
    if autotag then
      assert '\\' !in image ==> '\\' !in Autotag(image) by {
        if '\\' !in image { AutotagWithout(image, '\\'); }
      }
      Autotag(image)
    else
      assert '\\' !in image ==> '\\' !in ManualTag(image) by {
        if '\\' !in image { StripWithout(image, '\\'); }
      }
      ManualTag(image)
  }

  /** The autotag is a piece of the image: it holds no character the image does not. */
  lemma AutotagWithout(image: string, c: char)
    requires c !in image
    ensures c !in Autotag(image)
  {
    var s := Strip(image);
    StripWithout(image, c);
    var chunks := Split(s, ':');
    SplitPiecesWithout(s, ':', c);
    PartsWithout(chunks, c);
  }

  lemma PartsWithout(chunks: seq<string>, c: char)
    requires |chunks| >= 1 && forall i :: 0 <= i < |chunks| ==> c !in chunks[i]
    ensures var r := RepoParts(chunks[0]); c !in r.1
    ensures |chunks| > 1 ==> c !in VersionParts(chunks[1]).0
  {
    SplitPiecesWithout(chunks[0], '/', c);
    if |chunks| > 1 {
      SplitPiecesWithout(chunks[1], '-', c);
    }
  }

  /** The `image-safe` variable: the reference with every `\`, `/` and `:`
      turned into `_`, all other characters kept in place; whitespace is not stripped. */
  function ImageSafe(image: string): (r: string)
    ensures |r| == |image|
    ensures forall i :: 0 <= i < |r| ==> r[i] == (if image[i] in "\\/:" then '_' else image[i])
    ensures '\\' !in r && '/' !in r && ':' !in r
  {
    ReplaceChar(ReplaceChar(ReplaceChar(image, '\\', '_'), '/', '_'), ':', '_')
  }

  /** A reference that is already safe is its own safe form, so the
      transform is idempotent. */
  lemma ImageSafeIdempotent(image: string)
    ensures ImageSafe(ImageSafe(image)) == ImageSafe(image)
  {
    var r := ImageSafe(image);
    assert ImageSafe(r) == r by {
      forall i | 0 <= i < |r| ensures ImageSafe(r)[i] == r[i] {
        assert r[i] !in "\\/:";
      }
    }
  }

  /** The literal start of a tag declaration line. */
  const TagPrefix := "# TAG="

  predicate IsTagLine(line: string)
  {
    StartsWith(line, TagPrefix)
  }

  /** The scan of `_find_tag` over the lines: the stripped remainder of the
      first tag line, or `None` when no line is one. */
  function FindTagInLines(lines: seq<string>): Option<string>
  {
    if |lines| == 0 then None
    else if IsTagLine(lines[0]) then Some(Strip(lines[0][|TagPrefix|..]))
    else FindTagInLines(lines[1..])
  }

  /** The scan finds nothing exactly when no line is a tag line. */
  lemma {:induction false} FindTagInLinesNone(lines: seq<string>)
    ensures FindTagInLines(lines).None? <==> forall i :: 0 <= i < |lines| ==> !IsTagLine(lines[i])
  {
    if |lines| > 0 && !IsTagLine(lines[0]) {
      FindTagInLinesNone(lines[1..]);
      forall i | 1 <= i < |lines| ensures lines[i] == lines[1..][i - 1] {
      }
    }
  }

  /** `_find_tag(dockerfile)`: the lines are the pieces of a split on `\n`,
      so a found tag is on one line. */
  function FindTag(dockerfile: string): (r: Option<string>)
    ensures r.Some? ==> '\n' !in r.value
  {
    var lines := Split(dockerfile, '\n');
    var r := FindTagInLines(lines);
    assert r.Some? ==> '\n' !in r.value by {
      if r.Some? {
        FoundLineClean(lines, '\n');
      }
    }
    r
  }

  /** A found tag is stripped, and holds no character the file does not hold. */
  lemma FindTagClean(dockerfile: string, c: char)
    requires c !in dockerfile && FindTag(dockerfile).Some?
    ensures c !in FindTag(dockerfile).value && Strip(FindTag(dockerfile).value) == FindTag(dockerfile).value
  {
    SplitPiecesWithout(dockerfile, '\n', c);
    FoundLineClean(Split(dockerfile, '\n'), c);
  }

  lemma {:induction false} FoundLineClean(lines: seq<string>, c: char)
    requires forall i :: 0 <= i < |lines| ==> c !in lines[i]
    requires FindTagInLines(lines).Some?
    ensures c !in FindTagInLines(lines).value
    ensures Strip(FindTagInLines(lines).value) == FindTagInLines(lines).value
  {
    if IsTagLine(lines[0]) {
      SuffixWithout(lines[0], |TagPrefix|, c);
      StripWithout(lines[0][|TagPrefix|..], c);
      StripIdempotent(lines[0][|TagPrefix|..]);
    } else {
      FoundLineClean(lines[1..], c);
    }
  }

  /** A file whose lines before the declaration are not tag lines gives
      back the declared tag, whatever follows, later tag lines included. */
  lemma {:induction false} FindTagRoundTrip(before: seq<string>, tag: string, after: seq<string>)
    requires forall i :: 0 <= i < |before| ==> '\n' !in before[i] && !IsTagLine(before[i])
    requires forall i :: 0 <= i < |after| ==> '\n' !in after[i]
    requires '\n' !in tag && NoSpace(tag)
    ensures FindTag(Join(before + [TagPrefix + tag] + after, '\n')) == Some(tag)
  {
    var lines := before + [TagPrefix + tag] + after;
    var line := TagPrefix + tag;
    assert '\n' !in line;
    SplitJoin(lines, '\n');
    StartsWithConcat(TagPrefix, tag);
    assert lines[|before|] == line;
    StripNoSpace(tag);
    FirstTagLine(lines, |before|);
  }

  /** Dropping a line before the first tag line keeps it first. */
  lemma FirstTagLineUnshift(lines: seq<string>, k: nat)
    requires 0 < k < |lines| && IsTagLine(lines[k])
    requires forall j :: 0 <= j < k ==> !IsTagLine(lines[j])
    ensures !IsTagLine(lines[0]) && lines[1..][k - 1] == lines[k]
    ensures forall j :: 0 <= j < k - 1 ==> !IsTagLine(lines[1..][j])
  {
    forall j | 0 <= j < k - 1 ensures !IsTagLine(lines[1..][j]) {
      assert lines[1..][j] == lines[j + 1];
    }
  }

  /** The scan returns the stripped remainder of the first tag line. */
  lemma {:induction false} FirstTagLine(lines: seq<string>, k: nat)
    requires k < |lines| && IsTagLine(lines[k])
    requires forall j :: 0 <= j < k ==> !IsTagLine(lines[j])
    ensures FindTagInLines(lines) == Some(Strip(lines[k][|TagPrefix|..]))
  {
    if k > 0 {
      FirstTagLineUnshift(lines, k);
      FirstTagLine(lines[1..], k - 1);
    }
  }

  /** A line that does not start with `#` is not a tag line. */
  lemma NotTagLine(line: string)
    requires |line| < |TagPrefix| || line[0] != '#'
    ensures !IsTagLine(line)
  {
  }

  /** The first tag line is found after other lines, and its value is stripped. */
  lemma FindTagExample()
    ensures FindTag("FROM alpine\n# TAG=web\n") == Some("web")
  {
    FindTagExampleText();
    assert FindTag(Join(["FROM alpine"] + [TagPrefix + "web"] + [""], '\n')) == Some("web") by {
      FindTagExampleLines();
      FindTagRoundTrip(["FROM alpine"], "web", [""]);
    }
  }

  lemma FindTagExampleLines()
    ensures !IsTagLine("FROM alpine") && NoSpace("web") && '\n' !in "web"
    ensures forall i :: 0 <= i < |["FROM alpine"]| ==> '\n' !in ["FROM alpine"][i] && !IsTagLine(["FROM alpine"][i])
    ensures forall i :: 0 <= i < |[""]| ==> '\n' !in [""][i]
  {
    NotTagLine("FROM alpine");
  }

  lemma FindTagExampleText()
    ensures Join(["FROM alpine"] + [TagPrefix + "web"] + [""], '\n') == "FROM alpine\n# TAG=web\n"
  {
    assert ["FROM alpine"] + [TagPrefix + "web"] + [""] == ["FROM alpine", TagPrefix + "web", ""];
  }

  datatype TagError = MissingTag

  /** The check in `build` after `_find_tag`: no tag line, or one whose
      remainder strips to nothing, is the fatal missing-tag error. */
  function RecoverTag(dockerfile: string): (r: Result<string, TagError>)
    ensures r.Ok? <==> FindTag(dockerfile).Some? && FindTag(dockerfile).value != ""
    ensures r.Ok? ==> Some(r.value) == FindTag(dockerfile)
  {
    match FindTag(dockerfile)
    case None => Err(MissingTag)
    case Some(tag) => if tag == "" then Err(MissingTag) else Ok(tag)
  }

  /** A generated file declaring a tag gives that tag back; one without a
      tag line is the missing-tag error. */
  lemma RecoverTagRoundTrip(before: seq<string>, tag: string, after: seq<string>)
    requires forall i :: 0 <= i < |before| ==> '\n' !in before[i] && !IsTagLine(before[i])
    requires forall i :: 0 <= i < |after| ==> '\n' !in after[i]
    requires '\n' !in tag && NoSpace(tag) && tag != ""
    ensures RecoverTag(Join(before + [TagPrefix + tag] + after, '\n')) == Ok(tag)
  {
    FindTagRoundTrip(before, tag, after);
  }

  lemma RecoverTagMissing(lines: seq<string>)
    requires forall i :: 0 <= i < |lines| ==> '\n' !in lines[i] && !IsTagLine(lines[i])
    ensures RecoverTag(Join(lines, '\n')) == Err(MissingTag)
  {
    FindTagInLinesNone(Split(Join(lines, '\n'), '\n'));
    if |lines| == 0 {
      assert Split("", '\n') == [""];
      assert !IsTagLine("");
    } else {
      SplitJoin(lines, '\n');
    }
  }
}
