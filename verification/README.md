# pythonssh builder, modelled in Dafny

`builder.py` generates the files for a family of SSH-server Docker images:
`make` fills every file of a template tree once per base image and writes the
result into a fresh build tree; `build` finds the `# TAG=` line of each
generated dockerfile, tags the images `name:tag` (and `name:latest`) and
writes the list to `images.list`; `push` reads that list back.

This project models the deterministic core of that program:

- the placeholder substitution `{{ name }}` → value of
  `_fill_template_variable`, and `_fill_template`, which applies every
  variable in order to a template's path and content (modules `Scan`,
  `Placeholder`, `Fill`);
- the tag derivation `_autotag`, the manual tag, the `image-safe` form and
  the tag recovery `_find_tag` (module `Tags`);
- the per-image variable mapping and the `make` loop over a build tree held
  as a map from path to content, with `_prepare_build_root` (module
  `Generate`, class `BuildRoot`, over the generic write sequences of module
  `Tree`);
- the collection of image names in `build`, the `images.list` manifest it
  writes and the parse in `push` (module `Manifest`);
- the Python `str` operations all of this is written with (module `Text`).

The model follows the code where it differs from what the code appears to
intend:

- `_fill_template_variable` passes `re.IGNORECASE | re.MULTILINE` as the
  fourth positional argument of `re.sub`, which is `count`. The substitution
  is therefore case-sensitive and replaces at most the ten leftmost matches
  (2 | 8 = 10). `Placeholder.MaxReplacements` is that 10.
  `FillTemplateVariableCaseSensitive`, `FillTemplateVariableCount` and
  `FillTemplateVariableOverCap` state the consequences: beyond the tenth
  placeholder the template is copied as written.
- Filling is not idempotent merely because no value holds a placeholder: a
  pass can assemble a new placeholder out of the text around the one it
  replaces (`{{ {{ tag }} }}` with `tag` ↦ `tag`). `FillAllIdempotent`
  states the condition under which a second fill changes nothing, and
  `IdempotenceNeedsMoreThanInertValues` exhibits the counterexample.
- In `_autotag` the user is the first `/`-segment and the name the last; a
  middle segment (`registry.io/foo/bar`) is dropped, and neither user nor
  flavor reaches the result, which is `version or name`.
- `build` treats an empty tag (`# TAG=` followed by whitespace) as missing,
  exactly like a file without a tag line (`if not tag`).
- Files are read in text mode, so `\r\n` and a lone `\r` become `\n`
  (`Text.NormalizeNewlines`). A manifest entry holding a `\r` therefore does
  not read back as written; `Manifest.ManifestRoundTrip` requires entries
  without line breaks, and `Manifest.CollectedClean` proves that every entry
  `build` collects is such an entry.

## Model

| member | source | states |
|---|---|---|
| Text.Strip | builder.py:28 | `str.strip()`: the result is the slice of the input between the leading and trailing whitespace runs; it is empty exactly when the input is all whitespace, and otherwise starts and ends with a non-space |
| Text.StripFixed | builder.py:76 | a string with no whitespace at either end is its own `strip()` |
| Text.StripIdempotent | builder.py:76 | stripping twice is stripping once |
| Text.StripWithout | builder.py:28 | `strip()` adds no character |
| Text.Split | builder.py:28 | `split(sep)` gives at least one piece, empty pieces kept, and no piece holds the separator |
| Text.SplitNoSep | builder.py:29 | a string without the separator splits into itself alone |
| Text.Join | builder.py:121 | `sep.join(parts)`: one part is returned as it is; `JoinSplit` and `SplitJoin` make it the inverse of `split` |
| Text.JoinSplit | builder.py:121 | joining the pieces of a split with the same separator gives the string back |
| Text.SplitJoin | builder.py:121-129 | splitting the join of pieces without the separator gives the pieces back |
| Text.SplitConcat | builder.py:32 | splitting `a + sep + b` gives the pieces of `a` followed by the pieces of `b` |
| Text.SplitSingleIff | builder.py:29 | a split has one piece exactly when the separator does not occur |
| Text.SplitPiecesWithout | builder.py:49 | no piece of a split holds a character the string does not hold |
| Text.StartsWithIff | builder.py:50 | `startswith(prefix)` holds exactly when the first `len(prefix)` characters are the prefix |
| Text.ReplaceChar | builder.py:75 | single-character `replace`: every occurrence of the old character becomes the new one, every other character stays in place |
| Text.NormalizeNewlines | builder.py:71 | text-mode reading leaves no `\r`, leaves text without `\r` unchanged and never lengthens it |
| Text.NormalizeCRLF | builder.py:71 | a `\r\n` becomes one `\n`, and the `\r`-free text before it is copied |
| Text.NormalizeLoneCR | builder.py:71 | a `\r` not followed by `\n` becomes `\n`, and the `\r`-free text before it is copied |
| Text.NormalizePrefix | builder.py:71 | text without `\r` in front of the rest is copied unchanged, whatever the rest holds |
| Scan.Replace | builder.py:15 | the `re.sub` scan: leftmost matches replaced from left to right, at most `count` of them; `ReplaceWithoutMatch`, `ReplaceCapped`, `ReplaceOverCapTail` and `ReplaceFirstOnly` state what it does |
| Scan.ReplaceWithoutMatch | builder.py:15 | text without a match goes through `re.sub` unchanged |
| Scan.OccurrencesZeroIff | builder.py:15 | the match count is zero exactly when no position starts a match |
| Scan.ReplaceCapped | builder.py:15 | with a count cap, every match is replaced when there are at most cap of them, as with any larger cap; with more, the output still holds a match |
| Scan.ReplaceOverCapTail | builder.py:15 | with at least cap matches, the output is some text followed by the input from a point on, copied as written, and that copied tail holds exactly the matches beyond the first cap |
| Scan.ReplaceFirstOnly | builder.py:15 | a text that starts with a match and has none after it becomes the value followed by the rest |
| Placeholder.PlaceholderAt | builder.py:15 | a match of `{{\s*NAME\s*}}` is at least the braces and the name long and never runs past the text |
| Placeholder.PlaceholderAtIff | builder.py:15 | for a name not starting with whitespace, the pattern matches a prefix exactly when that prefix is braces, optional whitespace, the name as written, optional whitespace, braces |
| Placeholder.PlaceholderAtSound | builder.py:15 | what the pattern matches is a placeholder for the name |
| Placeholder.FillTemplateVariable | builder.py:14-15 | a template without a placeholder for the name is returned unchanged |
| Placeholder.FillTemplateVariableCount | builder.py:15 | up to ten placeholders are all replaced, exactly as an uncapped substitution would; with more than ten, the result still holds a placeholder |
| Placeholder.FillTemplateVariableOverCap | builder.py:15 | with ten placeholders or more, the result ends with the template from a point on, copied as written, and that tail holds exactly the placeholders beyond the first ten |
| Placeholder.FillTemplateVariableSingle | builder.py:15 | a template that is one placeholder `{{ name }}` becomes the value |
| Placeholder.FillTemplateVariableCaseSensitive | builder.py:15 | `{{ tag }}` is replaced, `{{ Tag }}` is left alone |
| Placeholder.NestedPlaceholderPass | builder.py:15 | one pass over `{{ {{ name }} }}` replaces only the inner placeholder |
| Fill.FillTemplate | builder.py:18-24 | the filled path is the path after every variable's pass in mapping order, and the filled content the content after the same passes; each depends only on its own input and the variables |
| Fill.FillAllAppend | builder.py:21-23 | filling with `a + b` is filling with `a`, then with `b` |
| Fill.FillAllInert | builder.py:21-23 | a text with no placeholder of any mapped name comes back unchanged |
| Fill.FillAllIdempotent | builder.py:18-24 | filling a second time changes nothing when the first fill left no placeholder of a mapped name |
| Fill.IdempotenceNeedsMoreThanInertValues | builder.py:18-24 | with `name` mapped to itself, `{{ {{ name }} }}` fills to `{{ name }}` and then to `name`, although the value holds no placeholder |
| Fill.FillAllSingle | builder.py:21-23 | with one variable, filling is one call of `_fill_template_variable` |
| Tags.ParseImage | builder.py:28-43 | the parsed name holds no `:` or `/`, the user no `:` or `/`, the version no `:` or `-`; there is a version exactly when the stripped reference holds a `:`; a flavor only comes with a version |
| Tags.RepoParts | builder.py:38-43 | the user and name segments hold no `/`, and no `:` when the chunk has none |
| Tags.VersionParts | builder.py:32-37 | the version holds no `-`; without `:` in the chunk neither version nor flavor holds one |
| Tags.ParseRender | builder.py:28-43 | parsing `user/name:version-flavor` written from well-formed parts gives those parts back |
| Tags.Autotag | builder.py:27-45 | the tag never holds a `:` |
| Tags.AutotagRender | builder.py:27-45 | the tag of a reference written from its parts is the version when it is present and non-empty, and the name otherwise; user and flavor do not matter |
| Tags.AutotagStripped | builder.py:28 | whitespace around the reference does not change the tag |
| Tags.AutotagWithoutVersion | builder.py:29-39 | without a `:` the tag is the last `/`-segment of the stripped reference |
| Tags.AutotagWithout | builder.py:27-45 | the tag holds no character the reference does not hold |
| Tags.AutotagExampleName | builder.py:27-45 | `alpine` is tagged `alpine` |
| Tags.AutotagExampleVersion | builder.py:27-45 | `python:3.11-alpine` is tagged `3.11` |
| Tags.AutotagExampleUser | builder.py:27-45 | `myuser/python:3.11-alpine` is tagged `3.11` |
| Tags.AutotagExampleEmptyVersion | builder.py:45 | `python:` and `python:-x` fall back to the name `python` |
| Tags.AutotagRegistryExample | builder.py:38-45 | `registry.io/foo/bar` is tagged `bar` |
| Tags.ManualTag | builder.py:77 | the manual tag has no `:`, has the stripped reference's length, and equals it with every `:` turned into `_` |
| Tags.ManualTagExample | builder.py:77 | `python:3.11-alpine` gives `python_3.11-alpine` |
| Tags.ManualTagIdempotent | builder.py:77 | the manual tag of a manual tag is itself |
| Tags.ManualTagFixed | builder.py:77 | a reference without `:` and without whitespace at either end is its own manual tag |
| Tags.ImageTag | builder.py:77 | the `tag` variable, automatic or manual, holds no `:`, and no backslash unless the image does |
| Tags.ImageSafe | builder.py:75 | `image-safe` has the image's length, turns every `\`, `/` and `:` into `_`, keeps every other character in place, and so holds none of the three |
| Tags.ImageSafeIdempotent | builder.py:75 | the safe form of a safe form is itself |
| Tags.FindTagInLines | builder.py:49-51 | the loop over the lines; `FindTagInLinesNone` and `FirstTagLine` state what it returns |
| Tags.FindTagInLinesNone | builder.py:49-51 | the scan finds nothing exactly when no line starts with `# TAG=` |
| Tags.FirstTagLine | builder.py:49-51 | the scan returns the stripped remainder of the first line that starts with `# TAG=` |
| Tags.FindTag | builder.py:48-51 | a found tag lies within one line |
| Tags.FindTagClean | builder.py:48-51 | a found tag is stripped and holds no character the file does not hold |
| Tags.FindTagRoundTrip | builder.py:48-51 | a file whose lines before `# TAG=tag` are not tag lines gives back `tag`, whatever follows |
| Tags.FindTagExample | builder.py:48-51 | `FROM alpine\n# TAG=web\n` gives `web` |
| Tags.RecoverTag | builder.py:99-102 | the tag is recovered exactly when `_find_tag` finds a non-empty one, and is that one; otherwise the missing-tag error |
| Tags.RecoverTagRoundTrip | builder.py:99-102 | a generated file declaring a non-empty tag gives that tag back |
| Tags.RecoverTagMissing | builder.py:99-102 | a file without a tag line is the missing-tag error |
| Generate.Decimal | builder.py:78 | `str(i)`: at least one decimal digit, and no leading zero |
| Generate.DecimalRoundTrip | builder.py:78 | the digits read back as the index |
| Generate.ImageVariables | builder.py:73-80 | the mapping lists `image`, `image-safe`, `base-image`, `tag`, `index`, `password` in that order, every name valid for the pattern and no value with a backslash |
| Generate.ImageVariablesGiven | builder.py:74-79 | the image and the password are passed through unchanged, and the index value reads back as the index |
| Generate.ImageVariablesDerived | builder.py:75-78 | `image-safe` is `Tags.ImageSafe` of the image, so it has the image's length and no `\`, `/`, `:`; `base-image` is the stripped image and already stripped; `tag` is `Tags.ImageTag` of the image, so it has no `:`; `index` is `Generate.Decimal` of the position |
| Generate.Mappings | builder.py:72-80 | one mapping per image, in image order, each the mapping for that image and its position |
| Generate.Filled | builder.py:82 | the write for one template and one mapping: the filled path and the filled content of the text as read; `TemplateWrites`, `WritesIndex` and `BuildRoot.WriteTemplates` place it |
| Generate.TemplateWrites | builder.py:81-85 | one write per template, in template order, each the filled path and filled content |
| Generate.WritesIndex | builder.py:72-85 | there is one write per image and template, and the write for image `i` and template `t` comes at position `i * templates + t` |
| Generate.WritesKeys | builder.py:72-85 | a path is in the tree the writes build exactly when some template fills to it with some mapping |
| Generate.WritesLastWins | builder.py:72-85 | when several pairs fill to the same path, the tree holds the content of the last in image-then-template order |
| Generate.BuildRoot.Prepare | builder.py:54-57 | after the reset the build tree is empty |
| Generate.BuildRoot.WriteTemplates | builder.py:81-85 | the tree is the old tree with every template's filled content written under its filled path, in template order |
| Generate.BuildRoot.Make | builder.py:67-85 | with no image, exit code -1 and the tree untouched; otherwise exit code 0 and the tree is exactly the empty tree after every image's writes, images first and templates second |
| Generate.MakeKeys | builder.py:70-85 | every path in the generated tree is the filled path of some image and template pair, and every such pair's path is in it |
| Generate.MakeLastWins | builder.py:70-85 | a path filled by several pairs holds the content of the last of them in image-then-template order |
| Tree.Apply | builder.py:85 | the tree after a sequence of writes; `ApplyAppend`, `ApplyKeys` and `ApplyLastWins` state what it holds |
| Tree.ApplyAppend | builder.py:81-85 | writing `a` then `b` is writing `a + b` |
| Tree.ApplyKeys | builder.py:85 | a path is in the tree after the writes exactly when it was there before or some write went to it |
| Tree.ApplyLastWins | builder.py:85 | a path holds the content of the last write that went to it |
| Manifest.ImageRepo | builder.py:93-94 | the repository is `user/name` when a user is given, `name` otherwise |
| Manifest.Entries | builder.py:103-119 | the entries for one dockerfile: `name:tag`, then `name:latest` when the tag is the latest tag; `CollectedClean` states they are clean |
| Manifest.Collected | builder.py:95-120 | the image list of `build`, or the missing-tag error of the first file without a usable tag; `CollectImages` is proved equal to it and `CollectedErrorStays` and `CollectedRoundTrip` state what it gives |
| Manifest.CollectImages | builder.py:95-120 | the loop gives the entries of every file in order (`name:tag`, then `name:latest` when the tag is the latest tag), or the missing-tag error of the first file without a usable tag |
| Manifest.CollectedErrorStays | builder.py:100-102 | once a file lacks a tag, the whole run ends with that error |
| Manifest.WriteManifest | builder.py:121 | the manifest text: the entries joined by `\n`; `ManifestRoundTrip` states that `push` reads them back |
| Manifest.ParseManifest | builder.py:129 | every entry read back is non-empty, stripped and spans one line |
| Manifest.KeptLines | builder.py:129 | the stripped non-empty lines, in order: every entry kept is non-empty and has no whitespace at either end |
| Manifest.KeptLinesClean | builder.py:129 | lines already stripped and non-empty are kept as they are |
| Manifest.ManifestRoundTrip | builder.py:121-129 | reading back the manifest written for clean entries gives those entries |
| Manifest.ManifestParseIdempotent | builder.py:121-129 | writing what was read and reading it again changes nothing |
| Manifest.CollectedClean | builder.py:103-119 | every entry `build` collects is clean, for a repository without line breaks or leading whitespace |
| Manifest.CollectedRoundTrip | builder.py:95-129 | `push` reads back exactly the image list `build` collected |

## Left out

- The command-line layer (typer options, `--help`, rich printing) is not modelled; the operations take their option values as parameters.
- The docker subprocess calls of `build` and `push` and their failure exits (-3, -4, -5) are not modelled; every docker call is taken to succeed.
- The file system is a map from path text to content: directory creation, `Path` normalisation of the filled path, `relative_to`, `is_file`, and the order in which `rglob` and `glob` list files are not modelled; templates and dockerfiles are given as sequences in the order they are listed.
- Encoding (UTF-8 bytes) is not modelled; text is a sequence of characters.
- General regular expressions are not modelled: only the one pattern `{{\s*NAME\s*}}`, for names that hold no whitespace and no regular-expression metacharacter (the six names `make` uses).
- Placeholder.FillTemplateVariable: requires the value to hold no backslash, because `re.sub` would read backslashes in the replacement as escapes, which are not modelled.
- Generate.BuildRoot.Make: requires the images and the password to hold no backslash, for the same reason.
- The exits of `make` and `build` (`typer.Exit(-1)`, `typer.Exit(-2)`) are an exit code and an error value (`Tags.TagError`) rather than exceptions.
- `_autotag` parses a user and a flavor that it never returns; they are kept in `Tags.ImageRef` only so that the parse can be stated.
