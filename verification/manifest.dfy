/**
 * The manifest `images.list`: `build` collects one `name:tag` entry per
 * generated dockerfile (and a `name:latest` entry after the one whose tag is
 * the requested latest tag) and writes them joined by `\n`; `push` reads the
 * file back, strips every line and drops the empty ones.
 */
module Manifest {
  import opened Wrappers
  import opened Text
  import opened Tags

  /** The image repository `build` tags with: `user/name`, or `name` alone
      when no user is given. */
  function ImageRepo(name: string, user: string): (r: string)
    ensures user == "" ==> r == name
    ensures user != "" ==> (|r| == |user| + 1 + |name| && r[..|user|] == user
      && r[|user|] == '/' && r[|user| + 1..] == name)
  {
    if user != "" then user + "/" + name else name
  }

  /** The entries for one dockerfile whose tag is `tag`. */
  function Entries(repo: string, tag: string, latest: string): seq<string>
  {
    [repo + ":" + tag] + (if latest == tag then [repo + ":latest"] else [])
  }

  /** The image list after the dockerfiles `files` (their text as read), in
      order, or the missing-tag error of the first one without a usable tag. */
  function Collected(repo: string, files: seq<string>, latest: string): Result<seq<string>, TagError>
  {
    if |files| == 0 then Ok([])
    else match Collected(repo, files[..|files| - 1], latest)
      case Err(e) => Err(e)
      case Ok(images) =>
        match RecoverTag(NormalizeNewlines(files[|files| - 1]))
        case Err(e) => Err(e)
        case Ok(tag) => Ok(images + Entries(repo, tag, latest))
  }

  /** The loop of `build` without the docker calls: each dockerfile is read
      in text mode, its tag is recovered, and its entries are appended; a
      file without a tag ends the run with the missing-tag error. */
  method CollectImages(repo: string, files: seq<string>, latest: string) returns (r: Result<seq<string>, TagError>)
    ensures r == Collected(repo, files, latest)
  {
    var images: seq<string> := [];
    var i := 0;
    while i < |files|
      invariant 0 <= i <= |files|
      invariant Collected(repo, files[..i], latest) == Ok(images)
    {
      assert files[..i + 1][..i] == files[..i];
      var tag := RecoverTag(NormalizeNewlines(files[i]));
      if tag.Err? {
        CollectedErrorStays(repo, files, latest, i + 1);
        return Err(tag.error);
      }
      images := images + Entries(repo, tag.value, latest);
      i := i + 1;
    }
    assert files[..i] == files;
    return Ok(images);
  }

  /** Once a prefix of the files fails, the whole run fails the same way. */
  lemma {:induction false} CollectedErrorStays(repo: string, files: seq<string>, latest: string, n: nat)
    requires n <= |files| && Collected(repo, files[..n], latest).Err?
    ensures Collected(repo, files, latest) == Collected(repo, files[..n], latest)
    decreases |files| - n
  {
    if n < |files| {
      assert files[..n + 1][..n] == files[..n];
      CollectedErrorStays(repo, files, latest, n + 1);
    } else {
      assert files[..n] == files;
    }
  }

  /** The manifest text `build` writes: the entries joined by `\n`, with no
      final newline. */
  function WriteManifest(images: seq<string>): string
  {
    Join(images, '\n')
  }

  /** The entries `push` reads: the text as read in text mode, split on
      `\n`, every line stripped, the empty ones dropped. Every entry is
      non-empty, has no whitespace at either end and spans one line. */
  function ParseManifest(text: string): (r: seq<string>)
    ensures forall i :: 0 <= i < |r| ==> Tidy(r[i])
    ensures forall i :: 0 <= i < |r| ==> '\n' !in r[i] && '\r' !in r[i]
  {
    var lines := Split(NormalizeNewlines(text), '\n');
    SplitPiecesWithout(NormalizeNewlines(text), '\n', '\r');
    KeptLinesWithout(lines, '\n');
    KeptLinesWithout(lines, '\r');
    KeptLines(lines)
  }

  /** The stripped lines that are not empty, in order. */
  function KeptLines(lines: seq<string>): (r: seq<string>)
    ensures forall i :: 0 <= i < |r| ==> Tidy(r[i])
  {
    if |lines| == 0 then []
    else
      var rest := KeptLines(lines[1..]);
      KeptCons(lines[0], rest);
      Kept(lines[0]) + rest
  }

  /** Non-empty, with no whitespace at either end. */
  predicate Tidy(e: string)
  {
    e != "" && Strip(e) == e
  }

  /** The line, stripped, unless that leaves nothing. */
  function Kept(line: string): seq<string>
  {
    if Strip(line) == "" then [] else [Strip(line)]
  }

  lemma KeptCons(line: string, rest: seq<string>)
    requires forall i :: 0 <= i < |rest| ==> Tidy(rest[i])
    ensures forall i :: 0 <= i < |Kept(line) + rest| ==> Tidy((Kept(line) + rest)[i])
  {
    var k := Kept(line);
    assert forall i :: 0 <= i < |k| ==> Tidy(k[i]) by {
      StripIdempotent(line);
    }
    forall i | 0 <= i < |k + rest| ensures Tidy((k + rest)[i]) {
      if i >= |k| {
        assert (k + rest)[i] == rest[i - |k|];
      }
    }
  }

  /** No kept line holds a character none of the lines holds. */
  lemma {:induction false} KeptLinesWithout(lines: seq<string>, c: char)
    requires forall i :: 0 <= i < |lines| ==> c !in lines[i]
    ensures forall i :: 0 <= i < |KeptLines(lines)| ==> c !in KeptLines(lines)[i]
  {
    if |lines| > 0 {
      StripWithout(lines[0], c);
      KeptLinesWithout(lines[1..], c);
    }
  }

  /** Lines already stripped and non-empty are all kept, unchanged. */
  lemma {:induction false} KeptLinesClean(lines: seq<string>)
    requires forall i :: 0 <= i < |lines| ==> Tidy(lines[i])
    ensures KeptLines(lines) == lines
  {
    if |lines| > 0 {
      KeptLinesClean(lines[1..]);
      assert [lines[0]] + lines[1..] == lines;
    }
  }

  /** An entry `push` reads back as written: non-empty, no whitespace at
      either end, and no line break of either kind inside. */
  ghost predicate CleanEntry(e: string)
  {
    Tidy(e) && '\n' !in e && '\r' !in e
  }

  /** Reading back what was written gives the same list, as long as every
      entry is clean. */
  lemma ManifestRoundTrip(images: seq<string>)
    requires AllClean(images)
    ensures ParseManifest(WriteManifest(images)) == images
  {
    var text := WriteManifest(images);
    var joined := JoinWithout(images, '\n', '\r');
    if |images| == 0 {
      assert Split(text, '\n') == [""];
    } else {
      SplitJoin(images, '\n');
      KeptLinesClean(images);
    }
  }

  /** Writing what was read and reading it again changes nothing. */
  lemma ManifestParseIdempotent(text: string)
    ensures ParseManifest(WriteManifest(ParseManifest(text))) == ParseManifest(text)
  {
    ManifestRoundTrip(ParseManifest(text));
  }

  /** A repository name that yields clean entries: no line break, and no
      whitespace at its start. */
  predicate CleanRepo(repo: string)
  {
    '\n' !in repo && '\r' !in repo && (repo == "" || !IsSpace(repo[0]))
  }

  /** Every entry `build` collects reads back as written, so `push` sees
      exactly the images `build` tagged. */
  lemma {:induction false} CollectedRoundTrip(repo: string, files: seq<string>, latest: string)
    requires CleanRepo(repo) && Collected(repo, files, latest).Ok?
    ensures ParseManifest(WriteManifest(Collected(repo, files, latest).value)) == Collected(repo, files, latest).value
  {
    CollectedClean(repo, files, latest);
    ManifestRoundTrip(Collected(repo, files, latest).value);
  }

  /** Every entry `build` collects is clean. */
  lemma {:induction false} CollectedClean(repo: string, files: seq<string>, latest: string)
    requires CleanRepo(repo) && Collected(repo, files, latest).Ok?
    ensures AllClean(Collected(repo, files, latest).value)
  {
    if |files| > 0 {
      var front := files[..|files| - 1];
      var text := NormalizeNewlines(files[|files| - 1]);
      CollectedClean(repo, front, latest);
      var images := Collected(repo, front, latest).value;
      var tag := RecoverTag(text).value;
      assert Collected(repo, files, latest).value == images + Entries(repo, tag, latest);
      FindTagClean(text, '\r');
      EntriesClean(repo, tag, latest);
      AllCleanAppend(images, Entries(repo, tag, latest));
    }
  }

  ghost predicate AllClean(images: seq<string>)
  {
    forall i :: 0 <= i < |images| ==> CleanEntry(images[i])
  }

  lemma AllCleanAppend(a: seq<string>, b: seq<string>)
    requires AllClean(a) && AllClean(b)
    ensures AllClean(a + b)
  {
    assert forall i :: |a| <= i < |a + b| ==> (a + b)[i] == b[i - |a|];
  }

  lemma EntriesClean(repo: string, tag: string, latest: string)
    requires CleanRepo(repo)
    requires tag != "" && Strip(tag) == tag && '\n' !in tag && '\r' !in tag
    ensures AllClean(Entries(repo, tag, latest))
  {
    EntryClean(repo, tag);
    LatestEntryClean(repo);
    EntriesFromClean(repo, tag, latest);
  }

  lemma LatestEntryClean(repo: string)
    requires CleanRepo(repo)
    ensures CleanEntry(repo + ":latest")
  {
    LatestClean();
    EntryClean(repo, "latest");
    assert repo + ":latest" == repo + ":" + "latest";
  }

  lemma EntriesFromClean(repo: string, tag: string, latest: string)
    requires CleanEntry(repo + ":" + tag) && CleanEntry(repo + ":latest")
    ensures AllClean(Entries(repo, tag, latest))
  {
    AllCleanPair(repo + ":" + tag, repo + ":latest");
  }

  lemma AllCleanPair(e: string, l: string)
    requires CleanEntry(e) && CleanEntry(l)
    ensures AllClean([e]) && AllClean([e, l])
  {
  }

  lemma LatestClean()
    ensures "latest" != "" && Strip("latest") == "latest" && '\n' !in "latest" && '\r' !in "latest"
  {
    AsciiNoSpace("latest");
    StripNoSpace("latest");
  }

  /** `repo:tag` is clean when the repository is and the tag is a stripped,
      non-empty, one-line string. */
  lemma EntryClean(repo: string, tag: string)
    requires CleanRepo(repo)
    requires tag != "" && Strip(tag) == tag && '\n' !in tag && '\r' !in tag
    ensures CleanEntry(repo + ":" + tag)
  {
    var e := repo + ":" + tag;
    assert e[0] == (if repo == "" then ':' else repo[0]);
    assert e[|e| - 1] == tag[|tag| - 1];
    assert !IsSpace(tag[|tag| - 1]) by {
      assert Strip(tag) != [];
    }
    StripFixed(e);
  }
}
