/** The hash manifest of a release: `write_hash_manifest` and `read_manifest`. */
module Manifest {
  import opened Text
  import Order

  datatype Problem = Malformed | InvalidHashManifest | UnexpectedArtifactCount

  datatype Result<+T> = Ok(value: T) | Err(problem: Problem)

  const DIGEST_LENGTH := 64
  const ARTIFACTS := 2

  // ---- lines ----

  /** Where `splitlines` breaks a text. All of these are white space. */
  predicate IsBreak(c: char) {
    || c == '\n' || c == '\r' || c == '\U{0b}' || c == '\U{0c}' || '\U{1c}' <= c <= '\U{1e}'
    || c == '\U{85}' || c == '\U{2028}' || c == '\U{2029}'
  }

  function FirstLine(s: string): (r: string)
    ensures r <= s
    ensures |r| < |s| ==> IsBreak(s[|r|])
  {
    if s == "" || IsBreak(s[0]) then "" else [s[0]] + FirstLine(s[1..])
  }

  /** `s.splitlines()`; a carriage return and a line feed are one break. */
  function SplitLines(s: string): seq<string>
    decreases |s|
  {
    if s == "" then []
    else
      var line := FirstLine(s);
      var n := |line|;
      if n == |s| then [line]
      else if s[n] == '\r' && n + 1 < |s| && s[n + 1] == '\n' then [line] + SplitLines(s[n + 2..])
      else [line] + SplitLines(s[n + 1..])
  }

  datatype Pair = Pair(digest: string, filename: string)

  /** `line.split(maxsplit=1)` unpacked into two: fails unless there are two pieces. */
  function Cut(line: string): Option<Pair> {
    var text := StripLeft(line);
    var word := FirstWord(text);
    var rest := StripLeft(text[|word|..]);
    if word == "" || rest == "" then None else Some(Pair(word, rest))
  }

  // ---- read_manifest ----

  function ReadLines(lines: seq<string>, entries: map<string, string>): Result<map<string, string>> {
    if lines == [] then Ok(entries)
    else
      var cut := Cut(lines[0]);
      if cut.None? then Err(Malformed)
      else
        var filename := Strip(cut.value.filename);
        if |cut.value.digest| != DIGEST_LENGTH || filename in entries then Err(InvalidHashManifest)
        else ReadLines(lines[1..], entries[filename := cut.value.digest])
  }

  function Read(text: string): Result<map<string, string>> {
    var entries := ReadLines(SplitLines(text), map[]);
    if entries.Err? then entries
    else if |entries.value| != ARTIFACTS then Err(UnexpectedArtifactCount)
    else entries
  }

  method ReadManifest(text: string) returns (result: Result<map<string, string>>)
    ensures result == Read(text)
  {
    var lines := SplitLines(text);
    var entries: map<string, string> := map[];
    for i := 0 to |lines|
      invariant ReadLines(lines[i..], entries) == ReadLines(lines, map[])
    {
      assert lines[i..][1..] == lines[i + 1..];
      var cut := Cut(lines[i]);
      if cut.None? {
        return Err(Malformed);
      }
      var filename := Strip(cut.value.filename);
      if |cut.value.digest| != DIGEST_LENGTH || filename in entries {
        return Err(InvalidHashManifest);
      }
      entries := entries[filename := cut.value.digest];
    }
    if |entries| != ARTIFACTS {
      return Err(UnexpectedArtifactCount);
    }
    return Ok(entries);
  }

  // ---- write_hash_manifest ----

  function Line(name: string, digest: string): string {
    digest + "  " + name
  }

  function Lines(names: seq<string>, hashes: map<string, string>): seq<string>
    requires forall i | 0 <= i < |names| :: names[i] in hashes
  {
    seq(|names|, i requires 0 <= i < |names| => Line(names[i], hashes[names[i]]))
  }

  /** The manifest: one line per file, in the order of the names. */
  ghost function Written(hashes: map<string, string>): string {
    Join(Lines(Order.Sorted(hashes.Keys), hashes), "\n") + "\n"
  }

  method WriteHashManifest(hashes: map<string, string>) returns (text: string)
    ensures text == Written(hashes)
  {
    var names := Order.Sort(hashes.Keys);
    Order.ListingUnique(names, Order.Sorted(hashes.Keys), hashes.Keys);
    text := Join(Lines(names, hashes), "\n") + "\n";
  }

  // ---- round trip ----

  /** A file name that a line can carry. */
  predicate GoodName(name: string) {
    name != "" && Stripped(name) && forall i | 0 <= i < |name| :: !IsBreak(name[i])
  }

  predicate GoodDigest(digest: string) {
    digest != "" && forall i | 0 <= i < |digest| :: !IsSpace(digest[i])
  }

  ghost predicate Writable(hashes: map<string, string>) {
    forall name | name in hashes :: GoodName(name) && GoodDigest(hashes[name])
  }

  lemma BreaksAreSpaces(c: char)
    ensures IsBreak(c) ==> IsSpace(c)
  {}

  lemma {:induction false} FirstLineIs(line: string, rest: string)
    requires forall i | 0 <= i < |line| :: !IsBreak(line[i])
    ensures FirstLine(line + "\n" + rest) == line
    decreases |line|
  {
    if line == "" {
      assert line + "\n" + rest == "\n" + rest;
    } else {
      assert (line + "\n" + rest)[1..] == line[1..] + "\n" + rest;
      FirstLineIs(line[1..], rest);
      assert line == [line[0]] + line[1..];
    }
  }

  lemma {:induction false} FirstWordIs(word: string, rest: string)
    requires forall i | 0 <= i < |word| :: !IsSpace(word[i])
    ensures FirstWord(word + [' '] + rest) == word
    decreases |word|
  {
    if word == "" {
      assert word + [' '] + rest == [' '] + rest;
    } else {
      assert (word + [' '] + rest)[1..] == word[1..] + [' '] + rest;
      FirstWordIs(word[1..], rest);
      assert word == [word[0]] + word[1..];
    }
  }

  lemma StripLeftOfSpace(s: string)
    ensures StripLeft([' '] + s) == StripLeft(s)
  {
    assert ([' '] + s)[1..] == s;
  }

  lemma CutOfLine(name: string, digest: string)
    requires GoodName(name) && GoodDigest(digest)
    ensures Cut(Line(name, digest)) == Some(Pair(digest, name)) && Strip(name) == name
  {
    StripFixed(name);
    assert StripLeft(name) == name;
    hide IsSpace, StripLeft, StripRight, FirstWord, IsBreak;
    var line := Line(name, digest);
    var tail := [' '] + name;
    assert line == digest + [' '] + tail;
    FirstWordIs(digest, tail);
    StripLeftFixed(line, digest);
    assert line[|digest|..] == [' '] + tail;
    StripLeftOfSpace(tail);
    StripLeftOfSpace(name);
  }

  lemma StripLeftFixed(s: string, word: string)
    requires GoodDigest(word) && word <= s
    ensures StripLeft(s) == s
  {
    assert s[0] == word[0];
  }

  lemma LineHasNoBreak(name: string, digest: string)
    requires GoodName(name) && GoodDigest(digest)
    ensures forall i | 0 <= i < |Line(name, digest)| :: !IsBreak(Line(name, digest)[i])
  {
    var line := Line(name, digest);
    forall i | 0 <= i < |line| ensures !IsBreak(line[i]) {
      if i < |digest| {
        assert line[i] == digest[i];
        BreaksAreSpaces(digest[i]);
      } else if i >= |digest| + 2 {
        assert line[i] == name[i - |digest| - 2];
      }
    }
  }

  lemma NoLines()
    ensures SplitLines("") == []
  {}

  lemma SplitOneLine(line: string, rest: string)
    requires forall i | 0 <= i < |line| :: !IsBreak(line[i])
    ensures SplitLines(line + "\n" + rest) == [line] + SplitLines(rest)
  {
    hide FirstLine, IsBreak;
    var text := line + "\n" + rest;
    FirstLineIs(line, rest);
    assert text[|line|] == '\n';
    assert text[|line| + 1..] == rest;
  }

  lemma {:induction false} SplitLinesOfJoin(lines: seq<string>)
    requires lines != [] && forall k | 0 <= k < |lines| :: forall i | 0 <= i < |lines[k]| :: !IsBreak(lines[k][i])
    ensures SplitLines(Join(lines, "\n") + "\n") == lines
    decreases |lines|
  {
    hide SplitLines, IsBreak;
    var rest := if |lines| == 1 then "" else Join(lines[1..], "\n") + "\n";
    assert Join(lines, "\n") + "\n" == lines[0] + "\n" + rest;
    SplitOneLine(lines[0], rest);
    NoLines();
    if |lines| > 1 { SplitLinesOfJoin(lines[1..]); }
    assert lines == [lines[0]] + lines[1..];
  }

  /** Reading the lines of names not yet seen adds them all, or stops at a digest of another length. */
  lemma {:induction false} ReadLinesOf(names: seq<string>, hashes: map<string, string>, entries: map<string, string>)
    requires forall i | 0 <= i < |names| :: names[i] in hashes && names[i] !in entries
    requires forall i, j | 0 <= i < j < |names| :: names[i] != names[j]
    requires Writable(hashes)
    ensures
      var r := ReadLines(Lines(names, hashes), entries);
      if forall i | 0 <= i < |names| :: |hashes[names[i]]| == DIGEST_LENGTH then
        r.Ok? && r.value.Keys == entries.Keys + (set i | 0 <= i < |names| :: names[i])
        && forall name | name in r.value :: r.value[name] == if name in entries then entries[name] else hashes[name]
      else r == Err(InvalidHashManifest)
    decreases |names|
  {
    hide Cut, Strip, GoodName, GoodDigest, Line;
    if names != [] {
      CutOfLine(names[0], hashes[names[0]]);
      assert Lines(names, hashes)[1..] == Lines(names[1..], hashes);
      if |hashes[names[0]]| == DIGEST_LENGTH {
        ReadLinesOf(names[1..], hashes, entries[names[0] := hashes[names[0]]]);
        assert (set i | 0 <= i < |names| :: names[i]) == {names[0]} + set i | 0 <= i < |names[1..]| :: names[1..][i];
      }
    }
  }

  ghost predicate FullDigests(hashes: map<string, string>) {
    forall name | name in hashes :: |hashes[name]| == DIGEST_LENGTH
  }

  /** Reading a written manifest gives the map back exactly when it has two entries whose digests
      have the full length; otherwise it gives the error that fits. */
  lemma ManifestRoundTrip(hashes: map<string, string>)
    requires Writable(hashes)
    ensures Read(Written(hashes)) ==
      if hashes == map[] then Err(Malformed)
      else if !FullDigests(hashes) then Err(InvalidHashManifest)
      else if |hashes| != ARTIFACTS then Err(UnexpectedArtifactCount)
      else Ok(hashes)
  {
    hide Line, GoodName, GoodDigest, ReadLines, SplitLines, Join;
    var names := Order.Sorted(hashes.Keys);
    var lines := Lines(names, hashes);
    if hashes == map[] {
      EmptyManifest(names);
    } else {
      assert names != [] by {
        var name :| name in hashes;
        assert name in names;
      }
      forall k | 0 <= k < |lines| ensures forall i | 0 <= i < |lines[k]| :: !IsBreak(lines[k][i]) {
        assert names[k] in names;
        LineHasNoBreak(names[k], hashes[names[k]]);
      }
      SplitLinesOfJoin(lines);
      forall i, j | 0 <= i < j < |names| ensures names[i] != names[j] { Order.Trichotomy(names[i], names[j]); }
      ReadLinesOf(names, hashes, map[]);
      ReadBack(names, hashes);
    }
  }

  /** The entries read from the lines of all names are the map itself. */
  lemma ReadBack(names: seq<string>, hashes: map<string, string>)
    requires forall name :: name in names <==> name in hashes
    requires
      var r := ReadLines(Lines(names, hashes), map[]);
      if forall i | 0 <= i < |names| :: |hashes[names[i]]| == DIGEST_LENGTH then
        r.Ok? && r.value.Keys == (set i | 0 <= i < |names| :: names[i])
        && forall name | name in r.value :: name in hashes && r.value[name] == hashes[name]
      else r == Err(InvalidHashManifest)
    ensures ReadLines(Lines(names, hashes), map[]) == if FullDigests(hashes) then Ok(hashes) else Err(InvalidHashManifest)
  {
    hide ReadLines, Lines;
    if FullDigests(hashes) {
      var r := ReadLines(Lines(names, hashes), map[]);
      assert forall i | 0 <= i < |names| :: names[i] in names;
      assert r.value.Keys == hashes.Keys;
      assert r.value == hashes;
    } else {
      var name :| name in hashes && |hashes[name]| != DIGEST_LENGTH;
      assert name in names;
    }
  }

  lemma EmptyManifest(names: seq<string>)
    requires names == []
    ensures Read(Join(Lines(names, map[]), "\n") + "\n") == Err(Malformed)
  {
    assert Join(Lines(names, map[]), "\n") + "\n" == "\n";
    assert SplitLines("\n") == [""];
    assert Cut("") == None;
  }

  // ---- what is accepted ----

  /** The file name a line gives. */
  function FileOf(line: string): string
    requires Cut(line).Some?
  {
    Strip(Cut(line).value.filename)
  }

  /** Every line has a digest of full length and a name of its own that is not in `entries`. */
  ghost predicate Readable(lines: seq<string>, entries: map<string, string>) {
    && (forall i | 0 <= i < |lines| ::
          Cut(lines[i]).Some? && |Cut(lines[i]).value.digest| == 64 && FileOf(lines[i]) !in entries)
    && forall i, j | 0 <= i < j < |lines| :: FileOf(lines[i]) != FileOf(lines[j])
  }

  /** `entries` with one more entry for each line. */
  ghost predicate Adds(lines: seq<string>, entries: map<string, string>, read: map<string, string>) {
    && |read| == |entries| + |lines|
    && (forall i | 0 <= i < |lines| ::
          && Cut(lines[i]).Some? && FileOf(lines[i]) in read && read[FileOf(lines[i])] == Cut(lines[i]).value.digest)
    && forall name | name in entries :: name in read && read[name] == entries[name]
  }

  lemma {:induction false} ReadLinesIff(lines: seq<string>, entries: map<string, string>)
    ensures ReadLines(lines, entries).Ok? <==> Readable(lines, entries)
    ensures ReadLines(lines, entries).Ok? ==> Adds(lines, entries, ReadLines(lines, entries).value)
    decreases |lines|
  {
    hide Cut, FileOf;
    if lines != [] && Cut(lines[0]).Some? {
      FirstFile(lines[0]);
      var grown := entries[FileOf(lines[0]) := Cut(lines[0]).value.digest];
      ReadLinesIff(lines[1..], grown);
      if |Cut(lines[0]).value.digest| == 64 && FileOf(lines[0]) !in entries {
        ReadableSplits(lines, entries, grown);
        if Readable(lines[1..], grown) { AddsSplits(lines, entries, grown, ReadLines(lines[1..], grown).value); }
      }
    }
  }

  lemma FirstFile(line: string)
    requires Cut(line).Some?
    ensures FileOf(line) == Strip(Cut(line).value.filename)
  {}

  lemma ReadableSplits(lines: seq<string>, entries: map<string, string>, grown: map<string, string>)
    requires lines != [] && Cut(lines[0]).Some? && |Cut(lines[0]).value.digest| == 64 && FileOf(lines[0]) !in entries
    requires grown == entries[FileOf(lines[0]) := Cut(lines[0]).value.digest]
    ensures Readable(lines, entries) <==> Readable(lines[1..], grown)
  {
    hide Cut, FileOf;
    var rest := lines[1..];
    assert forall i | 0 <= i < |rest| :: rest[i] == lines[i + 1];
    if Readable(rest, grown) {
      forall i | 0 <= i < |lines|
        ensures Cut(lines[i]).Some? && |Cut(lines[i]).value.digest| == 64 && FileOf(lines[i]) !in entries
      {
        if i > 0 { assert Cut(rest[i - 1]).Some?; }
      }
      forall i, j | 0 <= i < j < |lines| ensures FileOf(lines[i]) != FileOf(lines[j]) {
        assert FileOf(rest[j - 1]) !in grown;
        if i > 0 { assert FileOf(rest[i - 1]) != FileOf(rest[j - 1]); }
      }
    }
    if Readable(lines, entries) {
      forall i | 0 <= i < |rest|
        ensures Cut(rest[i]).Some? && |Cut(rest[i]).value.digest| == 64 && FileOf(rest[i]) !in grown
      {
        assert FileOf(lines[0]) != FileOf(lines[i + 1]);
      }
    }
  }

  lemma AddsSplits(lines: seq<string>, entries: map<string, string>, grown: map<string, string>, read: map<string, string>)
    requires lines != [] && Cut(lines[0]).Some? && FileOf(lines[0]) !in entries
    requires grown == entries[FileOf(lines[0]) := Cut(lines[0]).value.digest]
    requires Adds(lines[1..], grown, read)
    ensures Adds(lines, entries, read)
  {
    hide Cut, FileOf;
    assert grown.Keys == entries.Keys + {FileOf(lines[0])};
    assert |grown.Keys| == |entries.Keys| + 1;
    forall i | 0 <= i < |lines|
      ensures Cut(lines[i]).Some? && FileOf(lines[i]) in read && read[FileOf(lines[i])] == Cut(lines[i]).value.digest
    {
      if i > 0 { assert lines[i] == lines[1..][i - 1]; } else { assert FileOf(lines[0]) in grown; }
    }
  }

  /** A manifest is accepted exactly when it has two lines, each with a digest of 64 characters, for
      two different files; it then maps those files to those digests and nothing else. */
  lemma ManifestAcceptedIff(text: string)
    ensures
      var lines := SplitLines(text);
      && (Read(text).Ok? <==> |lines| == 2 && Readable(lines, map[]))
      && (Read(text).Ok? ==> Adds(lines, map[], Read(text).value))
  {
    hide SplitLines, ReadLines, Readable, Cut, FileOf;
    ReadLinesIff(SplitLines(text), map[]);
  }
}
