/** The diff splitter: a staged diff over the size threshold is cut into
    chunks, first per file, then per hunk, then into fixed-size windows, and
    the first strategy whose chunks all fit under the threshold wins. A diff
    is a string in which each character stands for one byte of the text. */
module Git {
  import opened Wrappers
  import opened Text

  /** Size above which a diff is split, in bytes. */
  const Threshold: nat := 8000
  /** Number of strategies tried before giving up. */
  const MaxSplitAttempts: nat := 4

  datatype DiffChunk = DiffChunk(content: string, description: string)

  datatype SplitDiffResult = SplitDiffResult(chunks: seq<DiffChunk>, totalSize: nat, splitMethod: string)

  /** The contents of the chunks, in order. */
  function Contents(chunks: seq<DiffChunk>): (cs: seq<string>)
    ensures |cs| == |chunks| && forall i :: 0 <= i < |chunks| ==> cs[i] == chunks[i].content
  {
    seq(|chunks|, i requires 0 <= i < |chunks| => chunks[i].content)
  }

  /** `needs_splitting` */
  predicate NeedsSplitting(diff: string) {
    |diff| > Threshold
  }

  /** The threshold itself is not split; one byte more is. */
  lemma NeedsSplittingBoundary(diff: string)
    ensures |diff| == Threshold ==> !NeedsSplitting(diff)
    ensures |diff| == Threshold + 1 ==> NeedsSplitting(diff)
    ensures |diff| == 1000 ==> !NeedsSplitting(diff)
    ensures |diff| == 10000 ==> NeedsSplitting(diff)
  {
  }

  // ---------------------------------------------------------------------------
  // Lines that start with a given prefix
  // ---------------------------------------------------------------------------

  /** Index of the last line starting with `prefix`, or -1. */
  function LastStartingWith(ls: seq<string>, prefix: string): (k: int)
    ensures -1 <= k < |ls|
    decreases |ls|
  {
    if ls == [] then -1
    else if StartsWith(ls[|ls| - 1], prefix) then |ls| - 1
    else LastStartingWith(ls[..|ls| - 1], prefix)
  }

  /** The line found matches and no later line does. */
  lemma {:induction false} LastStartingWithSpec(ls: seq<string>, prefix: string)
    ensures var k := LastStartingWith(ls, prefix);
      && (k >= 0 ==> StartsWith(ls[k], prefix))
      && (forall j :: k < j < |ls| ==> !StartsWith(ls[j], prefix))
    decreases |ls|
  {
    if ls != [] && !StartsWith(ls[|ls| - 1], prefix) {
      LastStartingWithSpec(ls[..|ls| - 1], prefix);
    }
  }

  /** Number of lines starting with `prefix`. */
  function CountStartingWith(ls: seq<string>, prefix: string): nat
    decreases |ls|
  {
    if ls == [] then 0
    else CountStartingWith(ls[..|ls| - 1], prefix) + (if StartsWith(ls[|ls| - 1], prefix) then 1 else 0)
  }

  /** Cutting at the last matching line removes exactly one match; with no
      matching line there is nothing to count. */
  lemma {:induction false} CountAtLast(ls: seq<string>, prefix: string)
    ensures var k := LastStartingWith(ls, prefix);
      if k < 0 then CountStartingWith(ls, prefix) == 0
      else CountStartingWith(ls, prefix) == CountStartingWith(ls[..k], prefix) + 1
    decreases |ls|
  {
    if ls != [] && !StartsWith(ls[|ls| - 1], prefix) {
      var init := ls[..|ls| - 1];
      CountAtLast(init, prefix);
      var k := LastStartingWith(ls, prefix);
      if k >= 0 {
        assert init[..k] == ls[..k];
      }
    }
  }

  // ---------------------------------------------------------------------------
  // Strategy 3 and 4: fixed-size windows
  // ---------------------------------------------------------------------------

  /** The windows of `size` bytes from `start` on, numbered from `number`;
      the last one may be shorter. */
  function CharWindows(diff: string, size: nat, start: nat, number: nat): seq<DiffChunk>
    requires size > 0
    decreases |diff| - start
  {
    if start >= |diff| then []
    else
      var end := if start + size < |diff| then start + size else |diff|;
      [DiffChunk(diff[start..end], "Character chunk " + NatToDecimal(number)
                 + " (chars " + NatToDecimal(start) + "-" + NatToDecimal(end) + ")")]
        + CharWindows(diff, size, end, number + 1)
  }

  /** The windows put back together give the text they were cut from. */
  lemma {:induction false} CharWindowsConcat(diff: string, size: nat, start: nat, number: nat)
    requires size > 0 && start <= |diff|
    ensures Concat(Contents(CharWindows(diff, size, start, number))) == diff[start..]
    decreases |diff| - start
  {
    if start < |diff| {
      var end := if start + size < |diff| then start + size else |diff|;
      var ws := CharWindows(diff, size, start, number);
      CharWindowsConcat(diff, size, end, number + 1);
      assert Contents(ws) == [diff[start..end]] + Contents(CharWindows(diff, size, end, number + 1));
      assert diff[start..] == diff[start..end] + diff[end..];
    }
  }

  /** Every window is non-empty and at most `size` long, and all but the
      last are exactly `size` long. */
  lemma {:induction false} CharWindowsSizes(diff: string, size: nat, start: nat, number: nat)
    requires size > 0 && start <= |diff|
    ensures forall i :: 0 <= i < |CharWindows(diff, size, start, number)| ==>
      0 < |CharWindows(diff, size, start, number)[i].content| <= size
    ensures forall i :: 0 <= i < |CharWindows(diff, size, start, number)| - 1 ==>
      |CharWindows(diff, size, start, number)[i].content| == size
    decreases |diff| - start
  {
    if start < |diff| {
      var end := if start + size < |diff| then start + size else |diff|;
      CharWindowsSizes(diff, size, end, number + 1);
      var ws := CharWindows(diff, size, start, number);
      var rest := CharWindows(diff, size, end, number + 1);
      assert ws == [ws[0]] + rest;
      assert ws[0].content == diff[start..end];
      forall i | 1 <= i < |ws|
        ensures 0 < |ws[i].content| <= size
        ensures i < |ws| - 1 ==> |ws[i].content| == size
      {
        assert ws[i] == rest[i - 1];
      }
      if end == |diff| {
        assert rest == [];
      }
    }
  }

  /** There are `ceil((|diff| - start) / size)` windows: one fewer would
      not reach the end, and that many do. */
  lemma {:induction false} CharWindowsCount(diff: string, size: nat, start: nat, number: nat)
    requires size > 0 && start <= |diff|
    ensures var m := |CharWindows(diff, size, start, number)|;
      (m - 1) * size < |diff| - start <= m * size
    decreases |diff| - start
  {
    if start < |diff| {
      var end := if start + size < |diff| then start + size else |diff|;
      CharWindowsCount(diff, size, end, number + 1);
      var m := |CharWindows(diff, size, end, number + 1)|;
      assert |CharWindows(diff, size, start, number)| == m + 1;
      assert (m + 1) * size == m * size + size;
      assert (m + 1 - 1) * size == (m - 1) * size + size;
    }
  }

  /** `split_by_character_chunks`. */
  function CharSplit(diff: string, size: nat): Result<SplitDiffResult>
    requires size > 0
  {
    Ok(SplitDiffResult(CharWindows(diff, size, 0, 1), |diff|, "by_characters"))
  }

  /** `split_by_character_chunks`: slices of `chunkSize` bytes taken in
      order until the diff is used up. A size of zero would never advance,
      so it is excluded. */
  method SplitByCharacterChunks(diff: string, chunkSize: nat) returns (r: Result<SplitDiffResult>)
    requires chunkSize > 0
    ensures r == CharSplit(diff, chunkSize)
  {
    var chunks: seq<DiffChunk> := [];
    var start := 0;
    var chunkNum := 1;
    while start < |diff|
      invariant start <= |diff|
      invariant chunks + CharWindows(diff, chunkSize, start, chunkNum) == CharWindows(diff, chunkSize, 0, 1)
      decreases |diff| - start
    {
      var end := if start + chunkSize < |diff| then start + chunkSize else |diff|;
      var chunkContent := diff[start..end];
      chunks := chunks + [DiffChunk(chunkContent, "Character chunk " + NatToDecimal(chunkNum)
                                    + " (chars " + NatToDecimal(start) + "-" + NatToDecimal(end) + ")")];
      start := end;
      chunkNum := chunkNum + 1;
    }
    assert CharWindows(diff, chunkSize, start, chunkNum) == [];
    assert chunks == CharWindows(diff, chunkSize, 0, 1);
    return Ok(SplitDiffResult(chunks, |diff|, "by_characters"));
  }

  /** A thousand bytes in windows of 300 make four chunks. */
  lemma CharSplitThousandBy300(diff: string)
    requires |diff| == 1000
    ensures |CharSplit(diff, 300).value.chunks| == 4
  {
    CharWindowsCount(diff, 300, 0, 1);
  }

  /** What the character split promises: the windows put back together are
      the diff, each holds between 1 and `size` bytes, and their number is the
      diff's length divided by `size`, rounded up. */
  lemma CharSplitProperties(diff: string, size: nat)
    requires size > 0
    ensures var r := CharSplit(diff, size).value;
      && Concat(Contents(r.chunks)) == diff
      && (|r.chunks| - 1) * size < |diff| <= |r.chunks| * size
      && (forall i :: 0 <= i < |r.chunks| ==> 0 < |r.chunks[i].content| <= size)
      && r.totalSize == |diff|
  {
    CharWindowsConcat(diff, size, 0, 1);
    CharWindowsSizes(diff, size, 0, 1);
    CharWindowsCount(diff, size, 0, 1);
  }

  // ---------------------------------------------------------------------------
  // File names
  // ---------------------------------------------------------------------------

  /** The first whitespace-separated word that holds a `/` or a `.`. */
  function FirstPathLike(words: seq<string>): (r: Option<string>)
    ensures r.Some? ==> r.value in words && ('/' in r.value || '.' in r.value)
    ensures r.None? ==> forall k :: 0 <= k < |words| ==> '/' !in words[k] && '.' !in words[k]
    decreases |words|
  {
    if words == [] then None
    else if '/' in words[0] || '.' in words[0] then Some(words[0])
    else FirstPathLike(words[1..])
  }

  /** `extract_file_name`: the text between the first `a/` and the first
      ` b/` after it; failing that, the first word that looks like a path;
      failing that, `unknown_file`. */
  function ExtractFileName(line: string): (name: string)
  {
    match Find(line, "a/")
    case Some(start) =>
      (match PathBetween(line[start..])
       case Some(path) => path
       case None => Fallback(line))
    case None => Fallback(line)
  }

  /** In a text starting with `a/`, what lies between the `a/` and the first
      ` b/`. */
  function PathBetween(s: string): Option<string>
    requires StartsWith(s, "a/")
  {
    match Find(s, " b/")
    case Some(end) =>
      SeparatorAfterPrefix(s);
      Some(s[2..end])
    case None => None
  }

  /** A ` b/` found in a text that starts with `a/` lies past the `a/`, so
      the slice `extract_file_name` takes is well formed. */
  lemma SeparatorAfterPrefix(s: string)
    requires StartsWith(s, "a/")
    ensures Find(s, " b/").Some? ==> Find(s, " b/").value >= 2
  {
    if Find(s, " b/").Some? {
      var v := Find(s, " b/").value;
      assert s[..2] == "a/";
      assert s[0] == 'a' && s[1] == '/';
      assert s[v..][..3] == " b/";
      assert s[v] == ' ';
    }
  }

  function Fallback(line: string): string {
    match FirstPathLike(SplitWhitespace(line))
    case Some(word) => word
    case None => "unknown_file"
  }

  /** A pattern that starts right after a prefix holding none of the
      pattern's first character is first found there. */
  lemma FindAfterPrefix(prefix: string, s: string, p: string)
    requires p != [] && StartsWith(s, p)
    requires forall j :: 0 <= j < |prefix| ==> prefix[j] != p[0]
    ensures Find(prefix + s, p) == Some(|prefix|)
  {
    var t := prefix + s;
    forall j | 0 <= j < |prefix| ensures !StartsWith(t[j..], p) {
      assert t[j..][0] == prefix[j];
    }
    assert t[|prefix|..] == s;
    FindFirst(t, p, |prefix|);
  }

  /** A `diff --git a/P b/P` header gives back `P`, for any path without a
      space. */
  lemma ExtractFileNameRoundTrip(path: string)
    requires forall j :: 0 <= j < |path| ==> path[j] != ' '
    ensures ExtractFileName("diff --git a/" + path + " b/" + path) == path
  {
    var line := "diff --git a/" + path + " b/" + path;
    HeaderFinds(path);
    ExtractBetween(line, 11, 2 + |path|);
    assert line[13..13 + |path|] == path;
  }

  /** Where the two searches of `extract_file_name` stop on a header line. */
  lemma HeaderFinds(path: string)
    requires forall j :: 0 <= j < |path| ==> path[j] != ' '
    ensures var line := "diff --git a/" + path + " b/" + path;
      && Find(line, "a/") == Some(11)
      && Find(line[11..], " b/") == Some(2 + |path|)
  {
    var line := "diff --git a/" + path + " b/" + path;
    var head := "a/" + path;
    var tail := " b/" + path;
    assert line == "diff --git " + (head + tail);
    assert line[11..] == head + tail;
    assert StartsWith(head + tail, "a/");
    FindAfterPrefix("diff --git ", head + tail, "a/");
    assert StartsWith(tail, " b/");
    FindAfterPrefix(head, tail, " b/");
  }

  lemma ExtractBetween(line: string, start: nat, end: nat)
    requires Find(line, "a/") == Some(start)
    requires start <= |line| && Find(line[start..], " b/") == Some(end)
    ensures start + 2 <= start + end <= |line|
    ensures ExtractFileName(line) == line[start + 2..start + end]
  {
    SeparatorAfterPrefix(line[start..]);
    ExtractAt(line, start, end);
  }

  lemma ExtractAt(line: string, start: nat, end: nat)
    requires Find(line, "a/") == Some(start)
    requires start <= |line| && Find(line[start..], " b/") == Some(end)
    requires 2 <= end <= |line| - start
    ensures ExtractFileName(line) == line[start + 2..start + end]
  {
    assert PathBetween(line[start..]) == Some(line[start..][2..end]);
    SliceOfSlice(line, start, end);
  }

  lemma SliceOfSlice(line: string, start: nat, end: nat)
    requires start <= |line| && 2 <= end <= |line| - start
    ensures line[start..][2..end] == line[start + 2..start + end]
  {
  }

  /** `find` on the words: the word returned is the first one that holds a
      `/` or a `.`. */
  lemma {:induction false} FirstPathLikeIsFirst(words: seq<string>)
    ensures FirstPathLike(words).Some? ==>
      exists i :: 0 <= i < |words| && words[i] == FirstPathLike(words).value
        && ('/' in words[i] || '.' in words[i])
        && forall k :: 0 <= k < i ==> '/' !in words[k] && '.' !in words[k]
    decreases |words|
  {
    if words != [] {
      if '/' in words[0] || '.' in words[0] {
        assert words[0] == FirstPathLike(words).value;
      } else {
        var rest := words[1..];
        FirstPathLikeIsFirst(rest);
        if FirstPathLike(rest).Some? {
          var i :| 0 <= i < |rest| && rest[i] == FirstPathLike(rest).value
            && ('/' in rest[i] || '.' in rest[i])
            && forall k :: 0 <= k < i ==> '/' !in rest[k] && '.' !in rest[k];
          assert words[i + 1] == rest[i];
          forall k | 0 <= k < i + 1 ensures '/' !in words[k] && '.' !in words[k] {
            if k > 0 {
              assert words[k] == rest[k - 1];
            }
          }
        }
      }
    }
  }

  /** When there is no `a/`, or no ` b/` after the first `a/`, the name is
      the first word of the line that holds a `/` or a `.`, or `unknown_file`
      when no word does. */
  lemma ExtractFileNameFallback(line: string)
    requires Find(line, "a/").None? || PathBetween(line[Find(line, "a/").value..]).None?
    ensures var name := ExtractFileName(line);
      var words := SplitWhitespace(line);
      || (exists i :: 0 <= i < |words| && words[i] == name
            && ('/' in name || '.' in name)
            && forall k :: 0 <= k < i ==> '/' !in words[k] && '.' !in words[k])
      || (name == "unknown_file"
          && forall k :: 0 <= k < |words| ==> '/' !in words[k] && '.' !in words[k])
  {
    var words := SplitWhitespace(line);
    assert ExtractFileName(line) == Fallback(line);
    match FirstPathLike(words)
    case Some(word) =>
      FirstPathLikeIsFirst(words);
      assert Fallback(line) == word;
    case None =>
      assert Fallback(line) == "unknown_file";
      assert forall k :: 0 <= k < |words| ==> '/' !in words[k] && '.' !in words[k];
  }

  // ---------------------------------------------------------------------------
  // Strategy 1: one chunk per file
  // ---------------------------------------------------------------------------

  const FileHeader: string := "diff --git"

  /** The chunks `split_by_files` pushes for these lines: one per line that
      starts a file, holding the trimmed text from that line to the next
      such line. */
  function FileChunks(ls: seq<string>): seq<DiffChunk>
    decreases |ls|
  {
    var k := LastStartingWith(ls, FileHeader);
    if k < 0 then []
    else FileChunks(ls[..k]) + [DiffChunk(Trim(JoinLines(ls[k..])), "File: " + ExtractFileName(ls[k]))]
  }

  function FileSplit(diff: string): Result<SplitDiffResult> {
    var chunks := FileChunks(Lines(diff));
    if chunks == [] then Err("No files found in diff")
    else Ok(SplitDiffResult(chunks, |diff|, "by_files"))
  }

  lemma LastStep(ls: seq<string>, i: nat, prefix: string)
    requires i < |ls|
    ensures LastStartingWith(ls[..i + 1], prefix)
         == if StartsWith(ls[i], prefix) then i else LastStartingWith(ls[..i], prefix)
  {
    assert ls[..i + 1][..i] == ls[..i];
  }

  lemma CountStep(ls: seq<string>, i: nat, prefix: string)
    requires i < |ls|
    ensures CountStartingWith(ls[..i + 1], prefix)
         == CountStartingWith(ls[..i], prefix) + if StartsWith(ls[i], prefix) then 1 else 0
  {
    assert ls[..i + 1][..i] == ls[..i];
  }

  lemma JoinLinesStep(ls: seq<string>, a: nat, i: nat)
    requires a <= i < |ls|
    ensures JoinLines(ls[a..i + 1]) == JoinLines(ls[a..i]) + ls[i] + "\n"
  {
    assert ls[a..i + 1][..i - a] == ls[a..i];
  }

  /** The file chunks of a prefix of the lines: those before the last file
      start, then the trimmed text from it on. */
  lemma FileChunksAt(ls: seq<string>, i: nat)
    requires i <= |ls|
    ensures var last := LastStartingWith(ls[..i], FileHeader);
      FileChunks(ls[..i]) == if last < 0 then [] else
        FileChunks(ls[..last]) + [DiffChunk(Trim(JoinLines(ls[last..i])), "File: " + ExtractFileName(ls[last]))]
  {
    var last := LastStartingWith(ls[..i], FileHeader);
    if last >= 0 {
      assert ls[..i][..last] == ls[..last] && ls[..i][last..] == ls[last..i];
    }
  }

  /** The buffers of `split_by_files` between two lines: the chunks pushed,
      the text and name of the current file, and whether a file has started. */
  datatype FileState = FileState(chunks: seq<DiffChunk>, content: string, name: string, inFile: bool)

  /** The chunks after pushing the current file, if there is a non-empty one. */
  function FilePush(st: FileState): seq<DiffChunk> {
    if st.inFile && st.content != [] then st.chunks + [DiffChunk(Trim(st.content), "File: " + st.name)]
    else st.chunks
  }

  /** What one line does to the buffers. */
  function FileLine(st: FileState, line: string): FileState {
    var started := if StartsWith(line, FileHeader) then FileState(FilePush(st), "", ExtractFileName(line), true) else st;
    if started.inFile then started.(content := started.content + line + "\n") else started
  }

  /** The buffers after the given lines, from empty ones. */
  function FileScan(ls: seq<string>): FileState
    decreases |ls|
  {
    if ls == [] then FileState([], "", "", false) else FileLine(FileScan(ls[..|ls| - 1]), ls[|ls| - 1])
  }

  /** The buffers as the chunk structure describes them after the first `i` lines. */
  function FileStateAt(ls: seq<string>, i: nat): FileState
    requires i <= |ls|
  {
    var last := LastStartingWith(ls[..i], FileHeader);
    if last < 0 then FileState([], "", "", false)
    else FileState(FileChunks(ls[..last]), JoinLines(ls[last..i]), ExtractFileName(ls[last]), true)
  }

  lemma FileScanStep(ls: seq<string>, i: nat)
    requires i < |ls|
    ensures FileScan(ls[..i + 1]) == FileLine(FileScan(ls[..i]), ls[i])
  {
    assert ls[..i + 1][..i] == ls[..i];
  }

  /** What the file buffers hold before a file header is pushed. */
  lemma FilePushAt(ls: seq<string>, i: nat)
    requires i <= |ls|
    ensures FilePush(FileStateAt(ls, i)) == FileChunks(ls[..i])
  {
    var last := LastStartingWith(ls[..i], FileHeader);
    FileChunksAt(ls, i);
    if last >= 0 {
      JoinLinesEmptyIff(ls[last..i]);
      assert JoinLines(ls[last..i]) != [];
    }
  }

  /** One line moves the described buffers as the source's loop does. */
  lemma FileStateStep(ls: seq<string>, i: nat)
    requires i < |ls|
    ensures FileStateAt(ls, i + 1) == FileLine(FileStateAt(ls, i), ls[i])
  {
    LastStep(ls, i, FileHeader);
    var last := LastStartingWith(ls[..i + 1], FileHeader);
    if StartsWith(ls[i], FileHeader) {
      FilePushAt(ls, i);
      assert ls[i..i + 1] == [ls[i]];
      JoinLinesSnoc([], ls[i]);
      assert [] + [ls[i]] == [ls[i]];
    } else if last >= 0 {
      JoinLinesStep(ls, last, i);
    }
  }

  /** The loop's buffers are the described ones. */
  lemma {:induction false} FileScanAt(ls: seq<string>, i: nat)
    requires i <= |ls|
    ensures FileScan(ls[..i]) == FileStateAt(ls, i)
  {
    if i > 0 {
      FileScanAt(ls, i - 1);
      FileScanStep(ls, i - 1);
      FileStateStep(ls, i - 1);
    }
  }

  /** Pushing the last file at the end of the input gives the file chunks. */
  lemma FileScanFlush(ls: seq<string>)
    ensures FilePush(FileScan(ls)) == FileChunks(ls)
  {
    assert ls[..|ls|] == ls;
    FileScanAt(ls, |ls|);
    FilePushAt(ls, |ls|);
  }

  /** `split_by_files`: a buffer collects the lines of the current file and
      is pushed, trimmed, when the next file starts and at the end. */
  method SplitByFiles(diff: string) returns (r: Result<SplitDiffResult>)
    ensures r == FileSplit(diff)
  {
    var lines := Lines(diff);
    var chunks: seq<DiffChunk> := [];
    var currentFileContent := "";
    var currentFileName := "";
    var inFile := false;
    var i := 0;
    while i < |lines|
      invariant 0 <= i <= |lines|
      invariant FileState(chunks, currentFileContent, currentFileName, inFile) == FileScan(lines[..i])
    {
      var line := lines[i];
      FileScanStep(lines, i);
      if StartsWith(line, FileHeader) {
        if inFile && currentFileContent != [] {
          chunks := chunks + [DiffChunk(Trim(currentFileContent), "File: " + currentFileName)];
        }
        currentFileContent := [];
        currentFileName := ExtractFileName(line);
        inFile := true;
      }
      if inFile {
        currentFileContent := currentFileContent + line + "\n";
      }
      i := i + 1;
    }
    assert lines[..i] == lines;
    FileScanFlush(lines);
    if inFile && currentFileContent != [] {
      chunks := chunks + [DiffChunk(Trim(currentFileContent), "File: " + currentFileName)];
    }
    if chunks == [] {
      return Err("No files found in diff");
    }
    return Ok(SplitDiffResult(chunks, |diff|, "by_files"));
  }

  /** One chunk per file header. */
  lemma {:induction false} FileChunksCount(ls: seq<string>)
    ensures |FileChunks(ls)| == CountStartingWith(ls, FileHeader)
    decreases |ls|
  {
    var k := LastStartingWith(ls, FileHeader);
    CountAtLast(ls, FileHeader);
    if k >= 0 {
      FileChunksCount(ls[..k]);
    }
  }

  /** Each file chunk still starts with its header line. */
  lemma {:induction false} FileChunksStartWithHeader(ls: seq<string>)
    ensures forall i :: 0 <= i < |FileChunks(ls)| ==> StartsWith(FileChunks(ls)[i].content, FileHeader)
    decreases |ls|
  {
    var k := LastStartingWith(ls, FileHeader);
    LastStartingWithSpec(ls, FileHeader);
    if k >= 0 {
      FileChunksStartWithHeader(ls[..k]);
      assert ls[k..] == [ls[k]] + ls[k + 1..];
      JoinLinesCons(ls[k], ls[k + 1..]);
      var text := JoinLines(ls[k..]);
      TrimKeepsHeader(text, ls[k]);
      var earlier := FileChunks(ls[..k]);
      var chunks := FileChunks(ls);
      assert chunks == earlier + [chunks[|chunks| - 1]];
      assert chunks[|chunks| - 1].content == Trim(text);
      forall i | 0 <= i < |chunks| ensures StartsWith(chunks[i].content, FileHeader) {
        if i < |earlier| {
          assert chunks[i] == earlier[i];
        }
      }
    }
  }

  /** A text that starts with a file header keeps it when trimmed. */
  lemma TrimKeepsHeader(s: string, line: string)
    requires StartsWith(line, FileHeader)
    requires StartsWith(s, line)
    ensures StartsWith(Trim(s), FileHeader)
  {
    assert s[..|FileHeader|] == FileHeader;
    assert s[0] == 'd' && s[9] == 't';
    TrimKeepsPrefix(s, 9);
  }

  /** The file split fails exactly when no line starts a file. */
  lemma FileSplitErrIff(diff: string)
    ensures FileSplit(diff).Err? <==>
      forall j :: 0 <= j < |Lines(diff)| ==> !StartsWith(Lines(diff)[j], FileHeader)
  {
    var ls := Lines(diff);
    FileChunksCount(ls);
    CountAtLast(ls, FileHeader);
    LastStartingWithSpec(ls, FileHeader);
  }

  // ---------------------------------------------------------------------------
  // Strategy 2: one chunk per hunk
  // ---------------------------------------------------------------------------

  const HunkHeader: string := "@@"

  /** Lines that `split_by_hunks` adds to its file header. */
  predicate IsHeaderLine(line: string) {
    || StartsWith(line, FileHeader)
    || StartsWith(line, "index ")
    || StartsWith(line, "--- ")
    || StartsWith(line, "+++ ")
  }

  /** A hunk line is not a header line. */
  lemma HunkLineIsBody(line: string)
    requires StartsWith(line, HunkHeader)
    ensures !IsHeaderLine(line)
  {
    assert line[0] == '@';
  }

  /** The header lines, in order. */
  function HeaderLines(ls: seq<string>): seq<string>
    decreases |ls|
  {
    if ls == [] then []
    else HeaderLines(ls[..|ls| - 1]) + (if IsHeaderLine(ls[|ls| - 1]) then [ls[|ls| - 1]] else [])
  }

  /** The other lines, in order. */
  function BodyLines(ls: seq<string>): seq<string>
    decreases |ls|
  {
    if ls == [] then []
    else BodyLines(ls[..|ls| - 1]) + (if IsHeaderLine(ls[|ls| - 1]) then [] else [ls[|ls| - 1]])
  }

  lemma {:induction false} BodyLinesHas(ls: seq<string>, j: nat)
    requires j < |ls| && !IsHeaderLine(ls[j])
    ensures BodyLines(ls) != []
    decreases |ls|
  {
    if j < |ls| - 1 {
      BodyLinesHas(ls[..|ls| - 1], j);
    }
  }

  /** The chunk pushed for the body lines of one hunk: every header line
      seen so far, then the trimmed body. */
  function HunkTail(headers: seq<string>, body: seq<string>, number: nat): seq<DiffChunk> {
    if body == [] then []
    else [DiffChunk(JoinLines(headers) + Trim(JoinLines(body)), "Hunk " + NatToDecimal(number))]
  }

  /** The chunks `split_by_hunks` pushes for these lines: those pushed up to
      the last hunk line, then one for the body lines from the last hunk line
      on (from the start when there is none), labelled with the number of
      hunk lines and headed by all header lines. */
  function HunkChunks(ls: seq<string>): seq<DiffChunk>
    decreases |ls|
  {
    var k := LastStartingWith(ls, HunkHeader);
    var from := if k < 0 then 0 else k;
    (if k < 0 then [] else HunkChunks(ls[..k]))
      + HunkTail(HeaderLines(ls), BodyLines(ls[from..]), CountStartingWith(ls, HunkHeader))
  }

  function HunkSplit(diff: string): Result<SplitDiffResult> {
    var chunks := HunkChunks(Lines(diff));
    if chunks == [] then Err("No hunks found in diff")
    else Ok(SplitDiffResult(chunks, |diff|, "by_hunks"))
  }

  lemma HeaderStep(ls: seq<string>, i: nat)
    requires i < |ls|
    ensures HeaderLines(ls[..i + 1]) == HeaderLines(ls[..i]) + (if IsHeaderLine(ls[i]) then [ls[i]] else [])
  {
    assert ls[..i + 1][..i] == ls[..i];
  }

  lemma BodyStep(ls: seq<string>, a: nat, i: nat)
    requires a <= i < |ls|
    ensures BodyLines(ls[a..i + 1]) == BodyLines(ls[a..i]) + (if IsHeaderLine(ls[i]) then [] else [ls[i]])
  {
    assert ls[a..i + 1][..i - a] == ls[a..i];
  }

  /** The hunk chunks of a prefix of the lines, cut at its last hunk line. */
  lemma HunkChunksAt(ls: seq<string>, i: nat, last: int, from: nat)
    requires i <= |ls|
    requires last == LastStartingWith(ls[..i], HunkHeader)
    requires from == if last < 0 then 0 else last
    ensures HunkChunks(ls[..i])
         == (if last < 0 then [] else HunkChunks(ls[..last]))
            + HunkTail(HeaderLines(ls[..i]), BodyLines(ls[from..i]), CountStartingWith(ls[..i], HunkHeader))
  {
    assert ls[..i][from..] == ls[from..i];
    if last >= 0 {
      assert ls[..i][..last] == ls[..last];
    }
  }

  /** The chunks already pushed when the last hunk line seen is the one at
      `last` (none while no hunk line has been seen). */
  function Pushed(ls: seq<string>, last: int): seq<DiffChunk>
    requires last < |ls|
  {
    if last < 0 then [] else HunkChunks(ls[..last])
  }

  /** What a hunk line (or the end of the input) pushes: the body collected
      since the last hunk line, when there is one, headed by the header. */
  lemma HunkPush(ls: seq<string>, i: nat, last: int, from: nat)
    requires i <= |ls|
    requires last == LastStartingWith(ls[..i], HunkHeader)
    requires from == if last < 0 then 0 else last
    ensures var body := JoinLines(BodyLines(ls[from..i]));
      HunkChunks(ls[..i])
        == Pushed(ls, last)
           + (if body == [] then []
              else [DiffChunk(JoinLines(HeaderLines(ls[..i])) + Trim(body),
                              "Hunk " + NatToDecimal(CountStartingWith(ls[..i], HunkHeader)))])
  {
    HunkChunksAt(ls, i, last, from);
    JoinLinesEmptyIff(BodyLines(ls[from..i]));
  }

  /** A header line extends the header and leaves the hunk count, the last
      hunk line and every body unchanged. */
  lemma HeaderLineStep(ls: seq<string>, a: nat, i: nat)
    requires a <= i < |ls| && IsHeaderLine(ls[i])
    ensures LastStartingWith(ls[..i + 1], HunkHeader) == LastStartingWith(ls[..i], HunkHeader)
    ensures CountStartingWith(ls[..i + 1], HunkHeader) == CountStartingWith(ls[..i], HunkHeader)
    ensures JoinLines(HeaderLines(ls[..i + 1])) == JoinLines(HeaderLines(ls[..i])) + ls[i] + "\n"
    ensures BodyLines(ls[a..i + 1]) == BodyLines(ls[a..i])
  {
    if StartsWith(ls[i], HunkHeader) {
      HunkLineIsBody(ls[i]);
    }
    LastStep(ls, i, HunkHeader);
    CountStep(ls, i, HunkHeader);
    HeaderStep(ls, i);
    BodyStep(ls, a, i);
    JoinLinesSnoc(HeaderLines(ls[..i]), ls[i]);
  }

  /** A hunk line becomes the last one, is counted, and starts a body of its own. */
  lemma HunkLineStep(ls: seq<string>, i: nat)
    requires i < |ls| && StartsWith(ls[i], HunkHeader)
    ensures LastStartingWith(ls[..i + 1], HunkHeader) == i
    ensures CountStartingWith(ls[..i + 1], HunkHeader) == CountStartingWith(ls[..i], HunkHeader) + 1
    ensures HeaderLines(ls[..i + 1]) == HeaderLines(ls[..i])
    ensures JoinLines(BodyLines(ls[i..i + 1])) == ls[i] + "\n"
  {
    HunkLineIsBody(ls[i]);
    LastStep(ls, i, HunkHeader);
    CountStep(ls, i, HunkHeader);
    HeaderStep(ls, i);
    BodyStep(ls, i, i);
    assert ls[i..i] == [];
    JoinLinesSnoc([], ls[i]);
    assert [] + [ls[i]] == [ls[i]];
  }

  /** Any other line extends the current body only. */
  lemma BodyLineStep(ls: seq<string>, a: nat, i: nat)
    requires a <= i < |ls| && !IsHeaderLine(ls[i]) && !StartsWith(ls[i], HunkHeader)
    ensures LastStartingWith(ls[..i + 1], HunkHeader) == LastStartingWith(ls[..i], HunkHeader)
    ensures CountStartingWith(ls[..i + 1], HunkHeader) == CountStartingWith(ls[..i], HunkHeader)
    ensures HeaderLines(ls[..i + 1]) == HeaderLines(ls[..i])
    ensures JoinLines(BodyLines(ls[a..i + 1])) == JoinLines(BodyLines(ls[a..i])) + ls[i] + "\n"
  {
    LastStep(ls, i, HunkHeader);
    CountStep(ls, i, HunkHeader);
    HeaderStep(ls, i);
    BodyStep(ls, a, i);
    JoinLinesSnoc(BodyLines(ls[a..i]), ls[i]);
  }

  /** The buffers of `split_by_hunks` between two lines: the chunks pushed,
      the hunk being collected, the header collected, the hunk count. */
  datatype HunkState = HunkState(chunks: seq<DiffChunk>, current: string, header: string, count: nat)

  /** The chunks after pushing the hunk being collected, if it is not empty. */
  function Flush(st: HunkState): seq<DiffChunk> {
    if st.current == [] then st.chunks
    else st.chunks + [DiffChunk(st.header + Trim(st.current), "Hunk " + NatToDecimal(st.count))]
  }

  /** What one line does to the buffers. */
  function HunkLine(st: HunkState, line: string): HunkState {
    if IsHeaderLine(line) then st.(header := st.header + line + "\n")
    else if StartsWith(line, HunkHeader) then HunkState(Flush(st), line + "\n", st.header, st.count + 1)
    else if !StartsWith(line, FileHeader) then st.(current := st.current + line + "\n")
    else st
  }

  /** The buffers after the given lines, from empty ones. */
  function HunkScan(ls: seq<string>): HunkState
    decreases |ls|
  {
    if ls == [] then HunkState([], "", "", 0) else HunkLine(HunkScan(ls[..|ls| - 1]), ls[|ls| - 1])
  }

  /** The buffers as the chunk structure describes them after the first `i` lines. */
  function HunkStateAt(ls: seq<string>, i: nat): HunkState
    requires i <= |ls|
  {
    var last := LastStartingWith(ls[..i], HunkHeader);
    var from := if last < 0 then 0 else last;
    HunkState(Pushed(ls, last), JoinLines(BodyLines(ls[from..i])), JoinLines(HeaderLines(ls[..i])),
              CountStartingWith(ls[..i], HunkHeader))
  }

  lemma HunkScanStep(ls: seq<string>, i: nat)
    requires i < |ls|
    ensures HunkScan(ls[..i + 1]) == HunkLine(HunkScan(ls[..i]), ls[i])
  {
    assert ls[..i + 1][..i] == ls[..i];
  }

  /** One line moves the described buffers as the source's loop does. */
  lemma HunkStateStep(ls: seq<string>, i: nat)
    requires i < |ls|
    ensures HunkStateAt(ls, i + 1) == HunkLine(HunkStateAt(ls, i), ls[i])
  {
    var last := LastStartingWith(ls[..i], HunkHeader);
    var from := if last < 0 then 0 else last;
    var st := HunkStateAt(ls, i);
    if IsHeaderLine(ls[i]) {
      HeaderLineStep(ls, from, i);
    } else if StartsWith(ls[i], HunkHeader) {
      HunkLineStep(ls, i);
      HunkPush(ls, i, last, from);
      assert Flush(st) == Pushed(ls, i);
    } else {
      BodyLineStep(ls, from, i);
    }
  }

  /** The loop's buffers are the described ones. */
  lemma {:induction false} HunkScanAt(ls: seq<string>, i: nat)
    requires i <= |ls|
    ensures HunkScan(ls[..i]) == HunkStateAt(ls, i)
  {
    if i > 0 {
      HunkScanAt(ls, i - 1);
      HunkScanStep(ls, i - 1);
      HunkStateStep(ls, i - 1);
    }
  }

  /** Pushing the last hunk at the end of the input gives the hunk chunks. */
  lemma HunkScanFlush(ls: seq<string>)
    ensures Flush(HunkScan(ls)) == HunkChunks(ls)
  {
    assert ls[..|ls|] == ls;
    HunkScanAt(ls, |ls|);
    var last := LastStartingWith(ls, HunkHeader);
    var from := if last < 0 then 0 else last;
    HunkPush(ls, |ls|, last, from);
  }

  /** `split_by_hunks`: header lines accumulate in a header that is never
      cleared; each hunk line pushes the body collected so far, headed by
      that header, and starts a new body. */
  method SplitByHunks(diff: string) returns (r: Result<SplitDiffResult>)
    ensures r == HunkSplit(diff)
  {
    var lines := Lines(diff);
    var chunks: seq<DiffChunk> := [];
    var currentChunk := "";
    var currentFileHeader := "";
    var hunkCount: nat := 0;
    var i := 0;
    while i < |lines|
      invariant 0 <= i <= |lines|
      invariant HunkState(chunks, currentChunk, currentFileHeader, hunkCount) == HunkScan(lines[..i])
    {
      var line := lines[i];
      HunkScanStep(lines, i);
      if StartsWith(line, FileHeader) || StartsWith(line, "index ")
         || StartsWith(line, "--- ") || StartsWith(line, "+++ ") {
        currentFileHeader := currentFileHeader + line + "\n";
      } else if StartsWith(line, HunkHeader) {
        if currentChunk != [] {
          chunks := chunks + [DiffChunk(currentFileHeader + Trim(currentChunk), "Hunk " + NatToDecimal(hunkCount))];
        }
        currentChunk := [];
        hunkCount := hunkCount + 1;
        currentChunk := currentChunk + line + "\n";
      } else if !StartsWith(line, FileHeader) {
        currentChunk := currentChunk + line + "\n";
      }
      i := i + 1;
    }
    assert lines[..i] == lines;
    HunkScanFlush(lines);
    if currentChunk != [] {
      chunks := chunks + [DiffChunk(currentFileHeader + Trim(currentChunk), "Hunk " + NatToDecimal(hunkCount))];
    }
    if chunks == [] {
      return Err("No hunks found in diff");
    }
    return Ok(SplitDiffResult(chunks, |diff|, "by_hunks"));
  }

  /** Every line is a header line exactly when no line goes into a hunk body. */
  lemma {:induction false} BodyLinesEmptyIff(ls: seq<string>)
    ensures BodyLines(ls) == [] <==> forall j :: 0 <= j < |ls| ==> IsHeaderLine(ls[j])
    decreases |ls|
  {
    if ls != [] {
      var init := ls[..|ls| - 1];
      BodyLinesEmptyIff(init);
      assert forall j :: 0 <= j < |init| ==> init[j] == ls[j];
    }
  }

  /** Every line is a header line. */
  predicate AllHeaderLines(ls: seq<string>) {
    forall j :: 0 <= j < |ls| ==> IsHeaderLine(ls[j])
  }

  /** No hunk chunk at all exactly when every line is a header line. */
  lemma HunkChunksEmptyIff(ls: seq<string>)
    ensures HunkChunks(ls) == [] <==> AllHeaderLines(ls)
  {
    var k := LastStartingWith(ls, HunkHeader);
    BodyLinesEmptyIff(ls);
    LastStartingWithSpec(ls, HunkHeader);
    if k >= 0 {
      HunkLineIsBody(ls[k]);
      BodyLinesHas(ls[k..], 0);
    } else {
      assert ls[0..] == ls;
    }
  }

  /** Position of the first line that starts with `prefix`, or `|ls|`. */
  function FirstStartingWith(ls: seq<string>, prefix: string): (k: nat)
    ensures k <= |ls|
    decreases |ls|
  {
    if ls == [] || StartsWith(ls[0], prefix) then 0
    else 1 + FirstStartingWith(ls[1..], prefix)
  }

  /** Cutting the lines at a line with the prefix keeps the first such line. */
  lemma {:induction false} FirstBeforeCut(ls: seq<string>, k: nat, prefix: string)
    requires k < |ls| && StartsWith(ls[k], prefix)
    ensures FirstStartingWith(ls, prefix) == FirstStartingWith(ls[..k], prefix)
    decreases k
  {
    if k > 0 && !StartsWith(ls[0], prefix) {
      assert ls[..k][0] == ls[0];
      assert ls[..k][1..] == ls[1..][..k - 1];
      FirstBeforeCut(ls[1..], k - 1, prefix);
    }
  }

  /** Without a line with the prefix, the first one is past the end. */
  lemma {:induction false} FirstAbsent(ls: seq<string>, prefix: string)
    requires forall j :: 0 <= j < |ls| ==> !StartsWith(ls[j], prefix)
    ensures FirstStartingWith(ls, prefix) == |ls|
    decreases |ls|
  {
    if ls != [] {
      assert forall j :: 0 <= j < |ls| - 1 ==> ls[1..][j] == ls[j + 1];
      FirstAbsent(ls[1..], prefix);
    }
  }

  /** One chunk per hunk line, plus one more (labelled `Hunk 0`) exactly when
      some line before the first hunk line is not a header line. */
  lemma {:induction false} HunkChunksCount(ls: seq<string>)
    ensures CountStartingWith(ls, HunkHeader) <= |HunkChunks(ls)| <= CountStartingWith(ls, HunkHeader) + 1
    ensures |HunkChunks(ls)| == CountStartingWith(ls, HunkHeader)
      + (if BodyLines(ls[..FirstStartingWith(ls, HunkHeader)]) != [] then 1 else 0)
    decreases |ls|
  {
    var k := LastStartingWith(ls, HunkHeader);
    CountAtLast(ls, HunkHeader);
    LastStartingWithSpec(ls, HunkHeader);
    if k >= 0 {
      HunkChunksCount(ls[..k]);
      HunkLineIsBody(ls[k]);
      BodyLinesHas(ls[k..], 0);
      FirstBeforeCut(ls, k, HunkHeader);
      var f := FirstStartingWith(ls, HunkHeader);
      assert ls[..k][..f] == ls[..f];
    } else {
      FirstAbsent(ls, HunkHeader);
      assert ls[..|ls|] == ls && ls[0..] == ls;
    }
  }

  /** The buffers after a file header, a hunk line, a second file header
      and a second hunk line. */
  lemma HunkScanTwoFiles(f1: string, h1: string, f2: string, h2: string)
    requires StartsWith(f1, FileHeader) && StartsWith(f2, FileHeader)
    requires StartsWith(h1, HunkHeader) && StartsWith(h2, HunkHeader)
    ensures HunkScan([f1, h1, f2, h2])
         == HunkState([DiffChunk(f1 + "\n" + f2 + "\n" + Trim(h1 + "\n"), "Hunk 1")],
                      h2 + "\n", f1 + "\n" + f2 + "\n", 2)
  {
    var ls := [f1, h1, f2, h2];
    HunkLineIsBody(h1);
    HunkLineIsBody(h2);
    var s0 := HunkState([], "", "", 0);
    var s1 := HunkState([], "", f1 + "\n", 0);
    var s2 := HunkState([], h1 + "\n", f1 + "\n", 1);
    var s3 := HunkState([], h1 + "\n", f1 + "\n" + f2 + "\n", 1);
    assert NatToDecimal(1) == "1";
    assert HunkLine(s0, f1) == s1;
    assert HunkLine(s1, h1) == s2;
    assert HunkLine(s2, f2) == s3;
    assert "Hunk " + "1" == "Hunk 1";
    assert Flush(s3) == [DiffChunk(f1 + "\n" + f2 + "\n" + Trim(h1 + "\n"), "Hunk 1")];
    assert ls[..0] == [];
    HunkScanStep(ls, 0);
    assert HunkScan(ls[..1]) == s1;
    HunkScanStep(ls, 1);
    assert HunkScan(ls[..2]) == s2;
    HunkScanStep(ls, 2);
    assert HunkScan(ls[..3]) == s3;
    HunkScanStep(ls, 3);
    assert ls[..4] == ls;
  }

  /** The header is never cleared and a hunk is pushed only when the next
      one starts: with two files of one hunk each, the first file's hunk
      already carries the second file's header line. */
  lemma HunkHeadersAccumulate(f1: string, h1: string, f2: string, h2: string)
    requires StartsWith(f1, FileHeader) && StartsWith(f2, FileHeader)
    requires StartsWith(h1, HunkHeader) && StartsWith(h2, HunkHeader)
    ensures HunkChunks([f1, h1, f2, h2])
         == [DiffChunk(f1 + "\n" + f2 + "\n" + Trim(h1 + "\n"), "Hunk 1"),
             DiffChunk(f1 + "\n" + f2 + "\n" + Trim(h2 + "\n"), "Hunk 2")]
  {
    var ls := [f1, h1, f2, h2];
    HunkScanTwoFiles(f1, h1, f2, h2);
    var header := f1 + "\n" + f2 + "\n";
    var first := DiffChunk(header + Trim(h1 + "\n"), "Hunk 1");
    assert NatToDecimal(2) == "2";
    assert "Hunk " + "2" == "Hunk 2";
    assert Flush(HunkState([first], h2 + "\n", header, 2)) == [first, DiffChunk(header + Trim(h2 + "\n"), "Hunk 2")];
    HunkScanFlush(ls);
  }

  /** The hunk split fails exactly when every line of the diff is a header line. */
  lemma HunkSplitErrIff(diff: string)
    ensures HunkSplit(diff).Err? <==> AllHeaderLines(Lines(diff))
  {
    HunkChunksEmptyIff(Lines(diff));
  }

  // ---------------------------------------------------------------------------
  // Choosing a strategy
  // ---------------------------------------------------------------------------

  /** A diff under the threshold, as one chunk. */
  function Unsplit(diff: string): SplitDiffResult {
    SplitDiffResult([DiffChunk(diff, "Complete diff (no splitting needed)")], |diff|, "none")
  }

  /** Every chunk is within the threshold. */
  predicate AllFit(chunks: seq<DiffChunk>) {
    forall i :: 0 <= i < |chunks| ==> |chunks[i].content| <= Threshold
  }

  /** Strategy number `attempt`. */
  function Attempt(diff: string, attempt: nat): Result<SplitDiffResult>
    requires attempt < MaxSplitAttempts
  {
    match attempt
    case 0 => FileSplit(diff)
    case 1 => HunkSplit(diff)
    case 2 => CharSplit(diff, Threshold / 2)
    case _ => CharSplit(diff, Threshold / 4)
  }

  /** The first strategy from `attempt` on that succeeds with chunks that
      all fit, or the error once all have been tried. */
  function AttemptsFrom(diff: string, attempt: nat): Result<SplitDiffResult>
    requires attempt <= MaxSplitAttempts
    decreases MaxSplitAttempts - attempt
  {
    if attempt == MaxSplitAttempts then
      Err("Unable to split diff into manageable chunks after " + NatToDecimal(MaxSplitAttempts) + " attempts")
    else
      var r := Attempt(diff, attempt);
      if r.Ok? && AllFit(r.value.chunks) then r else AttemptsFrom(diff, attempt + 1)
  }

  /** `split_large_diff` */
  function SplitOutcome(diff: string): Result<SplitDiffResult> {
    if !NeedsSplitting(diff) then Ok(Unsplit(diff)) else AttemptsFrom(diff, 0)
  }

  /** `split_large_diff`: the unsplit diff when it is small enough, else the
      strategies in turn until one gives chunks that all fit. */
  method SplitLargeDiff(diff: string) returns (r: Result<SplitDiffResult>)
    ensures r == SplitOutcome(diff)
  {
    if !NeedsSplitting(diff) {
      return Ok(SplitDiffResult([DiffChunk(diff, "Complete diff (no splitting needed)")], |diff|, "none"));
    }
    var attempt := 0;
    while attempt < MaxSplitAttempts
      invariant attempt <= MaxSplitAttempts
      invariant AttemptsFrom(diff, attempt) == AttemptsFrom(diff, 0)
    {
      var result: Result<SplitDiffResult>;
      if attempt == 0 {
        result := SplitByFiles(diff);
      } else if attempt == 1 {
        result := SplitByHunks(diff);
      } else if attempt == 2 {
        result := SplitByCharacterChunks(diff, Threshold / 2);
      } else {
        result := SplitByCharacterChunks(diff, Threshold / 4);
      }
      if result.Ok? {
        var allChunksValid := AllFit(result.value.chunks);
        if allChunksValid {
          return result;
        }
      }
      attempt := attempt + 1;
    }
    return Err("Unable to split diff into manageable chunks after " + NatToDecimal(MaxSplitAttempts) + " attempts");
  }

  /** The third strategy always succeeds: windows of half the threshold fit. */
  lemma ThirdAttemptFits(diff: string)
    ensures AttemptsFrom(diff, 2) == CharSplit(diff, Threshold / 2)
  {
    CharSplitProperties(diff, Threshold / 2);
  }

  /** Splitting never fails and every chunk fits; the diff is left whole
      exactly when it is not over the threshold; a character split loses
      nothing; the total size is the diff's. */
  lemma SplitOutcomeProperties(diff: string)
    ensures SplitOutcome(diff).Ok?
    ensures AllFit(SplitOutcome(diff).value.chunks)
    ensures SplitOutcome(diff).value.totalSize == |diff|
    ensures SplitOutcome(diff).value.splitMethod == "none" <==> !NeedsSplitting(diff)
    ensures SplitOutcome(diff).value.splitMethod == "by_characters" ==>
      Concat(Contents(SplitOutcome(diff).value.chunks)) == diff
    ensures SplitOutcome(diff).value.splitMethod in {"none", "by_files", "by_hunks", "by_characters"}
  {
    if NeedsSplitting(diff) {
      ThirdAttemptFits(diff);
      CharSplitProperties(diff, Threshold / 2);
    }
  }
}
