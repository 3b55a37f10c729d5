/** The pieces of Rust's `str` API that the core relies on, written out as
    functions over `string`: prefix and substring tests, `find`, `lines`,
    `trim`, `to_lowercase` (ASCII only), `split`/`join`, `replace`,
    `trim_end_matches`, `split_whitespace` and decimal formatting of counters. */
module Text {
  import opened Wrappers

  // ---------------------------------------------------------------------------
  // Prefixes, suffixes, occurrences
  // ---------------------------------------------------------------------------

  /** `s.starts_with(p)` */
  predicate StartsWith(s: string, p: string) {
    |p| <= |s| && s[..|p|] == p
  }

  /** `s.ends_with(p)` */
  predicate EndsWith(s: string, p: string) {
    |p| <= |s| && s[|s| - |p|..] == p
  }

  /** `s.contains(p)`: `p` occurs at some position of `s`. */
  predicate Contains(s: string, p: string) {
    exists i :: 0 <= i <= |s| && StartsWith(s[i..], p)
  }

  /** `s.find(p)`: the first position where `p` occurs (see `FindSpec`). */
  function Find(s: string, p: string): (r: Option<nat>)
    ensures r.Some? ==> r.value <= |s| && StartsWith(s[r.value..], p)
    decreases |s|
  {
    if StartsWith(s, p) then Some(0)
    else if s == [] then None
    else
      match Find(s[1..], p)
      case Some(i) =>
        assert s[i + 1..] == s[1..][i..];
        Some(i + 1)
      case None => None
  }

  /** `Find` reports the first occurrence, and nothing exactly when there is
      no occurrence. */
  lemma {:induction false} FindSpec(s: string, p: string)
    ensures Find(s, p).Some? ==> forall j :: 0 <= j < Find(s, p).value ==> !StartsWith(s[j..], p)
    ensures Find(s, p).None? <==> !Contains(s, p)
    decreases |s|
  {
    if StartsWith(s, p) {
      assert s[0..] == s;
    } else if s != [] {
      FindSpec(s[1..], p);
      assert forall j :: 1 <= j <= |s| ==> s[j..] == s[1..][j - 1..];
    }
  }

  /** The first occurrence is the one `Find` reports. */
  lemma FindFirst(s: string, p: string, i: nat)
    requires i <= |s| && StartsWith(s[i..], p)
    requires forall j :: 0 <= j < i ==> !StartsWith(s[j..], p)
    ensures Find(s, p) == Some(i)
  {
    FindSpec(s, p);
    match Find(s, p)
    case None =>
    case Some(k) =>
      if k < i { } else if k > i { }
  }

  /** A character that does not occur in `s` rules out every pattern that holds it. */
  lemma NotContainsChar(s: string, p: string, k: nat)
    requires k < |p| && p[k] !in s
    ensures !Contains(s, p)
  {
  }

  // ---------------------------------------------------------------------------
  // White space and case
  // ---------------------------------------------------------------------------

  /** Rust's `char::is_whitespace`: the Unicode White_Space property. */
  predicate IsWhitespace(c: char) {
    || ('\t' <= c <= '\r')
    || c == ' '
    || c == '\U{0085}'
    || c == '\U{00A0}'
    || c == '\U{1680}'
    || ('\U{2000}' <= c <= '\U{200A}')
    || c == '\U{2028}'
    || c == '\U{2029}'
    || c == '\U{202F}'
    || c == '\U{205F}'
    || c == '\U{3000}'
  }

  predicate AllWhitespace(s: string) {
    forall k :: 0 <= k < |s| ==> IsWhitespace(s[k])
  }

  /** The first index from `i` on that does not hold white space (`|s|` when
      there is none). */
  function SkipWhitespace(s: string, i: nat): (k: nat)
    requires i <= |s|
    ensures i <= k <= |s|
    decreases |s| - i
  {
    if i == |s| || !IsWhitespace(s[i]) then i else SkipWhitespace(s, i + 1)
  }

  /** `SkipWhitespace` passes over white space only and stops at the first
      other character. */
  lemma {:induction false} SkipWhitespaceSpec(s: string, i: nat)
    requires i <= |s|
    ensures var k := SkipWhitespace(s, i);
      && (forall j :: i <= j < k ==> IsWhitespace(s[j]))
      && (k < |s| ==> !IsWhitespace(s[k]))
    decreases |s| - i
  {
    if i < |s| && IsWhitespace(s[i]) {
      SkipWhitespaceSpec(s, i + 1);
    }
  }

  /** The index just after the last character before `i` that is not white
      space (0 when there is none). */
  function BackWhitespace(s: string, i: nat): (k: nat)
    requires i <= |s|
    ensures k <= i
    decreases i
  {
    if i == 0 || !IsWhitespace(s[i - 1]) then i else BackWhitespace(s, i - 1)
  }

  /** `BackWhitespace` passes back over white space only and stops after the
      last other character. */
  lemma {:induction false} BackWhitespaceSpec(s: string, i: nat)
    requires i <= |s|
    ensures var k := BackWhitespace(s, i);
      && (forall j :: k <= j < i ==> IsWhitespace(s[j]))
      && (k > 0 ==> !IsWhitespace(s[k - 1]))
    decreases i
  {
    if i > 0 && IsWhitespace(s[i - 1]) {
      BackWhitespaceSpec(s, i - 1);
    }
  }

  /** `s.trim()`: `s` without its leading and trailing white space. */
  function Trim(s: string): (r: string)
  {
    var a := SkipWhitespace(s, 0);
    var b := BackWhitespace(s, |s|);
    if b <= a then [] else s[a..b]
  }

  /** What `Trim` keeps: a slice of `s` with only white space outside it and
      no white space at either of its ends; a trimmed text is a fixed point. */
  lemma TrimShape(s: string) returns (i: nat)
    ensures i + |Trim(s)| <= |s| && Trim(s) == s[i..i + |Trim(s)|]
    ensures AllWhitespace(s[..i]) && AllWhitespace(s[i + |Trim(s)|..])
    ensures Trim(s) != [] ==> !IsWhitespace(Trim(s)[0]) && !IsWhitespace(Trim(s)[|Trim(s)| - 1])
  {
    var a := SkipWhitespace(s, 0);
    var b := BackWhitespace(s, |s|);
    SkipWhitespaceSpec(s, 0);
    BackWhitespaceSpec(s, |s|);
    if b <= a {
      i := 0;
      assert s[..0] == [] && s[0..] == s;
    } else {
      i := a;
      assert Trim(s) == s[a..b];
      assert forall j :: 0 <= j < a ==> s[..a][j] == s[j];
      assert forall j :: 0 <= j < |s| - b ==> s[b..][j] == s[b + j];
    }
  }

  lemma TrimIdempotent(s: string)
    ensures Trim(Trim(s)) == Trim(s)
  {
    var _ := TrimShape(s);
    TrimFixed(Trim(s));
  }

  /** A text with no white space at its ends is its own trim. */
  lemma TrimFixed(s: string)
    requires s != [] ==> !IsWhitespace(s[0]) && !IsWhitespace(s[|s| - 1])
    ensures Trim(s) == s
  {
    assert s[0..|s|] == s;
  }

  /** `Trim(s)` is empty exactly when `s` is all white space. */
  lemma TrimEmptyIff(s: string)
    ensures Trim(s) == [] <==> AllWhitespace(s)
  {
    var a := SkipWhitespace(s, 0);
    var b := BackWhitespace(s, |s|);
    SkipWhitespaceSpec(s, 0);
    BackWhitespaceSpec(s, |s|);
    if a < b {
      assert !IsWhitespace(s[a]);
    }
  }

  /** Trimming a text whose first character and `k`-th character are not
      white space keeps its first `k + 1` characters. */
  lemma TrimKeepsPrefix(s: string, k: nat)
    requires k < |s| && !IsWhitespace(s[0]) && !IsWhitespace(s[k])
    ensures k < |Trim(s)| && Trim(s)[..k + 1] == s[..k + 1]
  {
    assert SkipWhitespace(s, 0) == 0;
    BackWhitespaceSpec(s, |s|);
    assert k < BackWhitespace(s, |s|);
  }

  /** Lower-cases the ASCII letters A-Z and leaves every other character alone. */
  function LowerChar(c: char): char {
    if 'A' <= c <= 'Z' then (c as int + 32) as char else c
  }

  /** `s.to_lowercase()`, restricted to ASCII letters. */
  function ToLower(s: string): (r: string)
  {
    seq(|s|, i requires 0 <= i < |s| => LowerChar(s[i]))
  }

  lemma ToLowerIdempotent(s: string)
    ensures ToLower(ToLower(s)) == ToLower(s)
  {
  }

  // ---------------------------------------------------------------------------
  // Lines
  // ---------------------------------------------------------------------------

  /** Position of the first `c` in `s`, or `|s|` when there is none. */
  function IndexOfChar(s: string, c: char): (k: nat)
    ensures k <= |s| && (k < |s| ==> s[k] == c)
    ensures forall j :: 0 <= j < k ==> s[j] != c
    decreases |s|
  {
    if s == [] then 0
    else if s[0] == c then 0
    else 1 + IndexOfChar(s[1..], c)
  }

  /** Drops one `'\r'` at the end of a line. */
  function StripCr(line: string): string {
    if line != [] && line[|line| - 1] == '\r' then line[..|line| - 1] else line
  }

  /** `s.lines()`: the text split at each `'\n'`, a `'\r'` right before a
      `'\n'` dropped, and no empty line after a final `'\n'`. */
  function Lines(s: string): seq<string>
    decreases |s|
  {
    if s == [] then []
    else
      var k := IndexOfChar(s, '\n');
      if k == |s| then [s]
      else [StripCr(s[..k])] + Lines(s[k + 1..])
  }

  /** `lines().next().unwrap_or("")` */
  function FirstLine(s: string): string {
    var ls := Lines(s);
    if ls == [] then "" else ls[0]
  }

  /** `parts.join(sep)` */
  function Join(parts: seq<string>, sep: string): string
    decreases |parts|
  {
    if parts == [] then ""
    else if |parts| == 1 then parts[0]
    else parts[0] + sep + Join(parts[1..], sep)
  }

  /** Concatenation of all parts, `parts.concat()`. */
  function Concat(parts: seq<string>): string
    decreases |parts|
  {
    if parts == [] then "" else parts[0] + Concat(parts[1..])
  }

  /** A text without `'\r'` that does not end in a line break is recovered by
      joining its lines with `"\n"`. */
  lemma {:induction false} LinesJoinRoundTrip(s: string)
    requires forall j :: 0 <= j < |s| ==> s[j] != '\r'
    requires s == [] || s[|s| - 1] != '\n'
    ensures Join(Lines(s), "\n") == s
    decreases |s|
  {
    if s != [] {
      var k := IndexOfChar(s, '\n');
      if k < |s| {
        var rest := s[k + 1..];
        assert StripCr(s[..k]) == s[..k];
        LinesJoinRoundTrip(rest);
        var ls := Lines(rest);
        assert Lines(s) == [s[..k]] + ls;
        assert ls != [];
        assert Join(Lines(s), "\n") == s[..k] + "\n" + Join(ls, "\n");
        assert s == s[..k] + "\n" + rest;
      }
    }
  }

    lemma IndexOfCharToLower(s: string, k: nat)
    requires k == IndexOfChar(s, '\n')
    ensures IndexOfChar(ToLower(s), '\n') == k
  {
    var t := ToLower(s);
    assert forall j :: 0 <= j < |s| ==> (t[j] == '\n' <==> s[j] == '\n');
  }

  /** The first line of the lower-cased text is the lower-cased first line. */
  lemma FirstLineToLower(s: string)
    ensures FirstLine(ToLower(s)) == ToLower(FirstLine(s))
  {
    if s != [] {
      var k := IndexOfChar(s, '\n');
      IndexOfCharToLower(s, k);
      if k < |s| {
        assert ToLower(s)[..k] == ToLower(s[..k]);
        assert StripCr(ToLower(s[..k])) == ToLower(StripCr(s[..k]));
      }
    }
  }

  /** A first line free of line breaks is read back whatever follows it. */
  lemma FirstLineOf(line: string, rest: string)
    requires '\n' !in line
    requires line == [] || line[|line| - 1] != '\r'
    ensures FirstLine(line + "\n" + rest) == line
    ensures line != [] ==> FirstLine(line) == line
  {
    var s := line + "\n" + rest;
    assert s[|line|] == '\n';
    assert forall j :: 0 <= j < |line| ==> s[j] == line[j];
    var k := IndexOfChar(s, '\n');
    assert k == |line|;
    assert s[..k] == line;
  }

  /** `lines.iter().map(|l| l + "\n").collect::<String>()`: every line
      followed by a line break, the buffers the splitter builds with
      `push_str(line); push('\n')`. */
  function JoinLines(ls: seq<string>): string
    decreases |ls|
  {
    if ls == [] then "" else JoinLines(ls[..|ls| - 1]) + ls[|ls| - 1] + "\n"
  }

  lemma {:induction false} JoinLinesCons(x: string, ls: seq<string>)
    ensures JoinLines([x] + ls) == x + "\n" + JoinLines(ls)
    decreases |ls|
  {
    if ls != [] {
      assert ([x] + ls)[..|ls|] == [x] + ls[..|ls| - 1];
      JoinLinesCons(x, ls[..|ls| - 1]);
    }
  }

  lemma JoinLinesSnoc(ls: seq<string>, x: string)
    ensures JoinLines(ls + [x]) == JoinLines(ls) + x + "\n"
  {
    assert (ls + [x])[..|ls|] == ls;
  }

  lemma JoinLinesEmptyIff(ls: seq<string>)
    ensures JoinLines(ls) == [] <==> ls == []
  {
  }

  // ---------------------------------------------------------------------------
  // split, join, replace
  // ---------------------------------------------------------------------------

  /** `s.split(sep)` for a non-empty separator: the pieces between the
      non-overlapping occurrences of `sep`, scanned from the left. */
  function Split(s: string, sep: string): (r: seq<string>)
    requires sep != []
    ensures r != []
    decreases |s|
  {
    match Find(s, sep)
    case None => [s]
    case Some(i) => [s[..i]] + Split(s[i + |sep|..], sep)
  }

  /** Joining the pieces of a split with the separator gives back the text. */
  lemma {:induction false} SplitJoinRoundTrip(s: string, sep: string)
    requires sep != []
    ensures Join(Split(s, sep), sep) == s
    decreases |s|
  {
    match Find(s, sep)
    case None =>
    case Some(i) =>
      var rest := s[i + |sep|..];
      SplitJoinRoundTrip(rest, sep);
      assert s[i..][..|sep|] == sep;
      assert s == s[..i] + sep + rest;
  }

  /** The last piece of a split holds no separator, and it is the whole
      text when there is no separator and what follows a separator when
      there is one. */
  lemma {:induction false} SplitLastPiece(s: string, sep: string) returns (last: string)
    requires sep != []
    ensures last == Split(s, sep)[|Split(s, sep)| - 1]
    ensures !Contains(last, sep)
    ensures !Contains(s, sep) ==> last == s
    ensures Contains(s, sep) ==> EndsWith(s, sep + last)
    decreases |s|
  {
    match Find(s, sep)
    case None =>
      FindSpec(s, sep);
      last := s;
    case Some(i) =>
      var rest := s[i + |sep|..];
      var tailParts := Split(rest, sep);
      last := SplitLastPiece(rest, sep);
      assert Split(s, sep) == [s[..i]] + tailParts;
      assert last == ([s[..i]] + tailParts)[|tailParts|];
      assert StartsWith(s[i..], sep);
      SuffixAfterSeparator(s, sep, i, last);
  }

  lemma SuffixAfterSeparator(s: string, sep: string, i: nat, last: string)
    requires i + |sep| <= |s| && s[i..i + |sep|] == sep
    requires var rest := s[i + |sep|..];
      if Contains(rest, sep) then EndsWith(rest, sep + last) else last == rest
    ensures EndsWith(s, sep + last)
  {
    var rest := s[i + |sep|..];
    var tail := sep + last;
    assert s == s[..i] + sep + rest;
    if !Contains(rest, sep) {
      assert s[|s| - |tail|..] == tail;
    } else {
      assert s[|s| - |tail|..] == rest[|rest| - |tail|..];
    }
  }

  /** None of `parts` holds `sep`. */
  predicate NoneContains(parts: seq<string>, sep: string) {
    forall k :: 0 <= k < |parts| ==> !Contains(parts[k], sep)
  }

  lemma NoneContainsCons(x: string, parts: seq<string>, sep: string)
    requires !Contains(x, sep) && NoneContains(parts, sep)
    ensures NoneContains([x] + parts, sep)
  {
    assert forall k :: 1 <= k < |parts| + 1 ==> ([x] + parts)[k] == parts[k - 1];
  }

  /** A text holding no `p` holds none in any of its slices. */
  lemma ContainsSlice(s: string, a: nat, b: nat, p: string)
    requires a <= b <= |s| && !Contains(s, p)
    ensures !Contains(s[a..b], p)
  {
    forall i | 0 <= i <= b - a ensures !StartsWith(s[a..b][i..], p) {
      assert !StartsWith(s[a + i..], p);
      if |p| <= b - a - i {
        assert s[a..b][i..][..|p|] == s[a + i..][..|p|];
      }
    }
  }

  /** No line of a text holding no `p` holds one. */
  lemma {:induction false} LinesFree(s: string, p: string)
    requires !Contains(s, p)
    ensures NoneContains(Lines(s), p)
    decreases |s|
  {
    if s != [] {
      var k := IndexOfChar(s, '\n');
      if k < |s| {
        var rest := s[k + 1..];
        ContainsSlice(s, k + 1, |s|, p);
        assert rest == s[k + 1..|s|];
        LinesFree(rest, p);
        var first := StripCr(s[..k]);
        assert first == s[0..|first|];
        ContainsSlice(s, 0, |first|, p);
        NoneContainsCons(first, Lines(rest), p);
      } else {
        assert s[0..|s|] == s;
      }
    }
  }

  /** A `p` none of whose characters occurs in `sep` cannot straddle a
      separator. */
  lemma ConcatFree(x: string, sep: string, y: string, p: string)
    requires p != [] && sep != [] && !Contains(x, p) && !Contains(y, p)
    requires forall j :: 0 <= j < |p| ==> p[j] !in sep
    ensures !Contains(x + sep + y, p)
  {
    var t := x + sep + y;
    forall i | 0 <= i <= |t| ensures !StartsWith(t[i..], p) {
      if i + |p| <= |x| {
        assert !StartsWith(x[i..], p);
        assert t[i..][..|p|] == x[i..][..|p|];
      } else if i >= |x| + |sep| {
        assert t[i..] == y[i - |x| - |sep|..];
      } else if i + |p| <= |t| {
        var j := if i >= |x| then 0 else |x| - i;
        assert t[i..][j] == sep[i + j - |x|];
        assert p[j] !in sep;
      }
    }
  }

  /** Joining pieces that hold no `p` creates none, when `p` shares no
      character with the separator. */
  lemma {:induction false} JoinFree(parts: seq<string>, sep: string, p: string)
    requires p != [] && sep != [] && NoneContains(parts, p)
    requires forall j :: 0 <= j < |p| ==> p[j] !in sep
    ensures !Contains(Join(parts, sep), p)
    decreases |parts|
  {
    if parts == [] {
    } else if |parts| == 1 {
    } else {
      var rest := parts[1..];
      assert forall k :: 0 <= k < |rest| ==> rest[k] == parts[k + 1];
      JoinFree(rest, sep, p);
      assert !Contains(parts[0], p);
      ConcatFree(parts[0], sep, Join(rest, sep), p);
    }
  }

  /** Trimming creates no occurrence. */
  lemma TrimFree(s: string, p: string)
    requires !Contains(s, p)
    ensures !Contains(Trim(s), p)
  {
    var i := TrimShape(s);
    ContainsSlice(s, i, i + |Trim(s)|, p);
  }

  /** No piece of a split holds the separator. */
  lemma {:induction false} SplitPiecesFree(s: string, sep: string)
    requires sep != []
    ensures NoneContains(Split(s, sep), sep)
    decreases |s|
  {
    FindSpec(s, sep);
    match Find(s, sep)
    case None =>
    case Some(i) =>
      var rest := s[i + |sep|..];
      SplitPiecesFree(rest, sep);
      PrefixBeforeFirstFree(s, sep, i);
      NoneContainsCons(s[..i], Split(rest, sep), sep);
  }

  /** The text before the first occurrence of `sep` does not hold `sep`. */
  lemma PrefixBeforeFirstFree(s: string, sep: string, i: nat)
    requires sep != [] && i <= |s|
    requires forall j :: 0 <= j < i ==> !StartsWith(s[j..], sep)
    ensures !Contains(s[..i], sep)
  {
    forall j | 0 <= j <= i
      ensures !StartsWith(s[..i][j..], sep)
    {
      if |sep| <= i - j {
        assert s[..i][j..][..|sep|] == s[j..][..|sep|];
      }
    }
  }

  /** `s.replace(pat, rep)` for a non-empty pattern. */
  function ReplaceAll(s: string, pat: string, rep: string): string
    requires pat != []
  {
    Join(Split(s, pat), rep)
  }

  /** `s.trim_end_matches(c)`: `s` without the run of `c` at its end. */
  function TrimEndMatches(s: string, c: char): (r: string)
    ensures |r| <= |s| && r == s[..|r|]
    ensures forall j :: |r| <= j < |s| ==> s[j] == c
    ensures r != [] ==> r[|r| - 1] != c
    decreases |s|
  {
    if s != [] && s[|s| - 1] == c then TrimEndMatches(s[..|s| - 1], c) else s
  }

  // ---------------------------------------------------------------------------
  // split_whitespace
  // ---------------------------------------------------------------------------

  /** Length of the leading run of non-white-space characters. */
  function WordLength(s: string): (k: nat)
    ensures k <= |s|
    ensures forall j :: 0 <= j < k ==> !IsWhitespace(s[j])
    ensures k < |s| ==> IsWhitespace(s[k])
    decreases |s|
  {
    if s == [] || IsWhitespace(s[0]) then 0 else 1 + WordLength(s[1..])
  }

  /** A non-empty run of characters that are not white space. */
  predicate IsWord(w: string) {
    w != [] && forall j :: 0 <= j < |w| ==> !IsWhitespace(w[j])
  }

  /** `s.split_whitespace()`: the maximal runs of non-white-space characters. */
  function SplitWhitespace(s: string): seq<string>
    decreases |s|
  {
    if s == [] then []
    else if IsWhitespace(s[0]) then SplitWhitespace(s[1..])
    else
      var k := WordLength(s);
      [s[..k]] + SplitWhitespace(s[k..])
  }

  /** Every piece `split_whitespace` yields is a word. */
  lemma {:induction false} SplitWhitespaceWords(s: string)
    ensures forall i :: 0 <= i < |SplitWhitespace(s)| ==> IsWord(SplitWhitespace(s)[i])
    decreases |s|
  {
    if s != [] {
      if IsWhitespace(s[0]) {
        SplitWhitespaceWords(s[1..]);
      } else {
        var k := WordLength(s);
        SplitWhitespaceWords(s[k..]);
        var rest := SplitWhitespace(s[k..]);
        var words := [s[..k]] + rest;
        assert IsWord(s[..k]);
        forall i | 1 <= i < |words| ensures IsWord(words[i]) {
          assert words[i] == rest[i - 1];
        }
      }
    }
  }

  // ---------------------------------------------------------------------------
  // Decimal numerals, as `format!("{}", n)` writes a `usize`
  // ---------------------------------------------------------------------------

  function DigitChar(d: nat): char
    requires d < 10
  {
    ('0' as int + d) as char
  }

  /** `format!("{}", n)` */
  function NatToDecimal(n: nat): (r: string)
    ensures r != []
    ensures forall j :: 0 <= j < |r| ==> '0' <= r[j] <= '9'
    decreases n
  {
    if n < 10 then [DigitChar(n)] else NatToDecimal(n / 10) + [DigitChar(n % 10)]
  }

  /** The number a string of decimal digits denotes. */
  function DecimalValue(s: string): nat
    requires forall j :: 0 <= j < |s| ==> '0' <= s[j] <= '9'
    decreases |s|
  {
    if s == [] then 0 else 10 * DecimalValue(s[..|s| - 1]) + (s[|s| - 1] as int - '0' as int)
  }

  /** Reading back a formatted counter gives the counter: distinct counts
      give distinct labels. */
  lemma {:induction false} DecimalRoundTrip(n: nat)
    ensures DecimalValue(NatToDecimal(n)) == n
    ensures NatToDecimal(n)[0] != '0' || n == 0
    decreases n
  {
    if n >= 10 {
      DecimalRoundTrip(n / 10);
      var r := NatToDecimal(n);
      assert r[..|r| - 1] == NatToDecimal(n / 10);
    }
  }
}
