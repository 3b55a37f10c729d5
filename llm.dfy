/** The string handling around the chat-completion calls: the filter that
    drops the model's meta-commentary, the text after the last `</think>`,
    the endpoint URL, the user prompt, and the early returns and numbered
    prompt of combining several commit messages. The HTTP exchange itself is
    a parameter: the model's reply text. */
module Llm {
  import opened Wrappers
  import opened Text
  import Emotes

  // ---------------------------------------------------------------------------
  // filter_unwanted_lines
  // ---------------------------------------------------------------------------

  /** The line openings that mark a line as commentary about the diff. */
  const UnwantedStartPatterns: seq<string> := [
    "the `diff`",
    "diff indicates",
    "here's a breakdown",
    "analysis of the changes",
    "based on the diff",
    "looking at the changes",
    "the changes show",
    "i can see",
    "from the diff",
    "the diff shows",
    "analyzing the diff",
    "examining the changes",
    "reviewing the diff",
    "summary:",
    "explanation:",
    "breakdown:",
    "analysis:",
    "here's what",
    "let me analyze",
    "looking at this",
    "from what i can see",
    "the code changes",
    "in this diff",
    "this diff shows",
    "the following changes",
    "changes made:",
    "modifications:",
    "updates:",
    "alterations:",
    "revisions:",
    "based on",
    "according to",
    "it appears",
    "it seems",
    "it looks like",
    "from the context",
    "given the",
    "considering the",
    "taking into account"
  ]

  /** The list markers a pattern may follow. */
  const Bullets: seq<string> := ["- ", "* ", "\U{2022} "]

  /** The form a line is judged by: trimmed, then lower-cased. */
  function Normalized(line: string): (t: string)
    ensures t == [] <==> AllWhitespace(line)
  {
    TrimEmptyIff(line);
    ToLower(Trim(line))
  }

  /** The line starts with `pattern`, bare or after one list marker. */
  predicate MatchesPattern(t: string, pattern: string) {
    || StartsWith(t, pattern)
    || StartsWith(t, Bullets[0] + pattern)
    || StartsWith(t, Bullets[1] + pattern)
    || StartsWith(t, Bullets[2] + pattern)
  }

  /** `patterns.iter().any(..)` from position `i` on: the patterns are
      tried in turn. */
  predicate AnyPatternFrom(t: string, patterns: seq<string>, i: nat)
    requires i <= |patterns|
    decreases |patterns| - i
  {
    i < |patterns| && (MatchesPattern(t, patterns[i]) || AnyPatternFrom(t, patterns, i + 1))
  }

  /** Trying the patterns in turn finds a match exactly when one exists. */
  lemma {:induction false} AnyPatternFromIff(t: string, patterns: seq<string>, i: nat)
    requires i <= |patterns|
    ensures AnyPatternFrom(t, patterns, i) <==> exists j :: i <= j < |patterns| && MatchesPattern(t, patterns[j])
    decreases |patterns| - i
  {
    if i < |patterns| {
      AnyPatternFromIff(t, patterns, i + 1);
    }
  }

  /** Some unwanted pattern matches the normalized line. */
  predicate ShouldFilter(t: string) {
    AnyPatternFrom(t, UnwantedStartPatterns, 0)
  }

  /** `t.contains(w)`, computed by searching for `w`. */
  predicate Mentions(t: string, w: string) {
    Find(t, w).Some?
  }

  /** A "this commit ..." line that speculates about the change. */
  predicate IsMetaCommitLine(t: string) {
    && StartsWith(t, "this commit")
    && (Mentions(t, "appears") || Mentions(t, "seems") || Mentions(t, "based on") || Mentions(t, "analysis"))
  }

  /** The search finds the word exactly when it occurs. */
  lemma MentionsIff(t: string, w: string)
    ensures Mentions(t, w) <==> Contains(t, w)
  {
    FindSpec(t, w);
  }

  /** How the filter judges one line. */
  datatype Verdict = Blank | Unwanted | Wanted

  /** The verdict on a line: blank when nothing is left after trimming,
      unwanted when a pattern or the "this commit" rule matches. */
  function Classify(line: string): (v: Verdict)
    ensures v == Blank <==> AllWhitespace(line)
  {
    var t := Normalized(line);
    if t == [] then Blank
    else if ShouldFilter(t) || IsMetaCommitLine(t) then Unwanted
    else Wanted
  }

  /** The buffer after one more line: a blank line is kept only once
      something has been kept, an unwanted line never, any other line
      always. */
  function KeepLine(kept: seq<string>, line: string, v: Verdict): seq<string> {
    match v
    case Blank => if kept != [] then kept + [line] else kept
    case Unwanted => kept
    case Wanted => kept + [line]
  }

  /** The lines kept from `ls`, line by line in input order, for a given way
      of judging lines. */
  function KeptBy(ls: seq<string>, classify: string -> Verdict): seq<string>
    decreases |ls|
  {
    if ls == [] then []
    else KeepLine(KeptBy(ls[..|ls| - 1], classify), ls[|ls| - 1], classify(ls[|ls| - 1]))
  }

  /** The lines `filter_unwanted_lines` keeps. */
  function Kept(ls: seq<string>): seq<string> {
    KeptBy(ls, Classify)
  }

  /** What `filter_unwanted_lines` returns. */
  function FilteredText(content: string): (r: string)
    ensures content == [] ==> r == []
  {
    Trim(Join(Kept(Lines(content)), "\n"))
  }

  /** `filter_unwanted_lines`: one pass over the lines, pushing each kept line
      onto a growing buffer, then join and trim. */
  method FilterUnwantedLines(content: string) returns (r: string)
    ensures r == FilteredText(content)
  {
    var lines := Lines(content);
    var filteredLines: seq<string> := [];
    var i := 0;
    while i < |lines|
      invariant 0 <= i <= |lines|
      invariant filteredLines == Kept(lines[..i])
    {
      assert lines[..i + 1][..i] == lines[..i];
      var line := lines[i];
      var lineTrimmed := ToLower(Trim(line));
      if lineTrimmed == [] {
        if filteredLines != [] {
          filteredLines := filteredLines + [line];
        }
      } else {
        var shouldFilter := ShouldFilter(lineTrimmed);
        var isMetaCommitLine := IsMetaCommitLine(lineTrimmed);
        if !shouldFilter && !isMetaCommitLine {
          filteredLines := filteredLines + [line];
        }
      }
      i := i + 1;
    }
    assert lines[..i] == lines;
    r := Trim(Join(filteredLines, "\n"));
  }

  // ---- an independent description of the kept lines -------------------------

  /** The lines that are not unwanted, in order: what the filter keeps once
      content has started. */
  function WantedOrBlank(ls: seq<string>, classify: string -> Verdict): (r: seq<string>)
    ensures |r| <= |ls|
    decreases |ls|
  {
    if ls == [] then []
    else
      WantedOrBlank(ls[..|ls| - 1], classify)
      + (if classify(ls[|ls| - 1]) == Unwanted then [] else [ls[|ls| - 1]])
  }

  /** `xs` is `ys` with some elements left out, in order. */
  predicate Subsequence(xs: seq<string>, ys: seq<string>)
    decreases |ys|
  {
    if xs == [] then true
    else if ys == [] then false
    else
      || (xs[|xs| - 1] == ys[|ys| - 1] && Subsequence(xs[..|xs| - 1], ys[..|ys| - 1]))
      || Subsequence(xs, ys[..|ys| - 1])
  }

  /** No line is judged wanted. */
  predicate NoneWanted(ls: seq<string>, classify: string -> Verdict) {
    forall j :: 0 <= j < |ls| ==> classify(ls[j]) != Wanted
  }

  lemma NoneWantedSnoc(ls: seq<string>, classify: string -> Verdict)
    requires ls != []
    ensures NoneWanted(ls, classify)
      <==> NoneWanted(ls[..|ls| - 1], classify) && classify(ls[|ls| - 1]) != Wanted
  {
    var init := ls[..|ls| - 1];
    assert forall j :: 0 <= j < |init| ==> init[j] == ls[j];
  }

  /** Nothing is kept exactly when no line is wanted. */
  lemma {:induction false} KeptEmptyIff(ls: seq<string>, classify: string -> Verdict)
    ensures KeptBy(ls, classify) == [] <==> NoneWanted(ls, classify)
    decreases |ls|
  {
    if ls != [] {
      KeptEmptyIff(ls[..|ls| - 1], classify);
      NoneWantedSnoc(ls, classify);
    }
  }

  /** The kept lines are input lines, unaltered and in their order. */
  lemma {:induction false} KeptSubsequence(ls: seq<string>, classify: string -> Verdict)
    ensures Subsequence(KeptBy(ls, classify), ls)
    decreases |ls|
  {
    if ls != [] {
      var init := ls[..|ls| - 1];
      KeptSubsequence(init, classify);
      var prev := KeptBy(init, classify);
      var line := ls[|ls| - 1];
      if KeptBy(ls, classify) == prev + [line] {
        assert (prev + [line])[..|prev|] == prev;
      } else {
        assert KeptBy(ls, classify) == prev;
      }
    }
  }

  /** Once something has been kept, every further line is kept unless it is
      unwanted, blank lines included. */
  lemma {:induction false} KeptAfterStart(ls: seq<string>, tail: seq<string>, classify: string -> Verdict)
    requires KeptBy(ls, classify) != []
    ensures KeptBy(ls + tail, classify) == KeptBy(ls, classify) + WantedOrBlank(tail, classify)
    decreases |tail|
  {
    if tail == [] {
      assert ls + tail == ls;
    } else {
      var init := tail[..|tail| - 1];
      KeptAfterStart(ls, init, classify);
      assert (ls + tail)[..|ls + tail| - 1] == ls + init;
    }
  }

  /** Lines before the first wanted line leave no trace. */
  lemma {:induction false} KeptIgnoresPreamble(pre: seq<string>, ls: seq<string>, classify: string -> Verdict)
    requires NoneWanted(pre, classify)
    ensures KeptBy(pre + ls, classify) == KeptBy(ls, classify)
    decreases |ls|
  {
    if ls == [] {
      KeptEmptyIff(pre, classify);
      assert pre + ls == pre;
    } else {
      KeptIgnoresPreamble(pre, ls[..|ls| - 1], classify);
      assert (pre + ls)[..|pre + ls| - 1] == pre + ls[..|ls| - 1];
    }
  }

  /** The kept lines are the first wanted line and every line after it that
      is not unwanted; whatever came before it is discarded. */
  lemma KeptShape(pre: seq<string>, first: string, tail: seq<string>, classify: string -> Verdict)
    requires NoneWanted(pre, classify)
    requires classify(first) == Wanted
    ensures KeptBy(pre + [first] + tail, classify) == [first] + WantedOrBlank(tail, classify)
  {
    assert pre + [first] + tail == pre + ([first] + tail);
    KeptIgnoresPreamble(pre, [first] + tail, classify);
    assert KeptBy([first], classify) == [first] by {
      assert [first][..0] == [];
    }
    KeptAfterStart([first], tail, classify);
  }

  lemma {:induction false} WantedOrBlankAll(ls: seq<string>, classify: string -> Verdict)
    requires forall j :: 0 <= j < |ls| ==> classify(ls[j]) != Unwanted
    ensures WantedOrBlank(ls, classify) == ls
    decreases |ls|
  {
    if ls != [] {
      WantedOrBlankAll(ls[..|ls| - 1], classify);
    }
  }

  /** The filter's result is already trimmed. */
  lemma FilteredIsTrimmed(content: string)
    ensures Trim(FilteredText(content)) == FilteredText(content)
  {
    TrimIdempotent(Join(Kept(Lines(content)), "\n"));
  }

  /** A text whose lines are all kept comes back unchanged, provided it has no
      `'\r'` and no white space at its ends. */
  lemma FilterKeepsCleanText(s: string)
    requires forall j :: 0 <= j < |s| ==> s[j] != '\r'
    requires s != [] ==> !IsWhitespace(s[0]) && !IsWhitespace(s[|s| - 1])
    requires forall j :: 0 <= j < |Lines(s)| ==> Classify(Lines(s)[j]) != Unwanted
    ensures FilteredText(s) == s
  {
    if s != [] {
      var ls := Lines(s);
      FirstLineNotBlank(s);
      assert Classify(ls[0]) != Blank;
      KeptAllClean(ls, Classify);
      LinesJoinRoundTrip(s);
      TrimFixed(s);
    }
  }

  /** Lines that start with a non-blank one and hold no unwanted line are
      kept as they are. */
  lemma KeptAllClean(ls: seq<string>, classify: string -> Verdict)
    requires ls != [] && classify(ls[0]) != Blank
    requires forall j :: 0 <= j < |ls| ==> classify(ls[j]) != Unwanted
    ensures KeptBy(ls, classify) == ls
  {
    var first, tail := ls[0], ls[1..];
    assert ls == [] + [first] + tail;
    forall j | 0 <= j < |tail| ensures classify(tail[j]) != Unwanted {
      assert tail[j] == ls[j + 1];
    }
    KeptShape([], first, tail, classify);
    WantedOrBlankAll(tail, classify);
  }

  /** The first line of a text that starts with a character other than white
      space is not blank. */
  lemma FirstLineNotBlank(s: string)
    requires s != [] && !IsWhitespace(s[0])
    ensures Lines(s) != [] && !AllWhitespace(Lines(s)[0])
  {
    var k := IndexOfChar(s, '\n');
    assert k > 0;
    var first := StripCr(s[..k]);
    assert first[0] == s[0];
  }

  // ---------------------------------------------------------------------------
  // The reply after the last </think>
  // ---------------------------------------------------------------------------

  const ThinkClose := "</think>"

  /** `split("</think>")` followed by `pop()`: the last piece of the split
      (a split always has one, so the fallback to the whole text never
      applies). */
  function AfterLastThink(reply: string): string {
    var parts := Split(reply, ThinkClose);
    parts[|parts| - 1]
  }

  /** The kept text holds no `</think>`: it is the whole reply when the reply
      has none, and what follows the last one otherwise. */
  lemma ThinkTail(reply: string)
    ensures !Contains(AfterLastThink(reply), ThinkClose)
    ensures !Contains(reply, ThinkClose) ==> AfterLastThink(reply) == reply
    ensures Contains(reply, ThinkClose) ==> EndsWith(reply, ThinkClose + AfterLastThink(reply))
  {
    var _ := SplitLastPiece(reply, ThinkClose);
  }

  /** Taking the tail twice changes nothing. */
  lemma ThinkTailIdempotent(reply: string)
    ensures AfterLastThink(AfterLastThink(reply)) == AfterLastThink(reply)
  {
    ThinkTail(reply);
    ThinkTail(AfterLastThink(reply));
  }

  /** The text `generate_commit_message` returns for a reply of the model. */
  function GeneratedMessage(reply: string): string {
    FilteredText(AfterLastThink(reply))
  }

  /** The filter only drops lines, so it keeps out any text the lines lack. */
  lemma {:induction false} KeptKeepsFree(ls: seq<string>, classify: string -> Verdict, p: string)
    requires NoneContains(ls, p)
    ensures NoneContains(KeptBy(ls, classify), p)
    decreases |ls|
  {
    if ls != [] {
      var init := ls[..|ls| - 1];
      assert forall k :: 0 <= k < |init| ==> init[k] == ls[k];
      KeptKeepsFree(init, classify, p);
      var before := KeptBy(init, classify);
      var last := ls[|ls| - 1];
      assert forall k :: 0 <= k < |before| ==> (before + [last])[k] == before[k];
    }
  }

  /** The generated message has no white space at its ends and holds no
      `</think>`; for a reply without the tag it is the filtered reply. */
  lemma GeneratedMessageClean(reply: string)
    ensures Trim(GeneratedMessage(reply)) == GeneratedMessage(reply)
    ensures !Contains(GeneratedMessage(reply), ThinkClose)
    ensures !Contains(reply, ThinkClose) ==> GeneratedMessage(reply) == FilteredText(reply)
  {
    var t := AfterLastThink(reply);
    ThinkTail(reply);
    FilteredIsTrimmed(t);
    LinesFree(t, ThinkClose);
    KeptKeepsFree(Lines(t), Classify, ThinkClose);
    assert forall j :: 0 <= j < |ThinkClose| ==> ThinkClose[j] !in "\n";
    JoinFree(Kept(Lines(t)), "\n", ThinkClose);
    TrimFree(Join(Kept(Lines(t)), "\n"), ThinkClose);
  }

  // ---------------------------------------------------------------------------
  // Endpoint and user prompt
  // ---------------------------------------------------------------------------

  const ChatCompletionsPath := "/v1/chat/completions"

  /** The base URL with every trailing `'/'` removed, then the chat path. */
  function Endpoint(baseUrl: string): (r: string)
    ensures EndsWith(r, ChatCompletionsPath)
    ensures var b := r[..|r| - |ChatCompletionsPath|];
      && |b| <= |baseUrl| && b == baseUrl[..|b|]
      && (forall j :: |b| <= j < |baseUrl| ==> baseUrl[j] == '/')
      && (b != [] ==> b[|b| - 1] != '/')
  {
    var b := TrimEndMatches(baseUrl, '/');
    assert (b + ChatCompletionsPath)[..|b|] == b;
    b + ChatCompletionsPath
  }

  /** A trailing slash on the base URL makes no difference. */
  lemma EndpointIgnoresTrailingSlash(baseUrl: string)
    ensures Endpoint(baseUrl + "/") == Endpoint(baseUrl)
  {
    assert (baseUrl + "/")[..|baseUrl|] == baseUrl;
  }

  const Placeholder := "{}"

  /** `user_prompt.replace("{}", diff)` */
  function UserPrompt(template: string, diff: string): string {
    ReplaceAll(template, Placeholder, diff)
  }

  /** The template is cut at its placeholders into pieces that hold none, and
      the prompt is those pieces with the diff between them. */
  lemma UserPromptShape(template: string, diff: string)
    ensures var pieces := Split(template, Placeholder);
      && Join(pieces, Placeholder) == template
      && NoneContains(pieces, Placeholder)
      && UserPrompt(template, diff) == Join(pieces, diff)
  {
    SplitJoinRoundTrip(template, Placeholder);
    SplitPiecesFree(template, Placeholder);
  }

  /** A template without a placeholder is sent as it is. */
  lemma UserPromptWithoutPlaceholder(template: string, diff: string)
    requires !Contains(template, Placeholder)
    ensures UserPrompt(template, diff) == template
  {
    FindSpec(template, Placeholder);
  }

  // ---------------------------------------------------------------------------
  // combine_commit_messages
  // ---------------------------------------------------------------------------

  const NoMessagesError := "No commit messages to combine"

  const LabelPrefix := "Message "
  const LabelSeparator := ": "

  /** `format!("Message {}: {}", i + 1, msg)` */
  function Label(n: nat, message: string): string {
    LabelPrefix + NatToDecimal(n) + LabelSeparator + message
  }

  /** The messages numbered from 1. */
  function Numbered(messages: seq<string>): (r: seq<string>)
    ensures |r| == |messages|
  {
    seq(|messages|, i requires 0 <= i < |messages| => Label(i + 1, messages[i]))
  }

  /** The numbered messages, separated by blank lines. */
  function CombinedMessages(messages: seq<string>): string {
    Join(Numbered(messages), "\n\n")
  }

  const PromptOpening := "Combine the following "
  const PromptInstructions := " " + PromptWording
  const PromptWording := "commit messages into a single, coherent commit message. Remove any redundancy and create a unified message that captures all the changes. Follow conventional commit format and best practices:\n\n"

  /** The prompt asking the model to merge the messages: the count, the
      instructions, then the numbered messages. */
  function CombinationPrompt(messages: seq<string>): (r: string)
    ensures StartsWith(r, PromptOpening)
    ensures EndsWith(r, CombinedMessages(messages))
  {
    var r := PromptOpening + NatToDecimal(|messages|) + PromptInstructions + CombinedMessages(messages);
    assert r[..|PromptOpening|] == PromptOpening;
    r
  }

  /** A count written in decimal right after an opening text, and followed
      by a non-digit, reads back as that count. */
  lemma ReadCountAfter(opening: string, n: nat, tail: string)
    requires tail != [] && !('0' <= tail[0] <= '9')
    ensures var rest := (opening + NatToDecimal(n) + tail)[|opening|..];
      DecimalValue(rest[..DigitRun(rest)]) == n
  {
    var d := NatToDecimal(n);
    var rest := (opening + d + tail)[|opening|..];
    assert rest == d + tail;
    DigitRunOf(d, tail);
    assert rest[..|d|] == d;
    DecimalRoundTrip(n);
  }

  /** The number the prompt opens with is the number of messages. */
  lemma CombinationPromptCount(messages: seq<string>)
    ensures var rest := CombinationPrompt(messages)[|PromptOpening|..];
      DecimalValue(rest[..DigitRun(rest)]) == |messages|
  {
    var tail := PromptInstructions + CombinedMessages(messages);
    assert CombinationPrompt(messages) == PromptOpening + NatToDecimal(|messages|) + tail;
    assert PromptInstructions[0] == ' ';
    assert tail[0] == PromptInstructions[0];
    ReadCountAfter(PromptOpening, |messages|, tail);
  }

  /** What the model's reply to the combination prompt is turned into: the
      tail after `</think>`, filtered, then decorated with an emote. */
  function FinishCombined(reply: string): string {
    Emotes.ProcessCommitMessage(FilteredText(AfterLastThink(reply)))
  }

  /** `combine_commit_messages`, with the model's reply as a parameter: an
      error for no messages, the one message verbatim, otherwise the
      processed reply to `CombinationPrompt(messages)`. */
  function CombineOutcome(messages: seq<string>, reply: string): (r: Result<string>)
    ensures r.Err? <==> messages == []
    ensures r.Err? ==> r.error == NoMessagesError
    ensures |messages| == 1 ==> r == Ok(messages[0])
    ensures |messages| > 1 ==> r == Ok(FinishCombined(reply))
  {
    if |messages| == 0 then Err(NoMessagesError)
    else if |messages| == 1 then Ok(messages[0])
    else Ok(FinishCombined(reply))
  }

  /** A combined message whose filtered reply is not blank (and not of kind
      Revert) starts with an emote and has no white space at its ends. */
  lemma CombinedIsMarked(messages: seq<string>, reply: string)
    requires |messages| > 1
    requires FilteredText(AfterLastThink(reply)) != []
    requires var t := FilteredText(AfterLastThink(reply));
      Emotes.Categorize(t) != Emotes.Revert || Emotes.StartsWithEmote(t)
    ensures CombineOutcome(messages, reply).Ok?
    ensures var m := CombineOutcome(messages, reply).value;
      Emotes.StartsWithEmote(m) && Trim(m) == m
  {
    var t := FilteredText(AfterLastThink(reply));
    FilteredIsTrimmed(AfterLastThink(reply));
    Emotes.ProcessedIsMarked(t);
  }

  // ---- reading a label back ---------------------------------------------------

  /** The length of the leading run of decimal digits. */
  function DigitRun(s: string): (k: nat)
    ensures k <= |s|
    ensures forall j :: 0 <= j < k ==> '0' <= s[j] <= '9'
    ensures k < |s| ==> !('0' <= s[k] <= '9')
    decreases |s|
  {
    if s == [] || !('0' <= s[0] <= '9') then 0 else 1 + DigitRun(s[1..])
  }

  /** Reads `"Message <n>: <text>"` back into `n` and the text. */
  function ParseLabel(item: string): Option<(nat, string)> {
    if StartsWith(item, LabelPrefix) then ParseNumbered(item[|LabelPrefix|..]) else None
  }

  /** Reads `"<n>: <text>"` back into `n` and the text. */
  function ParseNumbered(rest: string): Option<(nat, string)> {
    var k := DigitRun(rest);
    if k == 0 || !StartsWith(rest[k..], LabelSeparator) then None
    else Some((DecimalValue(rest[..k]), rest[k + |LabelSeparator|..]))
  }

  lemma DigitRunOf(digits: string, rest: string)
    requires forall j :: 0 <= j < |digits| ==> '0' <= digits[j] <= '9'
    requires rest != [] && !('0' <= rest[0] <= '9')
    ensures DigitRun(digits + rest) == |digits|
  {
    var s := digits + rest;
    assert s[|digits|] == rest[0];
  }

  lemma ParseLabelOf(rest: string)
    ensures ParseLabel(LabelPrefix + rest) == ParseNumbered(rest)
  {
    assert (LabelPrefix + rest)[..|LabelPrefix|] == LabelPrefix;
    assert (LabelPrefix + rest)[|LabelPrefix|..] == rest;
  }

  lemma ParseNumberedOf(d: string, message: string)
    requires d != [] && forall j :: 0 <= j < |d| ==> '0' <= d[j] <= '9'
    ensures ParseNumbered(d + (LabelSeparator + message)) == Some((DecimalValue(d), message))
  {
    var sep := LabelSeparator + message;
    var rest := d + sep;
    assert sep[0] == ':';
    DigitRunOf(d, sep);
    var k := DigitRun(rest);
    assert rest[..k] == d;
    assert rest[k..] == sep;
    assert StartsWith(sep, LabelSeparator);
    assert rest[k + |LabelSeparator|..] == message;
  }

  /** A label gives back its number and its message. */
  lemma LabelRoundTrip(n: nat, message: string)
    ensures ParseLabel(Label(n, message)) == Some((n, message))
  {
    var d := NatToDecimal(n);
    assert Label(n, message) == LabelPrefix + (d + (LabelSeparator + message));
    ParseLabelOf(d + (LabelSeparator + message));
    ParseNumberedOf(d, message);
    DecimalRoundTrip(n);
  }

  /** The `i`-th entry of the combination prompt reads back as number `i + 1`
      and the `i`-th message: the numbering is 1-based and in order. */
  lemma NumberedRoundTrip(messages: seq<string>)
    ensures forall i :: 0 <= i < |messages| ==>
      ParseLabel(Numbered(messages)[i]) == Some((i + 1, messages[i]))
  {
    forall i | 0 <= i < |messages|
      ensures ParseLabel(Numbered(messages)[i]) == Some((i + 1, messages[i]))
    {
      LabelRoundTrip(i + 1, messages[i]);
    }
  }
}
