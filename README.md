# git-narrator core, modelled in Dafny

git-narrator writes commit messages for staged changes. It asks an
OpenAI-compatible chat-completion service for the message, then puts an emote
in front of it. This project models the three parts that do not touch the
outside world:

- **The diff splitter** (`git.dfy`, module `Git`). A staged diff longer than
  8000 bytes is cut into chunks. Up to 4 strategies are tried in order: per
  file (`diff --git` headers), per hunk (`@@` headers), then fixed windows of
  4000 and of 2000 characters. The first strategy whose chunks all fit under
  the threshold wins.
- **The categorizer** (`emotes.dfy`, module `Emotes`). It has 21 commit kinds,
  each with an emote and a label. The kind comes from a first-match-wins
  chain:
  1. the conventional-commit prefix of the first line;
  2. otherwise the longest matching keyword;
  3. otherwise context clues such as file names.
  Decoration puts the kind's emote in front of the trimmed message, unless the
  message already starts with an emote.
- **The string handling around the chat calls** (`llm.dfy`, module `Llm`):
  - the filter that drops lines of meta-commentary;
  - the text after the last `</think>`;
  - the endpoint URL and the user prompt;
  - the early returns and numbered prompt of combining several messages;
  - the final decoration of a combined message.

`text.dfy` (module `Text`) writes out the parts of Rust's `str` API that this
code relies on (`lines`, `trim`, `to_lowercase`, `find`, `split`/`join`,
`replace`, `trim_end_matches`, `split_whitespace`, decimal formatting), with
their own lemmas. `wrappers.dfy` holds the `Option` and `Result` types.

Each loop of the source is a Dafny `method`, proved equal to a recursive
specification function: `SplitByFiles`, `SplitByHunks`,
`SplitByCharacterChunks`, `SplitLargeDiff`, `ParseConventionalCommit`,
`AnalyzeKeywords` and `FilterUnwantedLines`. The lemmas state the behaviour of
those functions.

The code differs from a plain reading of its own comments in three places;
the model follows the code:

- **The hunk header is never reset.** `split_by_hunks` appends every header
  line it meets to one header string. So the second file's hunk also carries
  the first file's header lines, and so does any later chunk. Worse, a hunk is
  only emitted when the next `@@` line arrives, so the first file's last hunk
  also carries the header lines of the file after it. With two files of one
  hunk each, both chunks start with both files' headers
  (`Git.HunkHeadersAccumulate`).
- **Decoration is not idempotent for Revert.** The emote of `Revert` is
  U+23EA. It lies outside the ranges `starts_with_emote` recognises, so a
  revert message is decorated again on every pass
  (`Emotes.EmoteRecognised`, `Emotes.RevertRedecorates`).
- **Decoration is not idempotent for a blank message.** It becomes the bare
  emote (`Emotes.RedecorationIdempotentIff`).

## Model

| member | source | states |
|---|---|---|
| Emotes.Emote | src/emotes.rs:34-60 | every kind's emote is non-empty and has no surrounding whitespace |
| Emotes.EmoteInjective | src/emotes.rs:34-60 | no two kinds share an emote |
| Emotes.Description | src/emotes.rs:62-87 | every kind has a non-empty label |
| Emotes.DescriptionInjective | src/emotes.rs:62-87 | no two kinds share a label |
| Emotes.FirstConventionalIsFirstMatch | src/emotes.rs:156-164 | the conventional stage returns the kind of the first table entry whose `type:` prefix or `type(`…`):` form matches; it returns none exactly when no entry matches |
| Emotes.ParseConventionalCommit | src/emotes.rs:115-165 | the loop over the conventional table returns what the first-match specification returns |
| Emotes.InsertByLength | src/emotes.rs:184 | one insertion step keeps every hit and adds exactly the inserted one (multiset) |
| Emotes.InsertKeepsSorted | src/emotes.rs:184 | insertion keeps the hits ordered with the longest keyword first |
| Emotes.SortByLengthDescSorts | src/emotes.rs:184 | the sort is a permutation of the hits, ordered with the longest keyword first |
| Emotes.SortHeadIsFirstLongest | src/emotes.rs:183-185 | like the stable `sort_by`, the head of the sort is the earliest hit of maximal keyword length |
| Emotes.CategoryHitsExact | src/emotes.rs:175-179 | a category's hits are exactly its keywords contained in the message, each with its length |
| Emotes.KeywordHitsExact | src/emotes.rs:174-180 | the hits of the whole table are exactly the (category, keyword length) pairs of contained keywords |
| Emotes.AnalyzeKeywords | src/emotes.rs:168-189 | the nested loops, sort and head return what the keyword-stage specification returns, for a table in any order |
| Emotes.KeywordStageLongest | src/emotes.rs:168-189 | the keyword stage gives none exactly when no keyword is contained; otherwise its kind owns a contained keyword at least as long as every contained keyword |
| Emotes.FirstClueGroupIsFirstHit | src/emotes.rs:290-317 | the context stage returns the kind of the first clue group with a contained clue; none exactly when no clue is contained |
| Emotes.CategorizeIgnoresCase | src/emotes.rs:91-93 | the kind of a message equals the kind of its lowercased form |
| Emotes.CategorizeResolution | src/emotes.rs:91-112 | the first matching conventional entry decides; failing that, a longest contained keyword from the declared keyword table; failing that, the context clues, else Unknown |
| Emotes.TablesExcludeUnknown | src/emotes.rs:117-154 | no conventional entry, keyword group or clue group yields Unknown |
| Emotes.CategorizeUnknownIff | src/emotes.rs:91-112 | a message is Unknown exactly when all three stages find nothing |
| Emotes.Categorize | src/emotes.rs:91-112 | the three stages in order, on the lowercased first line and the lowercased message, then Unknown; its behaviour is stated by `CategorizeResolution`, `CategorizeUnknownIff` and `CategorizeIgnoresCase` |
| Emotes.AnalyzeContext | src/emotes.rs:290-317 | the five clue groups in the source's order; its behaviour is stated by `FirstClueGroupIsFirstHit` |
| Emotes.StartsWithEmote | src/emotes.rs:334-350 | false for the empty text, otherwise whether the first character lies in one of the four ranges; `EmoteRecognised` states which emotes it accepts |
| Emotes.EmoteRecognised | src/emotes.rs:334-350 | the emote of a kind is recognised as an emote exactly when the kind is not Revert |
| Emotes.AddEmote | src/emotes.rs:320-331 | the result is the trimmed message exactly when that already starts with an emote; otherwise it is exactly the kind's emote, a space and the trimmed message |
| Emotes.TrimDecorated | src/emotes.rs:330 | emote, space and a trimmed message form a trimmed string |
| Emotes.AddEmoteMarked | src/emotes.rs:325-327 | a message that already starts with an emote comes back trimmed and unchanged |
| Emotes.RedecorationIdempotentIff | src/emotes.rs:320-350 | decorating twice equals decorating once exactly when the message already starts with an emote, or is non-blank and the kind is not Revert |
| Emotes.RevertRedecorates | src/emotes.rs:320-350 | a non-blank, undecorated revert message gains a second revert emote on a second pass |
| Emotes.ProcessCommitMessage | src/emotes.rs:353-356 | the result is the trimmed message when that already starts with an emote; otherwise it is exactly the emote of the message's kind, a space and the trimmed message |
| Emotes.ProcessedIsMarked | src/emotes.rs:353-356 | a non-blank message, not a revert unless already marked, comes out trimmed and starting with an emote |
| Emotes.DecoratedIsMarked | src/emotes.rs:330 | a recognised emote, a space and a trimmed non-empty message form a trimmed string that starts with an emote |
| Emotes.ProcessIdempotent | src/emotes.rs:353-356 | for such a message, processing twice equals processing once |
| Git.NeedsSplitting | src/git.rs:49-52 | a diff is split when it is longer than the threshold; `NeedsSplittingBoundary` states the boundary |
| Git.NeedsSplittingBoundary | src/git.rs:49-52 | 8000 bytes is not split, 8001 is; the 1000- and 10000-byte cases of the source's tests |
| Git.LastStartingWithSpec | src/git.rs:99-113 | the last line with the header prefix is found, and no later line has it |
| Git.CountAtLast | src/git.rs:162 | the count of header lines is the count before the last one plus one |
| Git.CharWindowsConcat | src/git.rs:196-207 | the windows, concatenated, give back the diff from the start offset |
| Git.CharWindowsSizes | src/git.rs:196-207 | every window is non-empty and at most the window size; all but the last are exactly that size |
| Git.CharWindowsCount | src/git.rs:196-207 | the number of windows m satisfies (m-1)·size < length <= m·size |
| Git.SplitByCharacterChunks | src/git.rs:191-214 | the window loop returns what the window specification returns |
| Git.CharSplitThousandBy300 | src/git.rs:371-385 | the source's test: 1000 characters in windows of 300 give 4 chunks |
| Git.CharSplitProperties | src/git.rs:191-214 | the character split reassembles the diff, has the minimal number of windows, keeps every window within size and records the diff length |
| Git.FirstPathLike | src/git.rs:226-228 | the fallback picks a word containing '/' or '.'; it finds none only when no word has either |
| Git.FirstPathLikeIsFirst | src/git.rs:226-228 | like `Iterator::find`, the word picked is the first word holding '/' or '.' |
| Git.ExtractFileName | src/git.rs:217-230 | the path between "a/" and " b/", else the fallback; stated by `ExtractFileNameRoundTrip`, `ExtractBetween` and `ExtractFileNameFallback` |
| Git.SeparatorAfterPrefix | src/git.rs:219-221 | a " b/" found after "a/" starts at least two characters in, so the path slice is well formed |
| Git.FindAfterPrefix | src/git.rs:219 | `find` of a pattern whose first character is absent from a prefix lands right after it |
| Git.HeaderFinds | src/git.rs:219-220 | in a standard header, "a/" is at offset 11 and " b/" follows the path |
| Git.ExtractBetween | src/git.rs:219-222 | when both markers are found, the name is the text between "a/" and " b/" |
| Git.ExtractFileNameRoundTrip | src/git.rs:217-230 | the name extracted from `diff --git a/P b/P` is P, for any space-free path P |
| Git.ExtractFileNameFallback | src/git.rs:218-229 | when there is no "a/", or no " b/" after the first "a/", the name is the first word of the line holding '/' or '.', or `unknown_file` when no word does |
| Git.FileChunksAt | src/git.rs:99-127 | the per-file chunks of a prefix of the lines are those before its last header plus the trimmed last file |
| Git.SplitByFiles | src/git.rs:93-138 | the line loop returns what the per-file specification returns |
| Git.FileChunksCount | src/git.rs:99-127 | one chunk per `diff --git` line |
| Git.FileChunksStartWithHeader | src/git.rs:99-127 | every per-file chunk starts with `diff --git` |
| Git.TrimKeepsHeader | src/git.rs:104 | trimming a chunk that starts with a header line keeps the header at its front |
| Git.FileSplitErrIff | src/git.rs:129-131 | splitting by files fails exactly when no line starts with `diff --git` |
| Git.HunkLineIsBody | src/git.rs:148-152 | an `@@` line is never taken for a header line |
| Git.BodyLinesHas | src/git.rs:165-168 | a line that is not a header line ends up in the body |
| Git.HunkChunksAt | src/git.rs:147-177 | the per-hunk chunks of a prefix are those before its last `@@` plus the open hunk, with every header line so far |
| Git.HunkPush | src/git.rs:153-160 | the open hunk is emitted, with all header lines so far and its trimmed body, exactly when its body is non-empty |
| Git.SplitByHunks | src/git.rs:141-188 | the line loop returns what the per-hunk specification returns |
| Git.BodyLinesEmptyIff | src/git.rs:147-169 | the body is empty exactly when every line is a header line |
| Git.HunkChunksEmptyIff | src/git.rs:172-181 | no hunk is produced exactly when every line is a header line |
| Git.HunkChunksCount | src/git.rs:152-177 | the number of chunks is the number of `@@` lines, plus one (the chunk labelled `Hunk 0`) exactly when some line before the first `@@` line is not a header line |
| Git.HunkScanTwoFiles | src/git.rs:147-169 | on two files with one hunk each, the loop state holds both files' headers after the second hunk opens |
| Git.HunkHeadersAccumulate | src/git.rs:150-176 | with two files of one hunk each, both chunks carry both files' header lines: the second file's hunk carries the first file's header, and the first file's hunk, emitted only when the second `@@` arrives, carries the second file's header |
| Git.HunkSplitErrIff | src/git.rs:179-181 | splitting by hunks fails exactly when every line is a header line |
| Git.SplitLargeDiff | src/git.rs:55-90 | the attempt loop returns what the strategy-chain specification returns |
| Git.ThirdAttemptFits | src/git.rs:72-83 | the chain always stops at the 4000-character windows, so the 2000-character attempt is never reached |
| Git.SplitOutcomeProperties | src/git.rs:55-90 | splitting never fails; every chunk fits the threshold; the size is recorded; "none" exactly when the diff is small enough; character windows reassemble the diff; the method is one of four |
| Llm.Normalized | src/llm.rs:80-83 | the trimmed lowercase line is empty exactly when the line is all whitespace |
| Llm.AnyPatternFromIff | src/llm.rs:91-98 | the pattern scan matches exactly when some pattern opens the line, bare or after "- ", "* " or "• " |
| Llm.MentionsIff | src/llm.rs:101-103 | the substring search finds a word exactly when the line contains it |
| Llm.Classify | src/llm.rs:80-107 | a line is classed blank exactly when it is all whitespace |
| Llm.FilterUnwantedLines | src/llm.rs:31-112 | the line loop returns what the filter specification returns |
| Llm.WantedOrBlank | src/llm.rs:79-108 | after the first kept line, the filter never adds lines |
| Llm.NoneWantedSnoc | src/llm.rs:79-108 | a prefix has no wanted line exactly when its front has none and its last line is not wanted |
| Llm.KeptEmptyIff | src/llm.rs:82-88 | nothing is kept exactly when no line is wanted; leading blank lines are not kept |
| Llm.KeptSubsequence | src/llm.rs:79-108 | the kept lines are a subsequence of the input lines |
| Llm.KeptAfterStart | src/llm.rs:82-107 | once a line has been kept, later blank lines are kept and later commentary lines dropped |
| Llm.KeptIgnoresPreamble | src/llm.rs:82-88 | a preamble with no wanted line does not affect what is kept |
| Llm.KeptShape | src/llm.rs:82-107 | the kept lines are the first wanted line followed by the non-commentary lines after it |
| Llm.WantedOrBlankAll | src/llm.rs:105-107 | without commentary lines, every line after the first kept one is kept |
| Llm.FilteredIsTrimmed | src/llm.rs:111 | the filter output has no surrounding whitespace |
| Llm.KeptAllClean | src/llm.rs:79-108 | lines that start with a non-blank line and hold no unwanted line are all kept |
| Llm.FilterKeepsCleanText | src/llm.rs:395-439 | a trimmed text without commentary lines passes through the filter unchanged, as most of the source's filter tests expect |
| Llm.FirstLineNotBlank | src/llm.rs:76-88 | a text starting with a non-blank character has a non-blank first line |
| Llm.ThinkTail | src/llm.rs:178-183 | the text after the last `</think>` contains no `</think>`; it is the whole reply when there is no tag; otherwise the reply ends with the tag followed by it |
| Llm.AfterLastThink | src/llm.rs:178-183 | the last piece of splitting the reply at `</think>`; stated by `ThinkTail` |
| Llm.ThinkTailIdempotent | src/llm.rs:178-183 | taking the text after the last tag twice equals taking it once |
| Llm.GeneratedMessage | src/llm.rs:170-188 | what `generate_commit_message` returns for the reply: the filtered text after the last `</think>`; stated by `GeneratedMessageClean` |
| Llm.KeptKeepsFree | src/llm.rs:79-108 | the filter only drops lines, so kept lines hold no text that no input line holds |
| Llm.GeneratedMessageClean | src/llm.rs:177-188 | the generated message has no surrounding whitespace and holds no `</think>`; for a reply without the tag it is the filtered reply |
| Llm.Endpoint | src/llm.rs:141 | the URL ends with `/v1/chat/completions`; what precedes is the base URL with exactly its trailing slashes removed |
| Llm.EndpointIgnoresTrailingSlash | src/llm.rs:141 | a trailing slash on the base URL does not change the endpoint |
| Llm.UserPrompt | src/llm.rs:135 | `replace("{}", diff)` on the template; stated by `UserPromptShape` |
| Llm.UserPromptShape | src/llm.rs:135 | the template is cut at each `{}` into pieces with no `{}`; joining them restores the template, and joining them with the diff gives the prompt |
| Llm.UserPromptWithoutPlaceholder | src/llm.rs:135 | a template without `{}` is sent unchanged |
| Llm.Numbered | src/llm.rs:210-213 | one labelled item per message |
| Llm.CombinedMessages | src/llm.rs:210-214 | the numbered messages joined with blank lines; `NumberedRoundTrip` states that each item reads back |
| Llm.CombinationPrompt | src/llm.rs:216-222 | the prompt starts with "Combine the following " and ends with the numbered messages |
| Llm.ReadCountAfter | src/llm.rs:217-220 | a count written in decimal after an opening text and followed by a non-digit reads back as that count |
| Llm.CombinationPromptCount | src/llm.rs:216-222 | the number the prompt opens with is the number of messages |
| Llm.FinishCombined | src/llm.rs:271-284 | the think tail of the reply, filtered, then processed for an emote; stated by `CombinedIsMarked` |
| Llm.CombineOutcome | src/llm.rs:192-285 | no messages gives the error "No commit messages to combine"; one message comes back unchanged; more go through the think tail, the filter and decoration of the reply |
| Llm.CombinedIsMarked | src/llm.rs:271-284 | when the filtered reply is non-blank and not a revert, the combined message is trimmed and starts with an emote |
| Llm.DigitRun | src/llm.rs:212 | the leading run of ASCII digits of a string is found |
| Llm.DigitRunOf | src/llm.rs:212 | the digit run of digits followed by a non-digit is the digits |
| Llm.ParseLabelOf | src/llm.rs:212 | reading an item that starts with `Message ` reads the remainder |
| Llm.ParseNumberedOf | src/llm.rs:212 | a digit string, ": " and a message read back as that number and message |
| Llm.LabelRoundTrip | src/llm.rs:212 | `Message n: m` reads back as (n, m) |
| Llm.NumberedRoundTrip | src/llm.rs:210-214 | item i of the combined list reads back as (i + 1, message i) |
| Text.SkipWhitespaceSpec | src/llm.rs:80 | the forward scan of `trim` stops at the first non-whitespace character |
| Text.BackWhitespaceSpec | src/llm.rs:111 | the backward scan of `trim` stops after the last non-whitespace character |
| Text.TrimShape | src/llm.rs:111 | `trim` removes exactly the leading and trailing whitespace |
| Text.TrimIdempotent | src/llm.rs:111 | trimming twice equals trimming once |
| Text.TrimFixed | src/llm.rs:111 | a string without surrounding whitespace is its own trim |
| Text.TrimEmptyIff | src/llm.rs:83 | a trimmed string is empty exactly when the string is all whitespace |
| Text.ContainsSlice | src/llm.rs:178-186 | a text holding no occurrence of a pattern holds none in any slice |
| Text.LinesFree | src/llm.rs:76 | no line of a text holding no occurrence of a pattern holds one |
| Text.ConcatFree | src/llm.rs:111 | a pattern sharing no character with the separator cannot straddle it |
| Text.JoinFree | src/llm.rs:111 | joining pieces that hold no occurrence of such a pattern creates none |
| Text.TrimFree | src/llm.rs:111 | trimming creates no occurrence |
| Text.TrimKeepsPrefix | src/git.rs:104 | trimming a text whose first and k-th characters are not whitespace keeps its first k + 1 characters |
| Text.ToLowerIdempotent | src/emotes.rs:92-93 | lowercasing twice equals lowercasing once |
| Text.FirstLineToLower | src/emotes.rs:93 | the first line of the lowercased message is the lowercased first line |
| Text.FirstLineOf | src/emotes.rs:93 | the first line is the text up to the first newline, without a trailing carriage return |
| Text.LinesJoinRoundTrip | src/llm.rs:76-111 | the lines of a text without '\r' and without a trailing newline, joined with '\n', give back the text |
| Text.FindSpec | src/git.rs:219-220 | `find` returns the first occurrence, and none exactly when there is no occurrence |
| Text.FindFirst | src/git.rs:219-220 | an occurrence with none before it is the one `find` returns |
| Text.SplitJoinRoundTrip | src/llm.rs:178 | joining the pieces of `split` with the separator gives back the string |
| Text.SplitLastPiece | src/llm.rs:178-179 | the last piece of `split` contains no separator; it is the whole string when there is no separator, and otherwise the string ends with a separator followed by it |
| Text.SplitPiecesFree | src/llm.rs:135 | no piece of `split` contains the separator |
| Text.SplitWhitespaceWords | src/git.rs:226 | `split_whitespace` yields non-empty words without whitespace |
| Text.TrimEndMatches | src/llm.rs:141 | `trim_end_matches` leaves a prefix followed only by that character, and the prefix does not end with it |
| Text.NatToDecimal | src/llm.rs:212 | decimal formatting gives a non-empty string of digits |
| Text.DecimalRoundTrip | src/llm.rs:212 | reading a formatted number back gives the number |

## Left out

- `get_diff` and `push_changes` (src/git.rs:25-47, 232-251) run `git` as a child process. They are process I/O, not modelled.
- The HTTP exchange, JSON encoding and async runtime of `generate_commit_message` and `combine_commit_messages` are not modelled. The reply text is a parameter, and the failure paths of the request are not modelled: non-success status, unparsable JSON, no choice.
- `CombinationPrompt` models the prompt text the combining request sends. Its lemmas cover the count it opens with and the message list it ends with. The fixed wording in between has no property to state.
- `main.rs`, the command-line parsing and the configuration are not part of this model.
- Text.ToLower: lowercases ASCII letters only, because Rust's full Unicode case mapping is out of reach here. `CategorizeIgnoresCase` and the filter's case folding hold for that mapping.
- Git: a diff is a string of one character per byte, so `len()` is the sequence length. Slicing a multi-byte character in two panics in Rust; that panic is not modelled.
- Git.SplitByCharacterChunks: requires a window size above 0. The source is only called with 4000 and 2000; with 0 it would loop forever.
- Emotes.AnalyzeKeywords: iterates a `HashMap`, whose order Rust leaves unspecified. The method therefore takes the keyword table as a parameter and is proved for every order. `Categorize` passes the table in declaration order, so that order decides ties between keywords of equal length; `CategorizeResolution` states the result for that order.
- Git.SplitLargeDiff: the `_ => break` arm of the attempt loop cannot be reached and is not modelled.
- Llm.AfterLastThink: the `None` fallback of `pop()` cannot be reached, because `split` always yields at least one piece.
- Llm.FilterKeepsCleanText: requires a text without '\r' and without a trailing newline, because `lines()` discards both.
- Coloured console output and logging are not modelled, because they do not affect any result.
