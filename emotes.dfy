/** The commit-message categorizer: a fixed taxonomy of commit kinds, each
    with a marker and a label; a first-match-wins chain of heuristics that
    picks one kind for a free-form message; and the decoration that puts the
    kind's marker in front of the message. */
module Emotes {
  import opened Wrappers
  import opened Text

  // ---------------------------------------------------------------------------
  // The taxonomy
  // ---------------------------------------------------------------------------

  datatype Category =
    | Fix | Feat | Chore | Docs | Style | Refactor | Test | Perf | Build | Ci | Deploy
    | Security | Deps | Revert | Config | Init | Wip | Hotfix | Release | Merge | Unknown

  /** The marker of each kind. */
  function Emote(c: Category): (e: string)
    ensures e != [] && !IsWhitespace(e[0]) && !IsWhitespace(e[|e| - 1])
  {
    match c
    case Fix => "🐛"
    case Feat => "✨"
    case Chore => "🧹"
    case Docs => "📚"
    case Style => "💄"
    case Refactor => "♻️"
    case Test => "🧪"
    case Perf => "⚡"
    case Build => "🔧"
    case Ci => "👷"
    case Deploy => "🚀"
    case Security => "🔒"
    case Deps => "📦"
    case Revert => "⏪"
    case Config => "⚙️"
    case Init => "🎉"
    case Wip => "🚧"
    case Hotfix => "🚨"
    case Release => "🏷️"
    case Merge => "🔀"
    case Unknown => "❓"
  }

  /** The human-readable label of each kind. */
  function Description(c: Category): (d: string)
    ensures d != []
  {
    match c
    case Fix => "Bug fixes"
    case Feat => "New features"
    case Chore => "Maintenance tasks"
    case Docs => "Documentation"
    case Style => "Formatting/styling"
    case Refactor => "Code restructuring"
    case Test => "Testing"
    case Perf => "Performance improvements"
    case Build => "Build system"
    case Ci => "Continuous integration"
    case Deploy => "Deployment"
    case Security => "Security fixes"
    case Deps => "Dependency updates"
    case Revert => "Reverting changes"
    case Config => "Configuration changes"
    case Init => "Initial commit"
    case Wip => "Work in progress"
    case Hotfix => "Critical hotfix"
    case Release => "Release/version tags"
    case Merge => "Merge commits"
    case Unknown => "Uncategorized"
  }

  /** No two kinds share a marker, so a marker names its kind. */
  lemma EmoteInjective(a: Category, b: Category)
    requires Emote(a) == Emote(b)
    ensures a == b
  {
    assert Emote(a)[0] == Emote(b)[0];
  }

  /** No two kinds share a label. */
  lemma DescriptionInjective(a: Category, b: Category)
    requires Description(a) == Description(b)
    ensures a == b
  {
    assert Description(a)[..2] == Description(b)[..2];
  }

  // ---------------------------------------------------------------------------
  // Stage 1: conventional prefix on the first line
  // ---------------------------------------------------------------------------

  /** The prefix keywords, in the order they are tried. */
  const ConventionalPatterns: seq<(string, Category)> := [
    ("feat", Feat), ("feature", Feat),
    ("fix", Fix), ("bugfix", Fix), ("bug", Fix),
    ("docs", Docs), ("doc", Docs), ("documentation", Docs),
    ("style", Style),
    ("refactor", Refactor), ("refact", Refactor),
    ("test", Test), ("tests", Test), ("testing", Test),
    ("perf", Perf), ("performance", Perf),
    ("build", Build),
    ("ci", Ci),
    ("chore", Chore),
    ("revert", Revert),
    ("deploy", Deploy), ("deployment", Deploy),
    ("security", Security), ("sec", Security),
    ("deps", Deps), ("dependencies", Deps), ("dependency", Deps),
    ("config", Config), ("configuration", Config),
    ("init", Init), ("initial", Init),
    ("wip", Wip),
    ("hotfix", Hotfix),
    ("release", Release), ("version", Release),
    ("merge", Merge)
  ]

  /** A line is in conventional form for `keyword` when it starts with
      `keyword:`, or holds `keyword(` and also `):` somewhere. */
  predicate ConventionalMatch(line: string, keyword: string) {
    StartsWith(line, keyword + ":") || (Contains(line, keyword + "(") && Contains(line, "):"))
  }

  /** The kind of the first entry of `table` whose keyword the line matches. */
  function FirstConventional(line: string, table: seq<(string, Category)>): Option<Category>
    decreases |table|
  {
    if table == [] then None
    else if ConventionalMatch(line, table[0].0) then Some(table[0].1)
    else FirstConventional(line, table[1..])
  }

  /** `FirstConventional` is first-match-wins: it fails exactly when no entry
      matches, and otherwise answers the kind of an entry that matches and
      before which no entry matches. */
  lemma {:induction false} FirstConventionalIsFirstMatch(line: string, table: seq<(string, Category)>)
    ensures FirstConventional(line, table).None? <==>
      forall i :: 0 <= i < |table| ==> !ConventionalMatch(line, table[i].0)
    ensures FirstConventional(line, table).Some? ==>
      exists i :: 0 <= i < |table| && ConventionalMatch(line, table[i].0)
        && table[i].1 == FirstConventional(line, table).value
        && forall j :: 0 <= j < i ==> !ConventionalMatch(line, table[j].0)
    decreases |table|
  {
    if table != [] && !ConventionalMatch(line, table[0].0) {
      FirstConventionalIsFirstMatch(line, table[1..]);
      assert forall i :: 1 <= i < |table| ==> table[i] == table[1..][i - 1];
      if FirstConventional(line, table).Some? {
        var i :| 0 <= i < |table[1..]| && ConventionalMatch(line, table[1..][i].0)
          && table[1..][i].1 == FirstConventional(line, table).value
          && forall j :: 0 <= j < i ==> !ConventionalMatch(line, table[1..][j].0);
        assert table[i + 1] == table[1..][i];
      }
    }
  }

  /** `parse_conventional_commit`: tries the prefix keywords in order and
      stops at the first one the (already lower-cased) first line matches. */
  method ParseConventionalCommit(firstLine: string) returns (r: Option<Category>)
    ensures r == FirstConventional(firstLine, ConventionalPatterns)
  {
    var i := 0;
    while i < |ConventionalPatterns|
      invariant 0 <= i <= |ConventionalPatterns|
      invariant FirstConventional(firstLine, ConventionalPatterns[i..])
             == FirstConventional(firstLine, ConventionalPatterns)
    {
      var (pattern, category) := ConventionalPatterns[i];
      assert ConventionalPatterns[i..][1..] == ConventionalPatterns[i + 1..];
      if ConventionalMatch(firstLine, pattern) {
        return Some(category);
      }
      i := i + 1;
    }
    return None;
  }

  // ---------------------------------------------------------------------------
  // Stage 2: longest keyword anywhere in the message
  // ---------------------------------------------------------------------------

  /** The keyword table, one entry per kind, in the order its entries are
      inserted into the map. */
  const KeywordPatterns: seq<(Category, seq<string>)> := [
    (Fix, ["fix", "bug", "error", "issue", "problem", "resolve", "correct",
           "patch", "repair", "debug", "crash", "exception", "broken",
           "regression", "hotfix", "critical", "urgent"]),
    (Feat, ["add", "new", "feature", "implement", "create", "introduce",
            "support", "enable", "allow", "enhance", "extend", "expand"]),
    (Docs, ["update readme", "readme", "documentation", "docs", "comment", "comments",
            "guide", "tutorial", "example", "examples", "changelog",
            "license", "contributing", "api doc", "docstring"]),
    (Style, ["format", "formatting", "style", "styling", "indent", "whitespace",
             "lint", "linting", "prettier", "eslint", "code style", "cleanup",
             "cosmetic", "appearance"]),
    (Refactor, ["refactor", "restructure", "reorganize", "simplify", "clean up",
                "extract", "rename", "move", "split", "combine", "optimize structure"]),
    (Test, ["test", "tests", "testing", "spec", "specs", "unit test",
            "integration test", "e2e", "coverage", "mock", "fixture"]),
    (Perf, ["performance", "optimize", "speed", "faster", "efficiency",
            "cache", "caching", "memory", "cpu", "benchmark", "profiling"]),
    (Build, ["build", "compile", "webpack", "rollup", "babel", "typescript",
             "makefile", "cmake", "gradle", "maven", "npm script", "yarn"]),
    (Ci, ["ci", "continuous integration", "github actions", "travis",
          "jenkins", "pipeline", "workflow", "automation", "deploy script"]),
    (Chore, ["chore", "maintenance", "upgrade", "bump", "cleanup",
             "housekeeping", "misc", "miscellaneous", "routine"]),
    (Security, ["security vulnerability", "security fix", "security", "vulnerability",
                "exploit", "xss", "csrf", "injection",
                "authorization", "permission", "sanitize", "escape"]),
    (Deps, ["package dependencies", "update dependencies", "dependency", "dependencies",
            "package", "packages", "npm", "yarn", "pip", "cargo", "gem", "composer",
            "requirements", "lock file", "bump version", "upgrade packages"]),
    (Config, ["config", "configuration", "settings", "environment", "env",
              "dotenv", "properties", "yaml", "json", "toml", "ini"]),
    (Deploy, ["deploy", "deployment", "release", "publish", "production",
              "staging", "docker", "kubernetes", "helm", "terraform"]),
    (Init, ["initial commit", "first commit", "initialize", "setup", "scaffold",
            "bootstrap", "project setup", "initial"]),
    (Wip, ["wip", "work in progress", "todo", "fixme", "temporary", "draft"]),
    (Merge, ["merge", "pull request", "pr", "branch", "conflict resolution"]),
    (Revert, ["revert", "rollback", "undo", "back out", "reverse"])
  ]

  /** The `(kind, keyword length)` pairs pushed for the keywords of one kind
      that occur in the message, in keyword order. */
  function CategoryHits(message: string, category: Category, keywords: seq<string>): seq<(Category, nat)>
    decreases |keywords|
  {
    if keywords == [] then []
    else
      var kw := keywords[|keywords| - 1];
      CategoryHits(message, category, keywords[..|keywords| - 1])
        + (if Contains(message, kw) then [(category, |kw|)] else [])
  }

  /** All pushed pairs, walking the table in order. */
  function KeywordHits(message: string, table: seq<(Category, seq<string>)>): seq<(Category, nat)>
    decreases |table|
  {
    if table == [] then []
    else
      var last := table[|table| - 1];
      KeywordHits(message, table[..|table| - 1]) + CategoryHits(message, last.0, last.1)
  }

  predicate SortedByLengthDesc(s: seq<(Category, nat)>) {
    forall i, j :: 0 <= i < j < |s| ==> s[i].1 >= s[j].1
  }

  /** Puts a pair in front of the first pair that is not longer. */
  function InsertByLength(h: (Category, nat), sorted: seq<(Category, nat)>): (r: seq<(Category, nat)>)
    ensures multiset(r) == multiset(sorted) + multiset{h}
    ensures |r| == |sorted| + 1
    decreases |sorted|
  {
    if sorted == [] || sorted[0].1 <= h.1 then [h] + sorted
    else
      assert sorted == [sorted[0]] + sorted[1..];
      [sorted[0]] + InsertByLength(h, sorted[1..])
  }

  /** Inserting keeps every length under a common bound. */
  lemma {:induction false} InsertBounded(h: (Category, nat), sorted: seq<(Category, nat)>, bound: nat)
    requires h.1 <= bound
    requires forall k :: 0 <= k < |sorted| ==> sorted[k].1 <= bound
    ensures forall k :: 0 <= k < |InsertByLength(h, sorted)| ==> InsertByLength(h, sorted)[k].1 <= bound
    decreases |sorted|
  {
    if sorted != [] && sorted[0].1 > h.1 {
      InsertBounded(h, sorted[1..], bound);
      var rest := InsertByLength(h, sorted[1..]);
      assert InsertByLength(h, sorted) == [sorted[0]] + rest;
    }
  }

  lemma {:induction false} InsertKeepsSorted(h: (Category, nat), sorted: seq<(Category, nat)>)
    requires SortedByLengthDesc(sorted)
    ensures SortedByLengthDesc(InsertByLength(h, sorted))
    decreases |sorted|
  {
    if sorted == [] {
    } else if sorted[0].1 <= h.1 {
      var r := [h] + sorted;
      forall i, j | 0 <= i < j < |r| ensures r[i].1 >= r[j].1 {
        assert r[j] == sorted[j - 1];
        if i > 0 {
          assert r[i] == sorted[i - 1];
        }
      }
    } else {
      var tail := sorted[1..];
      var rest := InsertByLength(h, tail);
      InsertKeepsSorted(h, tail);
      assert forall k :: 0 <= k < |tail| ==> tail[k] == sorted[k + 1];
      InsertBounded(h, tail, sorted[0].1);
      var r := [sorted[0]] + rest;
      assert InsertByLength(h, sorted) == r;
      forall i, j | 0 <= i < j < |r| ensures r[i].1 >= r[j].1 {
        assert r[j] == rest[j - 1];
        if i > 0 {
          assert r[i] == rest[i - 1];
        }
      }
    }
  }

  /** `matches.sort_by(|a, b| b.1.cmp(&a.1))`: a stable sort, longest first. */
  function SortByLengthDesc(hits: seq<(Category, nat)>): (r: seq<(Category, nat)>)
    ensures |r| == |hits|
    decreases |hits|
  {
    if hits == [] then []
    else InsertByLength(hits[0], SortByLengthDesc(hits[1..]))
  }

  /** The sort is a permutation of its input, longest first. */
  lemma {:induction false} SortByLengthDescSorts(hits: seq<(Category, nat)>)
    ensures multiset(SortByLengthDesc(hits)) == multiset(hits)
    ensures SortedByLengthDesc(SortByLengthDesc(hits))
    decreases |hits|
  {
    if hits != [] {
      SortByLengthDescSorts(hits[1..]);
      InsertKeepsSorted(hits[0], SortByLengthDesc(hits[1..]));
      assert hits == [hits[0]] + hits[1..];
    }
  }

  /** The head of the stable sort is the first pair of greatest length. */
  lemma {:induction false} SortHeadIsFirstLongest(hits: seq<(Category, nat)>) returns (i: nat)
    requires hits != []
    ensures i < |hits| && SortByLengthDesc(hits)[0] == hits[i]
    ensures forall j :: 0 <= j < |hits| ==> hits[j].1 <= hits[i].1
    ensures forall j :: 0 <= j < i ==> hits[j].1 < hits[i].1
    decreases |hits|
  {
    var tail := hits[1..];
    if tail == [] {
      i := 0;
    } else {
      var k := SortHeadIsFirstLongest(tail);
      var rest := SortByLengthDesc(tail);
      assert SortByLengthDesc(hits) == InsertByLength(hits[0], rest);
      if tail[k].1 <= hits[0].1 {
        assert SortByLengthDesc(hits)[0] == hits[0];
        i := 0;
        forall j | 1 <= j < |hits| ensures hits[j].1 <= hits[0].1 {
          assert hits[j] == tail[j - 1];
        }
      } else {
        assert SortByLengthDesc(hits)[0] == rest[0];
        i := k + 1;
        assert hits[i] == tail[k];
        forall j | 1 <= j < |hits| ensures hits[j].1 <= hits[i].1 && (j < i ==> hits[j].1 < hits[i].1) {
          assert hits[j] == tail[j - 1];
        }
      }
    }
  }

  /** The keyword stage over a table walked in the given order: no answer
      when nothing was pushed, else the kind at the head of the sorted pairs. */
  function KeywordStage(message: string, table: seq<(Category, seq<string>)>): Option<Category> {
    var hits := KeywordHits(message, table);
    if hits == [] then None else Some(SortByLengthDesc(hits)[0].0)
  }

  /** `analyze_keywords`: `table` is the keyword map in whatever order the map
      is walked; the pairs are collected by two nested loops, sorted, and the
      head's kind returned. */
  method AnalyzeKeywords(message: string, table: seq<(Category, seq<string>)>) returns (r: Option<Category>)
    ensures r == KeywordStage(message, table)
  {
    var matches: seq<(Category, nat)> := [];
    var i := 0;
    while i < |table|
      invariant 0 <= i <= |table|
      invariant matches == KeywordHits(message, table[..i])
    {
      var (category, keywords) := table[i];
      var j := 0;
      while j < |keywords|
        invariant 0 <= j <= |keywords|
        invariant matches == KeywordHits(message, table[..i]) + CategoryHits(message, category, keywords[..j])
      {
        var keyword := keywords[j];
        assert keywords[..j + 1][..j] == keywords[..j];
        if Contains(message, keyword) {
          matches := matches + [(category, |keyword|)];
        }
        j := j + 1;
      }
      assert table[..i + 1][..i] == table[..i];
      assert keywords[..|keywords|] == keywords;
      i := i + 1;
    }
    assert table[..|table|] == table;
    if matches != [] {
      var sorted := SortByLengthDesc(matches);
      return Some(sorted[0].0);
    }
    return None;
  }

  /** Every pushed pair comes from a keyword of that kind that occurs, and
      every occurring keyword pushed a pair of its length. */
  lemma {:induction false} CategoryHitsExact(message: string, category: Category, keywords: seq<string>)
    ensures forall h :: h in CategoryHits(message, category, keywords) ==>
      h.0 == category && exists k :: 0 <= k < |keywords| && Contains(message, keywords[k]) && h.1 == |keywords[k]|
    ensures forall k :: 0 <= k < |keywords| && Contains(message, keywords[k]) ==>
      (category, |keywords[k]|) in CategoryHits(message, category, keywords)
    decreases |keywords|
  {
    if keywords != [] {
      var init := keywords[..|keywords| - 1];
      CategoryHitsExact(message, category, init);
      assert forall k :: 0 <= k < |init| ==> init[k] == keywords[k];
    }
  }

  lemma {:induction false} KeywordHitsExact(message: string, table: seq<(Category, seq<string>)>)
    ensures forall h :: h in KeywordHits(message, table) ==>
      exists i, k :: 0 <= i < |table| && 0 <= k < |table[i].1| && table[i].0 == h.0
        && Contains(message, table[i].1[k]) && h.1 == |table[i].1[k]|
    ensures forall i, k :: 0 <= i < |table| && 0 <= k < |table[i].1| && Contains(message, table[i].1[k]) ==>
      (table[i].0, |table[i].1[k]|) in KeywordHits(message, table)
    decreases |table|
  {
    if table != [] {
      var init := table[..|table| - 1];
      var last := table[|table| - 1];
      KeywordHitsExact(message, init);
      CategoryHitsExact(message, last.0, last.1);
      assert forall i :: 0 <= i < |init| ==> init[i] == table[i];
    }
  }

  /** Longest keyword wins, for every order of the table: the stage answers
      exactly when some keyword occurs, and then it answers a kind owning an
      occurring keyword that no occurring keyword is longer than. */
  lemma KeywordStageLongest(message: string, table: seq<(Category, seq<string>)>)
    ensures KeywordStage(message, table).None? <==>
      forall i, k :: 0 <= i < |table| && 0 <= k < |table[i].1| ==> !Contains(message, table[i].1[k])
    ensures KeywordStage(message, table).Some? ==>
      exists i, k :: 0 <= i < |table| && 0 <= k < |table[i].1|
        && table[i].0 == KeywordStage(message, table).value
        && Contains(message, table[i].1[k])
        && forall i', k' :: 0 <= i' < |table| && 0 <= k' < |table[i'].1| && Contains(message, table[i'].1[k']) ==>
             |table[i'].1[k']| <= |table[i].1[k]|
  {
    var hits := KeywordHits(message, table);
    KeywordHitsExact(message, table);
    if hits != [] {
      var h := SortHeadIsFirstLongest(hits);
      assert hits[h] in hits;
      var i, k :| 0 <= i < |table| && 0 <= k < |table[i].1| && table[i].0 == hits[h].0
        && Contains(message, table[i].1[k]) && hits[h].1 == |table[i].1[k]|;
      forall i', k' | 0 <= i' < |table| && 0 <= k' < |table[i'].1| && Contains(message, table[i'].1[k'])
        ensures |table[i'].1[k']| <= |table[i].1[k]|
      {
        var p := (table[i'].0, |table[i'].1[k']|);
        assert p in hits;
        var j :| 0 <= j < |hits| && hits[j] == p;
      }
    }
  }

  // ---------------------------------------------------------------------------
  // Stage 3: path and extension clues
  // ---------------------------------------------------------------------------

  /** The clue groups of `analyze_context`, in the order they are tried. */
  const ContextClues: seq<(seq<string>, Category)> := [
    ([".md", "readme", "doc/"], Docs),
    (["package.json", "cargo.toml", "requirements.txt", "gemfile"], Deps),
    ([".yml", ".yaml", "config", ".env"], Config),
    (["dockerfile", "docker-compose", ".github/workflows", "ci/"], Ci),
    (["test/", "spec/", "__tests__", ".test."], Test)
  ]

  predicate AnyClue(message: string, clues: seq<string>) {
    exists k :: 0 <= k < |clues| && Contains(message, clues[k])
  }

  /** The kind of the first group of `groups` with a clue in the message. */
  function FirstClueGroup(message: string, groups: seq<(seq<string>, Category)>): Option<Category>
    decreases |groups|
  {
    if groups == [] then None
    else if AnyClue(message, groups[0].0) then Some(groups[0].1)
    else FirstClueGroup(message, groups[1..])
  }

  /** `analyze_context`: the clue groups tried in order against the
      lower-cased message. */
  function AnalyzeContext(message: string): Option<Category> {
    FirstClueGroup(message, ContextClues)
  }

  /** `FirstClueGroup` is first-match-wins: no answer exactly when no group
      has a clue in the message, else the kind of the first group that has. */
  lemma {:induction false} FirstClueGroupIsFirstHit(message: string, groups: seq<(seq<string>, Category)>)
    ensures FirstClueGroup(message, groups).None? <==>
      forall i :: 0 <= i < |groups| ==> !AnyClue(message, groups[i].0)
    ensures FirstClueGroup(message, groups).Some? ==>
      exists i :: 0 <= i < |groups| && AnyClue(message, groups[i].0)
        && groups[i].1 == FirstClueGroup(message, groups).value
        && forall j :: 0 <= j < i ==> !AnyClue(message, groups[j].0)
    decreases |groups|
  {
    if groups != [] && !AnyClue(message, groups[0].0) {
      FirstClueGroupIsFirstHit(message, groups[1..]);
      assert forall i :: 1 <= i < |groups| ==> groups[i] == groups[1..][i - 1];
      if FirstClueGroup(message, groups).Some? {
        var i :| 0 <= i < |groups[1..]| && AnyClue(message, groups[1..][i].0)
          && groups[1..][i].1 == FirstClueGroup(message, groups).value
          && forall j :: 0 <= j < i ==> !AnyClue(message, groups[1..][j].0);
        assert groups[i + 1] == groups[1..][i];
      }
    }
  }

  // ---------------------------------------------------------------------------
  // The resolution chain
  // ---------------------------------------------------------------------------

  /** `categorize_commit_message`: conventional prefix of the first line,
      then longest keyword, then context clues, then `Unknown`; all matching
      on the lower-cased text. The keyword table is walked in insertion order. */
  function Categorize(message: string): Category {
    var lower := ToLower(message);
    var firstLine := ToLower(FirstLine(message));
    match FirstConventional(firstLine, ConventionalPatterns)
    case Some(c) => c
    case None =>
      match KeywordStage(lower, KeywordPatterns)
      case Some(c) => c
      case None =>
        match AnalyzeContext(lower)
        case Some(c) => c
        case None => Unknown
  }

  /** Categorizing looks at the message only through its lower-cased form. */
  lemma CategorizeIgnoresCase(message: string)
    ensures Categorize(ToLower(message)) == Categorize(message)
  {
    FirstLineToLower(message);
    ToLowerIdempotent(message);
    ToLowerIdempotent(FirstLine(message));
  }

  /** The resolution chain, stage by stage: the first prefix entry the first
      line matches decides; failing that, a longest occurring keyword; failing
      that, the first clue group with a hit; failing all three, `Unknown`. */
  lemma CategorizeResolution(message: string)
    ensures var line := ToLower(FirstLine(message));
      forall i :: 0 <= i < |ConventionalPatterns| && ConventionalMatch(line, ConventionalPatterns[i].0)
        && (forall j :: 0 <= j < i ==> !ConventionalMatch(line, ConventionalPatterns[j].0))
        ==> Categorize(message) == ConventionalPatterns[i].1
    ensures var line := ToLower(FirstLine(message));
      var lower := ToLower(message);
      (forall i :: 0 <= i < |ConventionalPatterns| ==> !ConventionalMatch(line, ConventionalPatterns[i].0))
      && (exists i, k :: 0 <= i < |KeywordPatterns| && 0 <= k < |KeywordPatterns[i].1| && Contains(lower, KeywordPatterns[i].1[k]))
      ==> exists i, k :: 0 <= i < |KeywordPatterns| && 0 <= k < |KeywordPatterns[i].1|
            && KeywordPatterns[i].0 == Categorize(message) && Contains(lower, KeywordPatterns[i].1[k])
            && forall i', k' :: 0 <= i' < |KeywordPatterns| && 0 <= k' < |KeywordPatterns[i'].1| && Contains(lower, KeywordPatterns[i'].1[k']) ==>
                 |KeywordPatterns[i'].1[k']| <= |KeywordPatterns[i].1[k]|
    ensures var line := ToLower(FirstLine(message));
      var lower := ToLower(message);
      (forall i :: 0 <= i < |ConventionalPatterns| ==> !ConventionalMatch(line, ConventionalPatterns[i].0))
      && (forall i, k :: 0 <= i < |KeywordPatterns| && 0 <= k < |KeywordPatterns[i].1| ==> !Contains(lower, KeywordPatterns[i].1[k]))
      ==> Categorize(message) == (match AnalyzeContext(lower) case Some(c) => c case None => Unknown)
  {
    var line := ToLower(FirstLine(message));
    var lower := ToLower(message);
    FirstConventionalIsFirstMatch(line, ConventionalPatterns);
    KeywordStageLongest(lower, KeywordPatterns);
    match FirstConventional(line, ConventionalPatterns)
    case Some(c) =>
      var w :| 0 <= w < |ConventionalPatterns| && ConventionalMatch(line, ConventionalPatterns[w].0)
        && ConventionalPatterns[w].1 == c
        && forall j :: 0 <= j < w ==> !ConventionalMatch(line, ConventionalPatterns[j].0);
      forall i | 0 <= i < |ConventionalPatterns| && ConventionalMatch(line, ConventionalPatterns[i].0)
        && (forall j :: 0 <= j < i ==> !ConventionalMatch(line, ConventionalPatterns[j].0))
        ensures Categorize(message) == ConventionalPatterns[i].1
      {
        assert i == w;
      }
    case None =>
  }

  /** None of the three tables names `Unknown`. */
  lemma TablesExcludeUnknown()
    ensures forall i :: 0 <= i < |ConventionalPatterns| ==> ConventionalPatterns[i].1 != Unknown
    ensures forall i :: 0 <= i < |KeywordPatterns| ==> KeywordPatterns[i].0 != Unknown
    ensures forall i :: 0 <= i < |ContextClues| ==> ContextClues[i].1 != Unknown
  {
  }

  /** `Unknown` is the answer exactly when no stage answers. */
  lemma CategorizeUnknownIff(message: string)
    ensures Categorize(message) == Unknown <==>
      && FirstConventional(ToLower(FirstLine(message)), ConventionalPatterns).None?
      && KeywordStage(ToLower(message), KeywordPatterns).None?
      && AnalyzeContext(ToLower(message)).None?
  {
    FirstConventionalIsFirstMatch(ToLower(FirstLine(message)), ConventionalPatterns);
    KeywordStageLongest(ToLower(message), KeywordPatterns);
    FirstClueGroupIsFirstHit(ToLower(message), ContextClues);
    TablesExcludeUnknown();
  }

  // ---------------------------------------------------------------------------
  // Decoration
  // ---------------------------------------------------------------------------

  /** The code points counted as a marker already in place. */
  predicate IsEmoteChar(ch: char) {
    || ('\U{1F300}' <= ch <= '\U{1F9FF}')
    || ('\U{2600}' <= ch <= '\U{26FF}')
    || ('\U{2700}' <= ch <= '\U{27BF}')
    || ('\U{1F1E0}' <= ch <= '\U{1F1FF}')
  }

  /** `starts_with_emote`: false for the empty text. */
  predicate StartsWithEmote(message: string) {
    message != [] && IsEmoteChar(message[0])
  }

  /** Every marker but Revert's lies in the recognised ranges. */
  lemma EmoteRecognised(c: Category)
    ensures StartsWithEmote(Emote(c)) <==> c != Revert
  {
  }

  /** `add_emote_to_commit_message`: the trimmed message, with the marker and
      a space in front unless it starts with a marker already. */
  function AddEmote(message: string, category: Category): (r: string)
    ensures EndsWith(r, Trim(message))
    ensures r == Trim(message) <==> StartsWithEmote(Trim(message))
    ensures r != Trim(message) ==> StartsWith(r, Emote(category) + " ")
    ensures r != Trim(message) ==> r == Emote(category) + " " + Trim(message)
  {
    var trimmed := Trim(message);
    if StartsWithEmote(trimmed) then trimmed
    else Emote(category) + " " + trimmed
  }

  /** Trimming a marker and a space put in front of a trimmed text. */
  lemma TrimDecorated(e: string, t: string)
    requires e != [] && !IsWhitespace(e[0]) && !IsWhitespace(e[|e| - 1])
    requires t != [] ==> !IsWhitespace(t[0]) && !IsWhitespace(t[|t| - 1])
    ensures t != [] ==> Trim(e + " " + t) == e + " " + t
    ensures t == [] ==> Trim(e + " " + t) == e
  {
    var d := e + " " + t;
    if t != [] {
      assert d[0] == e[0] && d[|d| - 1] == t[|t| - 1];
      TrimFixed(d);
    } else {
      assert d[|d| - 1] == ' ' && d[|e| - 1] == e[|e| - 1];
      assert BackWhitespace(d, |d|) == |e|;
      assert SkipWhitespace(d, 0) == 0;
      assert d[0..|e|] == e;
    }
  }

  /** A message whose trimmed form starts with a marker is left as that
      trimmed form, whatever the kind. */
  lemma AddEmoteMarked(message: string, category: Category)
    requires StartsWithEmote(Trim(message))
    ensures AddEmote(message, category) == Trim(message)
  {
  }

  /** Decorating twice is the same as decorating once exactly when the
      message already had a marker, or is not blank and its kind's marker is
      a recognised one (every kind but Revert). */
  lemma RedecorationIdempotentIff(message: string, category: Category)
    ensures AddEmote(AddEmote(message, category), category) == AddEmote(message, category) <==>
      StartsWithEmote(Trim(message)) || (Trim(message) != [] && category != Revert)
  {
    var t := Trim(message);
    var e := Emote(category);
    var _ := TrimShape(message);
    EmoteRecognised(category);
    if StartsWithEmote(t) {
      TrimIdempotent(message);
    } else {
      var once := e + " " + t;
      assert AddEmote(message, category) == once;
      TrimDecorated(e, t);
      if t != [] {
        assert once[0] == e[0];
      } else {
        assert |e + " " + e| != |once|;
      }
    }
  }

  /** Revert's marker is not recognised, so a Revert message is decorated
      again on every pass. */
  lemma RevertRedecorates(message: string)
    requires Trim(message) != [] && !StartsWithEmote(Trim(message))
    ensures AddEmote(AddEmote(message, Revert), Revert)
         == Emote(Revert) + " " + Emote(Revert) + " " + Trim(message)
  {
    var t := Trim(message);
    var e := Emote(Revert);
    var once := e + " " + t;
    assert once[0] == e[0];
    assert AddEmote(message, Revert) == once;
    var _ := TrimShape(message);
    TrimDecorated(e, t);
    assert AddEmote(once, Revert) == e + " " + once;
  }

  /** `process_commit_message`: decorate with the message's own kind. */
  function ProcessCommitMessage(message: string): (r: string)
    ensures EndsWith(r, Trim(message))
    ensures StartsWithEmote(Trim(message)) ==> r == Trim(message)
    ensures !StartsWithEmote(Trim(message)) ==> StartsWith(r, Emote(Categorize(message)) + " ")
    ensures !StartsWithEmote(Trim(message)) ==> r == Emote(Categorize(message)) + " " + Trim(message)
  {
    AddEmote(message, Categorize(message))
  }

  /** A processed message that was not blank and not of kind Revert is a
      trimmed text starting with a marker. */
  lemma ProcessedIsMarked(message: string)
    requires Trim(message) != []
    requires Categorize(message) != Revert || StartsWithEmote(Trim(message))
    ensures Trim(ProcessCommitMessage(message)) == ProcessCommitMessage(message)
    ensures StartsWithEmote(ProcessCommitMessage(message))
  {
    var r := ProcessCommitMessage(message);
    var t := Trim(message);
    var _ := TrimShape(message);
    if StartsWithEmote(t) {
      TrimIdempotent(message);
    } else {
      var e := Emote(Categorize(message));
      EmoteRecognised(Categorize(message));
      DecoratedIsMarked(e, t);
    }
  }

  lemma DecoratedIsMarked(e: string, t: string)
    requires StartsWithEmote(e) && !IsWhitespace(e[0]) && !IsWhitespace(e[|e| - 1])
    requires t != [] && !IsWhitespace(t[0]) && !IsWhitespace(t[|t| - 1])
    ensures Trim(e + " " + t) == e + " " + t && StartsWithEmote(e + " " + t)
  {
    var d := e + " " + t;
    assert d[0] == e[0];
    TrimDecorated(e, t);
  }

  /** A processed message is processed again to itself unless it is blank or
      of kind Revert. */
  lemma ProcessIdempotent(message: string)
    requires Trim(message) != []
    requires Categorize(message) != Revert || StartsWithEmote(Trim(message))
    ensures ProcessCommitMessage(ProcessCommitMessage(message)) == ProcessCommitMessage(message)
  {
    var r := ProcessCommitMessage(message);
    ProcessedIsMarked(message);
    AddEmoteMarked(r, Categorize(r));
  }
}
