/**
 * The design-system lint script: it collects the `.tsx` files under three
 * source directories (skipping the UI primitives), runs six pattern rules over
 * each file and reports every match that no exemption covers, with the line
 * number and the trimmed text of the line it sits on.
 *
 * The file system, the regular-expression engine and the allowlist file are
 * parameters: a directory is a tree of `Entry` values, a rule's matches in a
 * source are the list of match start positions, and an allowlist pattern's
 * test against a line is a predicate.
 */
module DesignLint {
  import Text
  import StringOrder

  // ---------------------------------------------------------------------------
  // Configuration
  // ---------------------------------------------------------------------------

  const TARGETS: seq<string> := ["src/app/(protected)", "src/components/nav", "src/components"]
  const EXCLUDED_PREFIXES: seq<string> := ["src/components/ui"]

  /** The rule names, in the order the rules are declared and run. */
  const RULE_NAMES: seq<string> :=
    ["grayTokens", "pinkTokens", "hardcodedHex", "bgWhite", "gradient", "rawButtonClass"]

  /** Words whose presence in a file path (in any letter case) exempts it from the gradient rule. */
  const GRADIENT_WORDS: seq<string> := ["cat", "special", "challenge", "milestone"]

  /** Markers whose presence on a line exempts a raw `<button>` match. */
  const BUTTON_MARKERS: seq<string> := ["interactive-icon", "<Button", "<IconButton"]

  // ---------------------------------------------------------------------------
  // Locating a match
  // ---------------------------------------------------------------------------

  /** Where `source.slice(0, index)` ends: a negative index counts back from the end, and both ends clamp. */
  function SliceEnd(len: nat, index: int): (e: nat)
    ensures e <= len
    ensures 0 <= index <= len ==> e == index
    ensures index < 0 ==> e == if len + index < 0 then 0 else len + index
    ensures index > len ==> e == len
  {
    if index < 0 then (if len + index < 0 then 0 else len + index)
    else if index > len then len
    else index
  }

  /** `findLineNumber`: the number of newline-separated pieces of the text before `index`. */
  function FindLineNumber(source: string, index: int): (n: int)
    ensures n == 1 + Text.Count(source[..SliceEnd(|source|, index)], '\n')
  {
    var before := source[..SliceEnd(|source|, index)];
    Text.SplitShape(before, '\n');
    |Text.Split(before, '\n')|
  }

  /** The line numbers a match can get: from 1 up to the number of lines of the source. */
  lemma LineNumberBounds(source: string, index: int)
    ensures 1 <= FindLineNumber(source, index) <= 1 + Text.Count(source, '\n')
    ensures FindLineNumber(source, index) == |Text.Split(source[..SliceEnd(|source|, index)], '\n')|
  {
    var e := SliceEnd(|source|, index);
    Text.CountPrefixMonotone(source, e, e, '\n');
    Text.SplitShape(source[..e], '\n');
  }

  /** A later match position never gets an earlier line number. */
  lemma LineNumberMonotone(source: string, i: int, j: int)
    requires 0 <= i <= j
    ensures FindLineNumber(source, i) <= FindLineNumber(source, j)
  {
    var ei, ej := SliceEnd(|source|, i), SliceEnd(|source|, j);
    Text.CountPrefixMonotone(source, ei, ej, '\n');
  }

  /** `source.split("\n")[lineNumber - 1]?.trim() ?? ""`. */
  function LineAt(source: string, lineNumber: int): (line: string)
    ensures var lines := Text.Split(source, '\n');
      !(1 <= lineNumber <= |lines|) ==> line == ""
    ensures '\n' !in line
  {
    var lines := Text.Split(source, '\n');
    Text.SplitShape(source, '\n');
    if 1 <= lineNumber <= |lines| then
      var r := Text.Trim(lines[lineNumber - 1]);
      assert '\n' !in r by {
        var i, j :| 0 <= i <= j <= |lines[lineNumber - 1]| && r == lines[lineNumber - 1][i..j];
        assert forall c :: c in r ==> c in lines[lineNumber - 1];
      }
      r
    else ""
  }

  /**
   * The line reported for a match at `index` is the line that holds the match:
   * the newline-free text before `index` back to the previous newline, followed by
   * the newline-free text from `index` up to the next newline, trimmed.
   */
  lemma {:induction false} LineOfMatch(source: string, index: int)
    requires 0 <= index <= |source|
    ensures var n := FindLineNumber(source, index);
      var before := Text.Split(source[..index], '\n');
      var after := Text.Split(source[index..], '\n');
      && 1 <= n <= |Text.Split(source, '\n')|
      && Text.Split(source, '\n')[n - 1] == before[|before| - 1] + after[0]
      && LineAt(source, n) == Text.Trim(before[|before| - 1] + after[0])
  {
    var a, b := source[..index], source[index..];
    assert a + b == source;
    Text.SplitConcat(a, b, '\n');
    var pa, pb := Text.Split(a, '\n'), Text.Split(b, '\n');
    var g := Text.Glue(pa, pb);
    assert g[|pa| - 1] == pa[|pa| - 1] + pb[0];
    assert FindLineNumber(source, index) == |pa|;
  }

  // ---------------------------------------------------------------------------
  // Exemptions
  // ---------------------------------------------------------------------------

  /** `/cat|special|challenge|milestone/i.test(filePath)`. */
  predicate ShouldAllowGradient(filePath: string) {
    var lower := Text.AsciiLower(filePath);
    Text.Contains(lower, "cat") || Text.Contains(lower, "special")
    || Text.Contains(lower, "challenge") || Text.Contains(lower, "milestone")
  }

  /** `line.includes(...)` for each marker. */
  predicate ShouldSkipRawButtonMatch(line: string) {
    Text.Contains(line, "interactive-icon") || Text.Contains(line, "<Button")
    || Text.Contains(line, "<IconButton")
  }

  /** A path is exempt from the gradient rule exactly when one of the words occurs in it, ignoring ASCII case. */
  lemma GradientExemptionIff(filePath: string)
    ensures ShouldAllowGradient(filePath) <==>
      exists k, i :: 0 <= k < |GRADIENT_WORDS| && Text.OccursAt(Text.AsciiLower(filePath), GRADIENT_WORDS[k], i)
  {
    var lower := Text.AsciiLower(filePath);
    var ws := GRADIENT_WORDS;
    forall k | 0 <= k < |ws|
      ensures Text.Contains(lower, ws[k]) <==> exists i :: Text.OccursAt(lower, ws[k], i)
    {
      Text.ContainsIff(lower, ws[k]);
    }
    assert ws[0] == "cat" && ws[1] == "special" && ws[2] == "challenge" && ws[3] == "milestone";
  }

  /** A raw button match is skipped exactly when one of the markers occurs on its line. */
  lemma ButtonSkipIff(line: string)
    ensures ShouldSkipRawButtonMatch(line) <==>
      exists k, i :: 0 <= k < |BUTTON_MARKERS| && Text.OccursAt(line, BUTTON_MARKERS[k], i)
  {
    var ms := BUTTON_MARKERS;
    forall k | 0 <= k < |ms|
      ensures Text.Contains(line, ms[k]) <==> exists i :: Text.OccursAt(line, ms[k], i)
    {
      Text.ContainsIff(line, ms[k]);
    }
    assert ms[0] == "interactive-icon" && ms[1] == "<Button" && ms[2] == "<IconButton";
  }

  /**
   * The gradient exemption is a case-insensitive substring test on the whole
   * path: "Cat" in a component name exempts it, and so does the "cat" inside
   * "notifications".
   */
  lemma GradientExemptionExamples()
    ensures ShouldAllowGradient("src/components/CatCard.tsx")
    ensures ShouldAllowGradient("src/components/notifications.tsx")
  {
    var p1, p2 := "src/components/CatCard.tsx", "src/components/notifications.tsx";
    var l1, l2 := Text.AsciiLower(p1), Text.AsciiLower(p2);
    assert l1[15] == 'c' && l1[16] == 'a' && l1[17] == 't';
    assert l1[15..18] == GRADIENT_WORDS[0];
    assert l2[21] == 'c' && l2[22] == 'a' && l2[23] == 't';
    assert l2[21..24] == GRADIENT_WORDS[0];
    GradientExemptionIff(p1);
    GradientExemptionIff(p2);
    assert Text.OccursAt(l1, GRADIENT_WORDS[0], 15);
    assert Text.OccursAt(l2, GRADIENT_WORDS[0], 21);
  }

  /** Allowlist: rule name, then file path, then the regular-expression sources of the allowed lines. */
  type Allowlist = map<string, map<string, seq<string>>>

  /** `entries.some(pattern => test(pattern, line))`. */
  predicate AnyAllows(entries: seq<string>, test: (string, string) -> bool, line: string)
    decreases |entries|
  {
    entries != [] && (test(entries[0], line) || AnyAllows(entries[1..], test, line))
  }

  /**
   * `isAllowed`: the allowlist has an entry list for this rule and file, and one of
   * its patterns matches the line.
   */
  function IsAllowed(allowlist: Allowlist, test: (string, string) -> bool,
                     filePath: string, ruleName: string, line: string): (b: bool)
    ensures b <==> (ruleName in allowlist && filePath in allowlist[ruleName]
      && exists k :: 0 <= k < |allowlist[ruleName][filePath]| && test(allowlist[ruleName][filePath][k], line))
  {
    if ruleName !in allowlist || filePath !in allowlist[ruleName] then false
    else
      AnyAllowsIff(allowlist[ruleName][filePath], test, line);
      AnyAllows(allowlist[ruleName][filePath], test, line)
  }

  lemma {:induction false} AnyAllowsIff(entries: seq<string>, test: (string, string) -> bool, line: string)
    ensures AnyAllows(entries, test, line) <==> exists k :: 0 <= k < |entries| && test(entries[k], line)
    decreases |entries|
  {
    if entries != [] {
      AnyAllowsIff(entries[1..], test, line);
      assert forall k :: 0 < k < |entries| ==> entries[k] == entries[1..][k - 1];
    }
  }

  // ---------------------------------------------------------------------------
  // Collecting failures
  // ---------------------------------------------------------------------------

  /** One reported violation, as printed: `relPath:lineNumber [ruleName] line`. */
  datatype Failure = Failure(ruleName: string, relPath: string, lineNumber: int, line: string)

  /**
   * What the lint run consults outside itself: the text of a file, the start
   * positions of a rule's matches in a text (in order), the parsed allowlist,
   * and the test of an allowlist pattern against a line.
   */
  datatype LintEnv = LintEnv(
    read: string -> string,
    matchesOf: (string, string) -> seq<int>,
    allowlist: Allowlist,
    test: (string, string) -> bool)

  /** The failure a match at `index` produces if it is reported. */
  function FailureAt(source: string, relPath: string, ruleName: string, index: int): (f: Failure)
    ensures f.ruleName == ruleName && f.relPath == relPath
    ensures f.lineNumber == 1 + Text.Count(source[..SliceEnd(|source|, index)], '\n')
    ensures f.line == LineAt(source, f.lineNumber)
  {
    var lineNumber := FindLineNumber(source, index);
    Failure(ruleName, relPath, lineNumber, LineAt(source, lineNumber))
  }

  /** A match on `line` is reported unless one of the three exemptions covers it. */
  predicate IsReported(env: LintEnv, relPath: string, ruleName: string, line: string) {
    && !(ruleName == "gradient" && ShouldAllowGradient(relPath))
    && !(ruleName == "rawButtonClass" && ShouldSkipRawButtonMatch(line))
    && !IsAllowed(env.allowlist, env.test, relPath, ruleName, line)
  }

  predicate MatchReported(env: LintEnv, relPath: string, source: string, ruleName: string, index: int) {
    IsReported(env, relPath, ruleName, FailureAt(source, relPath, ruleName, index).line)
  }

  /** The failures from the matches `indices` of one rule in one file, in match order. */
  function MatchFailures(env: LintEnv, relPath: string, source: string, ruleName: string,
                         indices: seq<int>): seq<Failure>
    decreases |indices|
  {
    if indices == [] then []
    else
      var index := indices[|indices| - 1];
      MatchFailures(env, relPath, source, ruleName, indices[..|indices| - 1])
      + (if MatchReported(env, relPath, source, ruleName, index)
         then [FailureAt(source, relPath, ruleName, index)] else [])
  }

  /** The failures of the rules `ruleNames` in one file, rule by rule. */
  function RuleFailures(env: LintEnv, relPath: string, source: string, ruleNames: seq<string>): seq<Failure>
    decreases |ruleNames|
  {
    if ruleNames == [] then []
    else
      var ruleName := ruleNames[|ruleNames| - 1];
      RuleFailures(env, relPath, source, ruleNames[..|ruleNames| - 1])
      + MatchFailures(env, relPath, source, ruleName, env.matchesOf(ruleName, source))
  }

  /** The failures of all rules over the files `files`, file by file. */
  function Failures(env: LintEnv, files: seq<string>): seq<Failure>
    decreases |files|
  {
    if files == [] then []
    else
      var relPath := files[|files| - 1];
      Failures(env, files[..|files| - 1]) + RuleFailures(env, relPath, env.read(relPath), RULE_NAMES)
  }

  /** The loops of `main` over files, rules and matches, collecting the failures. */
  method CollectFailures(files: seq<string>, env: LintEnv) returns (failures: seq<Failure>)
    ensures failures == Failures(env, files)
  {
    failures := [];
    for f := 0 to |files|
      invariant failures == Failures(env, files[..f])
    {
      var relPath := files[f];
      var source := env.read(relPath);
      var found := CollectFileFailures(env, relPath, source);
      failures := failures + found;
      assert files[..f + 1][..f] == files[..f];
    }
    assert files[..|files|] == files;
  }

  /** The loop over the rules for one file. */
  method CollectFileFailures(env: LintEnv, relPath: string, source: string) returns (failures: seq<Failure>)
    ensures failures == RuleFailures(env, relPath, source, RULE_NAMES)
  {
    failures := [];
    for r := 0 to |RULE_NAMES|
      invariant failures == RuleFailures(env, relPath, source, RULE_NAMES[..r])
    {
      var ruleName := RULE_NAMES[r];
      // Each rule's scan restarts at the beginning of the source.
      var matches := env.matchesOf(ruleName, source);
      var found := CollectMatchFailures(env, relPath, source, ruleName, matches);
      failures := failures + found;
      assert RULE_NAMES[..r + 1][..r] == RULE_NAMES[..r];
    }
    assert RULE_NAMES[..|RULE_NAMES|] == RULE_NAMES;
  }

  /** One more match adds its failure exactly when it is reported. */
  lemma MatchFailuresStep(env: LintEnv, relPath: string, source: string, ruleName: string, matches: seq<int>, m: int)
    requires 0 <= m < |matches|
    ensures var lineNumber := FindLineNumber(source, matches[m]);
      var line := LineAt(source, lineNumber);
      MatchFailures(env, relPath, source, ruleName, matches[..m + 1])
        == MatchFailures(env, relPath, source, ruleName, matches[..m])
           + if IsReported(env, relPath, ruleName, line) then [Failure(ruleName, relPath, lineNumber, line)] else []
  {
    assert matches[..m + 1][..m] == matches[..m];
  }

  /** The loop over one rule's matches in one file, skipping the exempt ones. */
  method CollectMatchFailures(env: LintEnv, relPath: string, source: string, ruleName: string,
                              matches: seq<int>) returns (failures: seq<Failure>)
    ensures failures == MatchFailures(env, relPath, source, ruleName, matches)
  {
    failures := [];
    var m := 0;
    while m < |matches|
      invariant 0 <= m <= |matches|
      invariant failures == MatchFailures(env, relPath, source, ruleName, matches[..m])
    {
      var index := matches[m];
      var lineNumber := FindLineNumber(source, index);
      var line := LineAt(source, lineNumber);
      MatchFailuresStep(env, relPath, source, ruleName, matches, m);
      m := m + 1;
      if ruleName == "gradient" && ShouldAllowGradient(relPath) {
        continue;
      }
      if ruleName == "rawButtonClass" && ShouldSkipRawButtonMatch(line) {
        continue;
      }
      if IsAllowed(env.allowlist, env.test, relPath, ruleName, line) {
        continue;
      }
      failures := failures + [Failure(ruleName, relPath, lineNumber, line)];
    }
    assert matches[..m] == matches;
  }

  lemma {:induction false} MatchFailuresMembers(env: LintEnv, relPath: string, source: string,
                                                ruleName: string, indices: seq<int>, f: Failure)
    ensures f in MatchFailures(env, relPath, source, ruleName, indices) <==>
      exists k :: 0 <= k < |indices| && MatchReported(env, relPath, source, ruleName, indices[k])
        && f == FailureAt(source, relPath, ruleName, indices[k])
    decreases |indices|
  {
    if indices != [] {
      var n := |indices|;
      var init := indices[..n - 1];
      var last := indices[n - 1];
      MatchFailuresMembers(env, relPath, source, ruleName, init, f);
      var reported := MatchReported(env, relPath, source, ruleName, last);
      var fl := FailureAt(source, relPath, ruleName, last);
      var tail := if reported then [fl] else [];
      assert MatchFailures(env, relPath, source, ruleName, indices)
        == MatchFailures(env, relPath, source, ruleName, init) + tail;
      if f in MatchFailures(env, relPath, source, ruleName, init) {
        var k :| 0 <= k < |init| && MatchReported(env, relPath, source, ruleName, init[k])
          && f == FailureAt(source, relPath, ruleName, init[k]);
        assert init[k] == indices[k];
      } else if f in tail {
        assert indices[n - 1] == last;
      } else {
        forall k | 0 <= k < n && MatchReported(env, relPath, source, ruleName, indices[k])
          ensures f != FailureAt(source, relPath, ruleName, indices[k])
        {
          if k < n - 1 {
            assert init[k] == indices[k];
          }
        }
      }
    }
  }

  lemma {:induction false} RuleFailuresMembers(env: LintEnv, relPath: string, source: string,
                                               ruleNames: seq<string>, f: Failure)
    ensures f in RuleFailures(env, relPath, source, ruleNames) <==>
      exists r :: 0 <= r < |ruleNames|
        && f in MatchFailures(env, relPath, source, ruleNames[r], env.matchesOf(ruleNames[r], source))
    decreases |ruleNames|
  {
    if ruleNames != [] {
      var n := |ruleNames|;
      var init := ruleNames[..n - 1];
      RuleFailuresMembers(env, relPath, source, init, f);
      var tail := MatchFailures(env, relPath, source, ruleNames[n - 1], env.matchesOf(ruleNames[n - 1], source));
      assert RuleFailures(env, relPath, source, ruleNames) == RuleFailures(env, relPath, source, init) + tail;
      if f in RuleFailures(env, relPath, source, init) {
        var r :| 0 <= r < |init|
          && f in MatchFailures(env, relPath, source, init[r], env.matchesOf(init[r], source));
        assert init[r] == ruleNames[r];
      } else if f !in tail {
        forall r | 0 <= r < n
          ensures f !in MatchFailures(env, relPath, source, ruleNames[r], env.matchesOf(ruleNames[r], source))
        {
          if r < n - 1 {
            assert init[r] == ruleNames[r];
          }
        }
      }
    }
  }

  lemma {:induction false} FailuresMembers(env: LintEnv, files: seq<string>, f: Failure)
    ensures f in Failures(env, files) <==>
      exists i :: 0 <= i < |files| && f in RuleFailures(env, files[i], env.read(files[i]), RULE_NAMES)
    decreases |files|
  {
    if files != [] {
      var n := |files|;
      var init := files[..n - 1];
      FailuresMembers(env, init, f);
      var tail := RuleFailures(env, files[n - 1], env.read(files[n - 1]), RULE_NAMES);
      assert Failures(env, files) == Failures(env, init) + tail;
      if f in Failures(env, init) {
        var i :| 0 <= i < |init| && f in RuleFailures(env, init[i], env.read(init[i]), RULE_NAMES);
        assert init[i] == files[i];
      } else if f !in tail {
        forall i | 0 <= i < n
          ensures f !in RuleFailures(env, files[i], env.read(files[i]), RULE_NAMES)
        {
          if i < n - 1 {
            assert init[i] == files[i];
          }
        }
      }
    }
  }

  /** The match at `index` of rule `ruleName` in file `relPath` is reported, as `f`. */
  predicate ReportedAs(env: LintEnv, relPath: string, ruleName: string, index: int, f: Failure) {
    var source := env.read(relPath);
    MatchReported(env, relPath, source, ruleName, index) && f == FailureAt(source, relPath, ruleName, index)
  }

  /**
   * The failures reported are exactly the matches no exemption covers: each
   * failure comes from a match of one of the rules in one of the files, and
   * every such match that is not exempt is reported.
   */
  lemma ReportedIff(env: LintEnv, files: seq<string>, f: Failure)
    ensures f in Failures(env, files) <==>
      exists i, r, k ::
        && 0 <= i < |files| && 0 <= r < |RULE_NAMES|
        && 0 <= k < |env.matchesOf(RULE_NAMES[r], env.read(files[i]))|
        && ReportedAs(env, files[i], RULE_NAMES[r], env.matchesOf(RULE_NAMES[r], env.read(files[i]))[k], f)
  {
    FailuresMembers(env, files, f);
    forall i | 0 <= i < |files|
      ensures f in RuleFailures(env, files[i], env.read(files[i]), RULE_NAMES) <==>
        exists r, k :: 0 <= r < |RULE_NAMES|
          && 0 <= k < |env.matchesOf(RULE_NAMES[r], env.read(files[i]))|
          && ReportedAs(env, files[i], RULE_NAMES[r], env.matchesOf(RULE_NAMES[r], env.read(files[i]))[k], f)
    {
      var source := env.read(files[i]);
      RuleFailuresMembers(env, files[i], source, RULE_NAMES, f);
      forall r | 0 <= r < |RULE_NAMES|
        ensures f in MatchFailures(env, files[i], source, RULE_NAMES[r], env.matchesOf(RULE_NAMES[r], source)) <==>
          exists k :: 0 <= k < |env.matchesOf(RULE_NAMES[r], source)|
            && ReportedAs(env, files[i], RULE_NAMES[r], env.matchesOf(RULE_NAMES[r], source)[k], f)
      {
        MatchFailuresMembers(env, files[i], source, RULE_NAMES[r], env.matchesOf(RULE_NAMES[r], source), f);
      }
    }
  }

  /** The lint passes exactly when no match of any rule in any file is reported. */
  lemma PassesIff(env: LintEnv, files: seq<string>)
    ensures Failures(env, files) == [] <==>
      forall i, r, k ::
        0 <= i < |files| && 0 <= r < |RULE_NAMES|
        && 0 <= k < |env.matchesOf(RULE_NAMES[r], env.read(files[i]))|
        ==> !MatchReported(env, files[i], env.read(files[i]), RULE_NAMES[r],
                           env.matchesOf(RULE_NAMES[r], env.read(files[i]))[k])
  {
    var fs := Failures(env, files);
    if fs != [] {
      ReportedIff(env, files, fs[0]);
    }
    forall i, r, k | 0 <= i < |files| && 0 <= r < |RULE_NAMES|
        && 0 <= k < |env.matchesOf(RULE_NAMES[r], env.read(files[i]))|
        && MatchReported(env, files[i], env.read(files[i]), RULE_NAMES[r],
                         env.matchesOf(RULE_NAMES[r], env.read(files[i]))[k])
      ensures fs != []
    {
      var index := env.matchesOf(RULE_NAMES[r], env.read(files[i]))[k];
      var f := FailureAt(env.read(files[i]), files[i], RULE_NAMES[r], index);
      ReportedIff(env, files, f);
      assert ReportedAs(env, files[i], RULE_NAMES[r], index, f);
    }
  }

  // ---------------------------------------------------------------------------
  // Finding the files
  // ---------------------------------------------------------------------------

  /** A directory entry as listed with file types: a directory's listing may fail to be read. */
  datatype Entry = File(name: string) | Dir(name: string, readable: bool, children: seq<Entry>)

  /** A listed directory: unreadable, or its entries. */
  datatype Listing = Unreadable | Listed(entries: seq<Entry>)

  predicate IsExcluded(rel: string) {
    exists k :: 0 <= k < |EXCLUDED_PREFIXES| && EXCLUDED_PREFIXES[k] <= rel
  }

  predicate EndsWithTsx(s: string) {
    |s| >= 4 && s[|s| - 4..] == ".tsx"
  }

  /** `walk` over the entries of the directory whose path relative to the root is `dir`. */
  function WalkEntries(dir: string, entries: seq<Entry>): seq<string>
    decreases entries
  {
    if entries == [] then []
    else WalkEntry(dir, entries[0]) + WalkEntries(dir, entries[1..])
  }

  /** One entry: excluded paths are dropped whole, directories are walked, `.tsx` files are kept. */
  function WalkEntry(dir: string, e: Entry): seq<string>
    decreases e
  {
    var rel := dir + "/" + e.name;
    if IsExcluded(rel) then []
    else match e
      case Dir(_, readable, children) => if readable then WalkEntries(rel, children) else []
      case File(name) => if EndsWithTsx(name) then [rel] else []
  }

  function Walk(dir: string, listing: Listing): seq<string> {
    match listing
    case Unreadable => []
    case Listed(entries) => WalkEntries(dir, entries)
  }

  /** A path found under `dir` is a `.tsx` file below `dir` and outside the excluded prefixes. */
  predicate FoundUnder(dir: string, p: string) {
    EndsWithTsx(p) && !IsExcluded(p) && dir + "/" <= p
  }

  lemma {:induction false} WalkEntriesSound(dir: string, entries: seq<Entry>)
    ensures forall p :: p in WalkEntries(dir, entries) ==> FoundUnder(dir, p)
    decreases entries
  {
    if entries != [] {
      WalkEntrySound(dir, entries[0]);
      WalkEntriesSound(dir, entries[1..]);
    }
  }

  lemma {:induction false} WalkEntrySound(dir: string, e: Entry)
    ensures forall p :: p in WalkEntry(dir, e) ==> FoundUnder(dir, p)
    decreases e
  {
    var rel := dir + "/" + e.name;
    if !IsExcluded(rel) {
      match e
      case Dir(_, readable, children) =>
        if readable {
          WalkEntriesSound(rel, children);
          forall p | p in WalkEntries(rel, children) ensures dir + "/" <= p {
            assert rel + "/" <= p;
            assert (dir + "/") == (rel + "/")[..|dir| + 1];
          }
        }
      case File(name) =>
        if EndsWithTsx(name) {
          assert rel[|rel| - 4..] == name[|name| - 4..];
        }
    }
  }

  /** A `.tsx` file listed directly in a readable directory is found unless its path is excluded. */
  lemma {:induction false} ListedFileFound(dir: string, entries: seq<Entry>, name: string)
    requires File(name) in entries && EndsWithTsx(name) && !IsExcluded(dir + "/" + name)
    ensures dir + "/" + name in WalkEntries(dir, entries)
    decreases entries
  {
    if entries[0] != File(name) {
      ListedFileFound(dir, entries[1..], name);
    }
  }

  /** `p` is the path of a file somewhere in the tree listed by `entries`, reached through readable directories only. */
  predicate InTree(dir: string, entries: seq<Entry>, p: string)
    decreases entries
  {
    entries != [] && (InEntry(dir, entries[0], p) || InTree(dir, entries[1..], p))
  }

  predicate InEntry(dir: string, e: Entry, p: string)
    decreases e
  {
    match e
    case File(name) => p == dir + "/" + name
    case Dir(name, readable, children) => readable && InTree(dir + "/" + name, children, p)
  }

  /** Every file of the tree lies below its directory. */
  lemma {:induction false} InTreeBelow(dir: string, entries: seq<Entry>, p: string)
    requires InTree(dir, entries, p)
    ensures dir + "/" <= p
    decreases entries
  {
    if InEntry(dir, entries[0], p) {
      InEntryBelow(dir, entries[0], p);
    } else {
      InTreeBelow(dir, entries[1..], p);
    }
  }

  lemma {:induction false} InEntryBelow(dir: string, e: Entry, p: string)
    requires InEntry(dir, e, p)
    ensures dir + "/" <= p
    decreases e
  {
    var rel := dir + "/" + e.name;
    match e
    case File(name) =>
      assert p[..|dir| + 1] == dir + "/";
    case Dir(name, readable, children) =>
      InTreeBelow(rel, children, p);
      assert rel + "/" <= p;
      assert (dir + "/") == (rel + "/")[..|dir| + 1];
  }

  /** A path that is not excluded has no excluded ancestor either, since exclusion is by prefix. */
  lemma PrefixNotExcluded(a: string, p: string)
    requires a <= p && !IsExcluded(p)
    ensures !IsExcluded(a)
  {}

  /**
   * Completeness of `walk`: every `.tsx` file anywhere in the readable tree,
   * however deeply nested, is found unless its path is excluded.
   */
  lemma {:induction false} TreeFileFound(dir: string, entries: seq<Entry>, p: string)
    requires InTree(dir, entries, p) && EndsWithTsx(p) && !IsExcluded(p)
    ensures p in WalkEntries(dir, entries)
    decreases entries
  {
    if InEntry(dir, entries[0], p) {
      EntryFileFound(dir, entries[0], p);
    } else {
      TreeFileFound(dir, entries[1..], p);
    }
  }

  lemma {:induction false} EntryFileFound(dir: string, e: Entry, p: string)
    requires InEntry(dir, e, p) && EndsWithTsx(p) && !IsExcluded(p)
    ensures p in WalkEntry(dir, e)
    decreases e
  {
    var rel := dir + "/" + e.name;
    match e
    case File(name) =>
      TsxPathHasTsxName(dir, name);
    case Dir(name, readable, children) =>
      InTreeBelow(rel, children, p);
      assert rel <= p by {
        assert rel == (rel + "/")[..|rel|];
      }
      PrefixNotExcluded(rel, p);
      TreeFileFound(rel, children, p);
  }

  /** The name of a file whose path ends in `.tsx` ends in `.tsx` too: the slash before it is not part of the extension. */
  lemma TsxPathHasTsxName(dir: string, name: string)
    requires EndsWithTsx(dir + "/" + name)
    ensures EndsWithTsx(name)
  {
    var q := dir + "/" + name;
    assert q[|dir|] == '/';
    forall i | |q| - 4 <= i < |q|
      ensures q[i] != '/'
    {
      assert q[i] == q[|q| - 4..][i - (|q| - 4)];
    }
    assert q[|q| - 4..] == name[|name| - 4..];
  }

  /** Everything `walk` finds is a file of the tree. */
  lemma {:induction false} FoundIsInTree(dir: string, entries: seq<Entry>, p: string)
    requires p in WalkEntries(dir, entries)
    ensures InTree(dir, entries, p)
    decreases entries
  {
    if p in WalkEntry(dir, entries[0]) {
      FoundEntryInTree(dir, entries[0], p);
    } else {
      FoundIsInTree(dir, entries[1..], p);
    }
  }

  lemma {:induction false} FoundEntryInTree(dir: string, e: Entry, p: string)
    requires p in WalkEntry(dir, e)
    ensures InEntry(dir, e, p)
    decreases e
  {
    match e
    case File(name) =>
    case Dir(name, readable, children) =>
      FoundIsInTree(dir + "/" + name, children, p);
  }

  /** `walk` finds exactly the non-excluded `.tsx` files of the readable tree. */
  lemma WalkEntriesIff(dir: string, entries: seq<Entry>, p: string)
    ensures p in WalkEntries(dir, entries) <==> InTree(dir, entries, p) && EndsWithTsx(p) && !IsExcluded(p)
  {
    if p in WalkEntries(dir, entries) {
      WalkEntriesSound(dir, entries);
      FoundIsInTree(dir, entries, p);
    }
    if InTree(dir, entries, p) && EndsWithTsx(p) && !IsExcluded(p) {
      TreeFileFound(dir, entries, p);
    }
  }

  /** Nothing is found below an entry whose own path is excluded. */
  lemma ExcludedEntrySkipped(dir: string, e: Entry)
    requires IsExcluded(dir + "/" + e.name)
    ensures WalkEntry(dir, e) == []
  {
  }

  /** `fileSets.flat()`: the files found under each target, target by target. */
  function FoundFiles(listingOf: string -> Listing, targets: seq<string>): seq<string>
    decreases |targets|
  {
    if targets == [] then []
    else FoundFiles(listingOf, targets[..|targets| - 1])
         + Walk(targets[|targets| - 1], listingOf(targets[|targets| - 1]))
  }

  /**
   * The files to lint: everything found under the targets, each path once,
   * sorted. `listingOf` gives the listing of each target directory.
   */
  function ScanFiles(listingOf: string -> Listing): (files: seq<string>)
    ensures StringOrder.StrictlySorted(files)
    ensures forall p :: p in files <==> p in FoundFiles(listingOf, TARGETS)
  {
    StringOrder.SortedUnique(FoundFiles(listingOf, TARGETS))
  }

  lemma {:induction false} FoundFilesSound(listingOf: string -> Listing, targets: seq<string>)
    ensures forall p :: p in FoundFiles(listingOf, targets) ==>
      exists t :: 0 <= t < |targets| && FoundUnder(targets[t], p)
    decreases |targets|
  {
    if targets != [] {
      var init := targets[..|targets| - 1];
      var last := targets[|targets| - 1];
      FoundFilesSound(listingOf, init);
      match listingOf(last) {
        case Unreadable =>
        case Listed(entries) => WalkEntriesSound(last, entries);
      }
      forall p | p in FoundFiles(listingOf, targets)
        ensures exists t :: 0 <= t < |targets| && FoundUnder(targets[t], p)
      {
        if p in FoundFiles(listingOf, init) {
          var t :| 0 <= t < |init| && FoundUnder(init[t], p);
          assert targets[t] == init[t];
        } else {
          assert FoundUnder(targets[|targets| - 1], p);
        }
      }
    }
  }

  /**
   * The scanned files are distinct `.tsx` paths below one of the targets and
   * outside the excluded prefixes, in sorted order.
   */
  lemma ScannedFilesWellFormed(listingOf: string -> Listing)
    ensures var files := ScanFiles(listingOf);
      && (forall i, j :: 0 <= i < j < |files| ==> files[i] != files[j])
      && (forall p :: p in files ==> exists t :: 0 <= t < |TARGETS| && FoundUnder(TARGETS[t], p))
  {
    var files := ScanFiles(listingOf);
    StringOrder.SortedHasNoDuplicates(files);
    FoundFilesSound(listingOf, TARGETS);
  }

  /** The whole run: the files found, then the failures collected over them. */
  method Lint(listingOf: string -> Listing, env: LintEnv) returns (failures: seq<Failure>)
    ensures failures == Failures(env, ScanFiles(listingOf))
  {
    var files := ScanFiles(listingOf);
    failures := CollectFailures(files, env);
  }
}
