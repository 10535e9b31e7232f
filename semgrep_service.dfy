/**
 * The post-processing logic of the engine service
 * (app/services/semgrep_service.py): turning the output of
 * `semgrep --list-configs` into a rule list with a fixed fallback, describing
 * the custom rule files found in `rules/custom`, and shaping the report of
 * a rule-configuration test run.
 *
 * Subprocess runs, directory listings, file reads and temporary files are
 * not performed here: their outcomes are parameters.
 */
module SemgrepService {
  import opened Wrappers
  import opened Text

  // ---------------------------------------------------------------- available rules

  /** What running `semgrep --list-configs` produced. */
  datatype CommandResult = CommandResult(returncode: int, stdout: string, stderr: string)

  /** The run either completed or raised an exception. */
  datatype CommandOutcome = Completed(result: CommandResult) | Raised(reason: string)

  predicate NoDuplicates(s: seq<string>) {
    forall i, j :: 0 <= i < j < |s| ==> s[i] != s[j]
  }

  /** _get_fallback_rules: the fixed list of well-known rule packs. */
  function FallbackRules(): (rules: seq<string>)
    ensures |rules| == 23
    ensures rules[0] == "auto"
    ensures forall i :: 1 <= i < |rules| ==> StartsWith(rules[i], "p/") || StartsWith(rules[i], "r/")
    ensures NoDuplicates(rules)
  {
    FallbackListWellFormed();
    ["auto"] + FallbackPacks + FallbackRegistryRules
  }

  /** The `p/` entries of the fallback list, in source order. */
  const FallbackPacks: seq<string> := [
    "p/security-audit", "p/owasp-top-ten", "p/cwe-top-25",
    "p/python", "p/javascript", "p/typescript", "p/java", "p/go", "p/php",
    "p/ruby", "p/c", "p/cpp", "p/csharp", "p/kotlin", "p/rust", "p/scala", "p/swift" ]

  /** The `r/` entries of the fallback list, in source order. */
  const FallbackRegistryRules: seq<string> := [
    "r/python.django.security", "r/python.flask.security",
    "r/javascript.express.security", "r/javascript.node-js.security",
    "r/java.spring.security" ]

  predicate AllStartWith(s: seq<string>, p: string) {
    forall i :: 0 <= i < |s| ==> StartsWith(s[i], p)
  }

  lemma FallbackPacksWellFormed()
    ensures |FallbackPacks| == 17 && AllStartWith(FallbackPacks, "p/") && NoDuplicates(FallbackPacks)
  {
  }

  lemma FallbackRegistryRulesWellFormed()
    ensures |FallbackRegistryRules| == 5 && AllStartWith(FallbackRegistryRules, "r/")
    ensures NoDuplicates(FallbackRegistryRules)
  {
  }

  /** Two lists without duplicates and with no entry in common concatenate
      to a list without duplicates. */
  lemma NoDuplicatesAppend(a: seq<string>, b: seq<string>)
    requires NoDuplicates(a) && NoDuplicates(b)
    requires forall i, j :: 0 <= i < |a| && 0 <= j < |b| ==> a[i] != b[j]
    ensures NoDuplicates(a + b)
  {
    forall i, j | 0 <= i < j < |a + b| ensures (a + b)[i] != (a + b)[j] {
      if j < |a| {
        assert (a + b)[i] == a[i] && (a + b)[j] == a[j];
      } else if i < |a| {
        assert (a + b)[i] == a[i] && (a + b)[j] == b[j - |a|];
      } else {
        assert (a + b)[i] == b[i - |a|] && (a + b)[j] == b[j - |a|];
      }
    }
  }

  /** Lists whose entries start with prefixes differing in their first
      character have no entry in common. */
  lemma PrefixesSeparate(a: seq<string>, p: string, b: seq<string>, q: string)
    requires |p| > 0 && |q| > 0 && p[0] != q[0]
    requires AllStartWith(a, p) && AllStartWith(b, q)
    ensures forall i, j :: 0 <= i < |a| && 0 <= j < |b| ==> a[i] != b[j]
  {
    forall i, j | 0 <= i < |a| && 0 <= j < |b| ensures a[i] != b[j] {
      assert a[i][0] == p[0] && b[j][0] == q[0];
    }
  }

  lemma FallbackListWellFormed()
    ensures var rules := ["auto"] + FallbackPacks + FallbackRegistryRules;
      && |rules| == 23 && rules[0] == "auto"
      && (forall i :: 1 <= i < |rules| ==> StartsWith(rules[i], "p/") || StartsWith(rules[i], "r/"))
      && NoDuplicates(rules)
  {
    var auto: seq<string> := ["auto"];
    FallbackPacksWellFormed();
    FallbackRegistryRulesWellFormed();
    assert AllStartWith(auto, "a");
    PrefixesSeparate(auto, "a", FallbackPacks, "p/");
    NoDuplicatesAppend(auto, FallbackPacks);
    var front := auto + FallbackPacks;
    assert AllStartWith(front[1..], "p/") by { assert front[1..] == FallbackPacks; }
    PrefixesSeparate(front[1..], "p/", FallbackRegistryRules, "r/");
    forall i, j | 0 <= i < |front| && 0 <= j < |FallbackRegistryRules|
      ensures front[i] != FallbackRegistryRules[j]
    {
      if i == 0 {
        assert front[0][0] == 'a' && FallbackRegistryRules[j][0] == 'r';
      } else {
        assert front[i] == front[1..][i - 1];
      }
    }
    NoDuplicatesAppend(front, FallbackRegistryRules);
    var rules := front + FallbackRegistryRules;
    forall i | 1 <= i < |rules| ensures StartsWith(rules[i], "p/") || StartsWith(rules[i], "r/") {
      if i < |front| {
        assert rules[i] == FallbackPacks[i - 1];
      } else {
        assert rules[i] == FallbackRegistryRules[i - |front|];
      }
    }
  }

  /** `[line.strip() for line in lines if line.strip()]` */
  function NonBlankStripped(lines: seq<string>): (rules: seq<string>)
    ensures |rules| <= |lines|
  {
    if lines == [] then []
    else
      var first := Strip(lines[0]);
      (if first != [] then [first] else []) + NonBlankStripped(lines[1..])
  }

  /** The rule list printed on standard output, one per line: every rule is
      non-blank, has no surrounding whitespace and no line break, there are
      no more rules than lines, non-blank output yields at least one rule,
      and the `strip()` of the whole output before splitting is redundant. */
  function ParseConfigList(stdout: string): (rules: seq<string>)
    ensures forall k :: 0 <= k < |rules| ==> rules[k] != [] && IsStripped(rules[k]) && '\n' !in rules[k]
    ensures |rules| <= |Split(Strip(stdout), '\n')|
    ensures Strip(stdout) != [] ==> rules != []
    ensures rules == NonBlankStripped(Split(stdout, '\n'))
  {
    ParsedRulesWellFormed(Strip(stdout));
    NonBlankOutputYieldsRules(stdout);
    OuterStripRedundant(stdout);
    NonBlankStripped(Split(Strip(stdout), '\n'))
  }

  /** get_available_rules: the parsed list when the command succeeded with
      non-blank output, otherwise the fallback list; never empty. */
  function AvailableRules(outcome: CommandOutcome): (rules: seq<string>)
    ensures outcome.Completed? && outcome.result.returncode == 0 && !AllSpace(outcome.result.stdout) ==>
      rules == ParseConfigList(outcome.result.stdout)
    ensures outcome.Raised? || outcome.result.returncode != 0 || AllSpace(outcome.result.stdout) ==>
      rules == FallbackRules()
    ensures rules != []
  {
    match outcome
    case Raised(_) => FallbackRules()
    case Completed(res) =>
      if res.returncode == 0 && Strip(res.stdout) != [] then ParseConfigList(res.stdout)
      else FallbackRules()
  }

  /** Filtering keeps the order of the lines: the result for a concatenation
      is the concatenation of the results. */
  lemma {:induction false} NonBlankStrippedAppend(a: seq<string>, b: seq<string>)
    ensures NonBlankStripped(a + b) == NonBlankStripped(a) + NonBlankStripped(b)
  {
    if a != [] {
      assert (a + b)[0] == a[0];
      assert (a + b)[1..] == a[1..] + b;
      NonBlankStrippedAppend(a[1..], b);
    } else {
      assert a + b == b;
    }
  }

  /** `x` is the stripped form of one of the lines. */
  predicate IsStrippedLine(x: string, lines: seq<string>) {
    exists k :: 0 <= k < |lines| && Strip(lines[k]) == x
  }

  /** The rules are exactly the stripped forms of the non-blank lines. */
  lemma {:induction false} NonBlankStrippedMembers(lines: seq<string>)
    ensures forall x :: x in NonBlankStripped(lines) <==> x != [] && IsStrippedLine(x, lines)
  {
    if lines != [] {
      NonBlankStrippedMembers(lines[1..]);
      forall x ensures IsStrippedLine(x, lines) <==> Strip(lines[0]) == x || IsStrippedLine(x, lines[1..]) {
        if IsStrippedLine(x, lines) {
          var k :| 0 <= k < |lines| && Strip(lines[k]) == x;
          if k > 0 { assert lines[1..][k - 1] == lines[k]; }
        }
        if IsStrippedLine(x, lines[1..]) {
          var k :| 0 <= k < |lines[1..]| && Strip(lines[1..][k]) == x;
          assert lines[k + 1] == lines[1..][k];
        }
      }
    }
  }

  /** Every rule read from the lines of a text is non-blank, has no
      surrounding whitespace and no line break. */
  lemma ParsedRulesWellFormed(text: string)
    ensures forall k :: 0 <= k < |NonBlankStripped(Split(text, '\n'))| ==>
      var rule := NonBlankStripped(Split(text, '\n'))[k];
      rule != [] && IsStripped(rule) && '\n' !in rule
  {
    var lines := Split(text, '\n');
    NonBlankStrippedMembers(lines);
    SplitPiecesFree(text, '\n');
    forall k | 0 <= k < |NonBlankStripped(lines)|
      ensures var rule := NonBlankStripped(lines)[k]; rule != [] && IsStripped(rule) && '\n' !in rule
    {
      var rule := NonBlankStripped(lines)[k];
      assert rule in NonBlankStripped(lines);
      var m :| 0 <= m < |lines| && Strip(lines[m]) == rule;
    }
  }

  /** Non-blank output always yields at least one rule. */
  lemma NonBlankOutputYieldsRules(stdout: string)
    ensures Strip(stdout) != [] ==> NonBlankStripped(Split(Strip(stdout), '\n')) != []
  {
    var t := Strip(stdout);
    if t != [] {
      assert !IsSpace(t[0]) && t[0] != '\n';
      SplitFirstPiece(t, '\n');
      var first := Split(t, '\n')[0];
      assert !IsSpace(first[0]);
      NonBlankStrippedMembers(Split(t, '\n'));
      assert Strip(first) in NonBlankStripped(Split(t, '\n'));
    }
  }

  /** Leading whitespace of the whole output does not change the rule list. */
  lemma {:induction false} LeadingSpaceIrrelevant(w: string, s: string)
    requires AllSpace(w)
    ensures NonBlankStripped(Split(w + s, '\n')) == NonBlankStripped(Split(s, '\n'))
  {
    if w != [] {
      var c := w[0];
      var w' := w[1..];
      assert AllSpace(w');
      assert w + s == [c] + (w' + s);
      assert ([c] + (w' + s))[1..] == w' + s;
      LeadingSpaceIrrelevant(w', s);
      var r := Split(w' + s, '\n');
      if c != '\n' {
        var lines := Split(w + s, '\n');
        StripDropsLeadingSpace(c, r[0]);
        assert lines == [[c] + r[0]] + r[1..];
        assert lines[1..] == r[1..];
        assert r == [r[0]] + r[1..];
        NonBlankStrippedAppend([r[0]], r[1..]);
        NonBlankStrippedAppend([[c] + r[0]], r[1..]);
        assert NonBlankStripped([[c] + r[0]]) == NonBlankStripped([r[0]]) by {
          assert [[c] + r[0]][1..] == [] && [r[0]][1..] == [];
        }
      } else {
        assert Split(w + s, '\n') == [[]] + r;
        assert ([[]] + r)[1..] == r;
      }
    } else {
      assert w + s == s;
    }
  }

  /** A final empty line contributes no rule. */
  lemma NonBlankStrippedDropsEmptyLast(lines: seq<string>)
    ensures NonBlankStripped(lines + [[]]) == NonBlankStripped(lines)
  {
    var blank: seq<string> := [[]];
    NonBlankStrippedAppend(lines, blank);
    assert NonBlankStripped(blank) == [] by {
      assert Strip([]) == [];
      assert blank[1..] == [];
    }
  }

  /** Two last lines with the same stripped form contribute the same rules. */
  lemma NonBlankStrippedSameLast(init: seq<string>, x: string, y: string)
    requires Strip(x) == Strip(y)
    ensures NonBlankStripped(init + [x]) == NonBlankStripped(init + [y])
  {
    NonBlankStrippedAppend(init, [x]);
    NonBlankStrippedAppend(init, [y]);
    assert [x][1..] == [] && [y][1..] == [];
  }

  /** A trailing line break only adds an empty last line, which gives no rule. */
  lemma TrailingNewlineIrrelevant(s: string)
    ensures NonBlankStripped(Split(s + ['\n'], '\n')) == NonBlankStripped(Split(s, '\n'))
  {
    SplitAppendSeparator(s, '\n');
    NonBlankStrippedDropsEmptyLast(Split(s, '\n'));
  }

  /** Other trailing whitespace only extends the last line, whose stripped
      form stays the same. */
  lemma TrailingBlankIrrelevant(s: string, c: char)
    requires IsSpace(c) && c != '\n'
    ensures NonBlankStripped(Split(s + [c], '\n')) == NonBlankStripped(Split(s, '\n'))
  {
    var r := Split(s, '\n');
    var n := |r|;
    SplitAppendOther(s, c, '\n');
    ExtendsLastEquation(r, Split(s + [c], '\n'), c);
    StripDropsTrailingSpace(r[n - 1], c);
    NonBlankStrippedSameLast(r[..n - 1], r[n - 1] + [c], r[n - 1]);
  }

  /** Trailing whitespace of the whole output does not change the rule list. */
  lemma {:induction false} TrailingSpaceIrrelevant(s: string, w: string)
    requires AllSpace(w)
    ensures NonBlankStripped(Split(s + w, '\n')) == NonBlankStripped(Split(s, '\n'))
    decreases |w|
  {
    if w != [] {
      var c := w[|w| - 1];
      var w' := w[..|w| - 1];
      assert AllSpace(w');
      assert s + w == (s + w') + [c];
      TrailingSpaceIrrelevant(s, w');
      if c == '\n' {
        TrailingNewlineIrrelevant(s + w');
      } else {
        TrailingBlankIrrelevant(s + w', c);
      }
    } else {
      assert s + w == s;
    }
  }

  /** The `strip()` of the whole output before splitting is redundant: the
      rule list is the same as splitting the raw output. */
  lemma OuterStripRedundant(stdout: string)
    ensures NonBlankStripped(Split(Strip(stdout), '\n')) == NonBlankStripped(Split(stdout, '\n'))
  {
    var i, j := StripInfix(stdout);
    assert stdout == stdout[..i] + (stdout[i..j] + stdout[j..]);
    LeadingSpaceIrrelevant(stdout[..i], stdout[i..j] + stdout[j..]);
    TrailingSpaceIrrelevant(stdout[i..j], stdout[j..]);
  }

  // ---------------------------------------------------------------- custom rule files

  /** The part of `os.stat` the report uses (the modification time is left out). */
  datatype FileStat = FileStat(size: nat)

  /** One name in the directory listing, with what stat and reading it give. */
  datatype DirEntry = DirEntry(name: string, stat: Option<FileStat>, content: Option<string>)

  /** The custom rules directory: absent, present but not listable, or listed. */
  datatype CustomDir = Missing | Unlistable | Listed(entries: seq<DirEntry>)

  datatype CustomRuleFile = CustomRuleFile(filename: string, path: string, size: nat, ruleCount: nat)

  const RulePattern: string := "- id:"

  predicate IsRuleFileName(name: string) {
    EndsWith(name, ".yml") || EndsWith(name, ".yaml")
  }

  /** The number of `- id:` occurrences, or 0 when the file cannot be read.
      Since the pattern cannot overlap itself, the count of a readable file
      is the number of positions where it occurs: zero exactly when it occurs
      nowhere, and never more than fit in the file side by side. */
  function RuleCount(content: Option<string>): (n: nat)
    ensures content.None? ==> n == 0
    ensures content.Some? ==> n == Occurrences(content.value, RulePattern)
    ensures content.Some? ==> (n == 0 <==> forall i :: !OccursAt(content.value, RulePattern, i))
    ensures content.Some? ==> n * |RulePattern| <= |content.value|
  {
    match content
    case None => 0
    case Some(text) =>
      RulePatternNoSelfOverlap();
      CountIsOccurrences(text, RulePattern);
      CountZeroIff(text, RulePattern);
      Count(text, RulePattern)
  }

  /** An entry shows up in the report when it is a YAML file that can be stat'ed. */
  predicate Reported(e: DirEntry) {
    IsRuleFileName(e.name) && e.stat.Some?
  }

  function Describe(e: DirEntry): CustomRuleFile
    requires e.stat.Some?
  {
    CustomRuleFile(e.name, "rules/custom/" + e.name, e.stat.value.size, RuleCount(e.content))
  }

  /** The report for a listing, built by appending one entry at a time: a
      report entry exists exactly for each YAML file that could be stat'ed. */
  function CustomRulesOf(entries: seq<DirEntry>): (report: seq<CustomRuleFile>)
    ensures forall r :: r in report <==> DescribesReported(r, entries)
    ensures |report| <= |entries|
  {
    if entries == [] then []
    else
      var last := entries[|entries| - 1];
      DescribesReportedSnoc(entries);
      CustomRulesOf(entries[..|entries| - 1]) + (if Reported(last) then [Describe(last)] else [])
  }

  /** The report for the custom rules directory: every reported file is a
      `.yml`/`.yaml` file whose path is under `rules/custom/`; a missing or
      unlistable directory reports nothing. */
  function CustomRulesInfo(dir: CustomDir): (report: seq<CustomRuleFile>)
    ensures forall r :: r in report ==> IsRuleFileName(r.filename) && r.path == "rules/custom/" + r.filename
    ensures dir.Missing? || dir.Unlistable? ==> report == []
    ensures dir.Listed? ==> forall r :: r in report <==> DescribesReported(r, dir.entries)
  {
    match dir
    case Missing => []
    case Unlistable => []
    case Listed(entries) => CustomRulesOf(entries)
  }

  /** get_custom_rules_info */
  method GetCustomRulesInfo(dir: CustomDir) returns (customRules: seq<CustomRuleFile>)
    ensures customRules == CustomRulesInfo(dir)
  {
    customRules := [];
    if !dir.Listed? {
      return;
    }
    var entries := dir.entries;
    var i := 0;
    while i < |entries|
      invariant 0 <= i <= |entries|
      invariant customRules == CustomRulesOf(entries[..i])
    {
      var entry := entries[i];
      assert entries[..i + 1][..i] == entries[..i];
      if IsRuleFileName(entry.name) {
        match entry.stat
        case Some(stat) =>
          var ruleCount := 0;
          if entry.content.Some? {
            ruleCount := Count(entry.content.value, RulePattern);
          }
          customRules := customRules + [CustomRuleFile(entry.name, "rules/custom/" + entry.name, stat.size, ruleCount)];
        case None =>
      }
      i := i + 1;
    }
    assert entries[..i] == entries;
  }

  /** The report keeps listing order: it distributes over concatenation. */
  lemma {:induction false} CustomRulesAppend(a: seq<DirEntry>, b: seq<DirEntry>)
    ensures CustomRulesOf(a + b) == CustomRulesOf(a) + CustomRulesOf(b)
    decreases |b|
  {
    if b == [] {
      assert a + b == a;
    } else {
      var b' := b[..|b| - 1];
      assert (a + b)[..|a + b| - 1] == a + b';
      assert (a + b)[|a + b| - 1] == b[|b| - 1];
      CustomRulesAppend(a, b');
    }
  }

  /** `r` describes one of the reported entries. */
  predicate DescribesReported(r: CustomRuleFile, entries: seq<DirEntry>) {
    exists k :: 0 <= k < |entries| && Reported(entries[k]) && r == Describe(entries[k])
  }

  /** A listing's last entry adds at most its own description to those of
      the entries before it. */
  lemma DescribesReportedSnoc(entries: seq<DirEntry>)
    requires entries != []
    ensures var n := |entries| - 1;
      forall r :: DescribesReported(r, entries) <==>
        DescribesReported(r, entries[..n]) || (Reported(entries[n]) && r == Describe(entries[n]))
  {
    var n := |entries| - 1;
    var init := entries[..n];
    forall r ensures DescribesReported(r, entries) <==>
                     DescribesReported(r, init) || (Reported(entries[n]) && r == Describe(entries[n])) {
      if DescribesReported(r, entries) {
        var k :| 0 <= k < |entries| && Reported(entries[k]) && r == Describe(entries[k]);
        if k < n { assert init[k] == entries[k]; }
      }
      if DescribesReported(r, init) {
        var k :| 0 <= k < |init| && Reported(init[k]) && r == Describe(init[k]);
        assert entries[k] == init[k];
      }
    }
  }

  /** `- id:` cannot overlap itself: only its first character is `-`. */
  lemma RulePatternNoSelfOverlap()
    ensures NoSelfOverlap(RulePattern)
  {
    forall k | 0 < k < |RulePattern|
      ensures RulePattern[k..] != RulePattern[..|RulePattern| - k]
    {
      assert RulePattern[k..][0] == RulePattern[k] != '-';
      assert RulePattern[..|RulePattern| - k][0] == '-';
    }
  }

  // ---------------------------------------------------------------- rule configuration test

  /** Creating and writing the temporary test file: it is created and
      written, it cannot be created, or it is created but writing or closing
      it raises. */
  datatype TempFile =
    | Created(path: string)
    | CreateFailed(reason: string)
    | WriteFailed(path: string, reason: string)

  /** Running the engine on the test file with the configuration. */
  datatype EngineRun = Ran(findingsCount: nat, errors: seq<string>) | RunFailed(reason: string)

  datatype RuleConfigReport =
    | Working(config: string, findingsCount: nat, hasFindings: bool, errors: seq<string>)
    | Broken(config: string, error: string)

  /** test_rule_config: run the engine on a temporary file, remove the file
      afterwards whether or not the run raised, and report the exception
      that escaped, if any.  A failure to remove the file replaces the
      outcome of the run.  A file whose writing raised is never removed:
      the exception leaves before the removal is set up. */
  method TestRuleConfig(config: string, temp: TempFile, run: EngineRun, unlinkFailure: Option<string>)
    returns (report: RuleConfigReport, removed: bool, leaked: bool)
    ensures report.config == config
    ensures report.Working? <==> temp.Created? && run.Ran? && unlinkFailure.None?
    ensures report.Working? ==>
      report.findingsCount == run.findingsCount && report.errors == run.errors
      && (report.hasFindings <==> report.findingsCount > 0)
    ensures report.Broken? ==>
      report.error == (if !temp.Created? then temp.reason
                       else if unlinkFailure.Some? then unlinkFailure.value
                       else run.reason)
    ensures removed <==> temp.Created? && unlinkFailure.None?
    ensures leaked <==> temp.WriteFailed? || (temp.Created? && unlinkFailure.Some?)
  {
    var raised: Option<string> := None;
    var result: Option<RuleConfigReport> := None;
    removed, leaked := false, false;
    match temp {
      case CreateFailed(reason) =>
        raised := Some(reason);
      case WriteFailed(_, reason) =>
        raised := Some(reason);
        leaked := true;
      case Created(_) =>
        match run {
          case Ran(n, errs) =>
            result := Some(Working(config, n, n > 0, errs));
          case RunFailed(reason) =>
            raised := Some(reason);
        }
        // finally: the file is removed on both paths
        match unlinkFailure {
          case Some(reason) =>
            raised := Some(reason);
            result := None;
            leaked := true;
          case None =>
            removed := true;
        }
    }
    if raised.Some? {
      report := Broken(config, raised.value);
    } else {
      report := result.value;
    }
  }
}
