/** The rulebook checker of src/validators/rule_validator.py: literal substring checks of
    a convention document against fixed checklists, a search for fixed dangerous phrasings,
    a list of advisories and a six-item completeness rubric. */
module RuleValidation {
  import opened Text

  // ---------------------------------------------------------------------------
  // Fixed configuration
  // ---------------------------------------------------------------------------

  const RequiredRules: seq<string> := [
    "RULE ACKNOWLEDGMENT REQUIRED",
    "ABSOLUTE PROHIBITIONS",
    "MANDATORY REQUIREMENTS",
    "PRE-TASK COMPLIANCE CHECK"
  ]

  const RequiredProhibitions: seq<string> := [
    "NEVER create new files in root directory",
    "NEVER use git commands with -i flag",
    "NEVER create duplicate files",
    "NEVER create multiple implementations"
  ]

  const RequiredRequirements: seq<string> := [
    "COMMIT after every completed task",
    "GITHUB BACKUP",
    "USE TASK AGENTS",
    "TODOWRITE for complex tasks",
    "READ FILES FIRST"
  ]

  /** The four section titles the title-structure check looks for. */
  const RequiredTitles: seq<string> := [
    "CRITICAL RULES - READ FIRST",
    "RULE ACKNOWLEDGMENT REQUIRED",
    "ABSOLUTE PROHIBITIONS",
    "MANDATORY REQUIREMENTS"
  ]

  const AcknowledgmentMarker: string := "✅ CRITICAL RULES ACKNOWLEDGED"

  const TitleStructureError: string := "缺少必要的標題結構"
  const AcknowledgmentError: string := "缺少規則確認系統"

  // ---------------------------------------------------------------------------
  // Reports
  // ---------------------------------------------------------------------------

  datatype StructureReport = StructureReport(
    valid: bool,
    errors: seq<string>,
    warnings: seq<string>,
    missingRules: seq<string>,
    missingProhibitions: seq<string>,
    missingRequirements: seq<string>)

  datatype SafetyReport = SafetyReport(valid: bool, errors: seq<string>, warnings: seq<string>)

  datatype CompletenessReport = CompletenessReport(
    completenessScore: real,
    totalChecks: nat,
    passedChecks: nat,
    details: seq<string>)

  // ---------------------------------------------------------------------------
  // Checklists
  // ---------------------------------------------------------------------------

  /** The items of a checklist that do not occur in the document, in checklist order. */
  function Missing(items: seq<string>, content: string): seq<string>
  {
    if |items| == 0 then []
    else
      var last := items[|items| - 1];
      Missing(items[..|items| - 1], content) + (if Contains(content, last) then [] else [last])
  }

  /** Missing keeps exactly the absent items, in checklist order; it is empty exactly when
      every item occurs. */
  lemma MissingIsExactlyTheAbsentItems(items: seq<string>, content: string)
    ensures forall x :: x in Missing(items, content) <==> x in items && !Contains(content, x)
    ensures IsSubsequence(Missing(items, content), items)
    ensures Missing(items, content) == [] <==> forall x :: x in items ==> Contains(content, x)
  {
    MissingMembers(items, content);
    MissingKeepsOrder(items, content);
    var m := Missing(items, content);
    if m != [] {
      assert m[0] in m;
    }
  }

  lemma {:induction false} MissingMembers(items: seq<string>, content: string)
    ensures forall x :: x in Missing(items, content) <==> x in items && !Contains(content, x)
    decreases |items|
  {
    if |items| > 0 {
      var init, last := items[..|items| - 1], items[|items| - 1];
      MissingMembers(init, content);
      assert items == init + [last];
    }
  }

  lemma {:induction false} MissingKeepsOrder(items: seq<string>, content: string)
    ensures IsSubsequence(Missing(items, content), items)
    decreases |items|
  {
    if |items| > 0 {
      var init, last := items[..|items| - 1], items[|items| - 1];
      MissingKeepsOrder(init, content);
      var m := Missing(items, content);
      if !Contains(content, last) {
        assert m[..|m| - 1] == Missing(init, content);
      } else {
        assert m == Missing(init, content);
      }
    }
  }

  /** An empty document misses every item of a checklist of non-empty phrases. */
  lemma {:induction false} MissingFromEmpty(items: seq<string>)
    requires forall i :: 0 <= i < |items| ==> |items[i]| > 0
    ensures Missing(items, "") == items
    decreases |items|
  {
    if |items| > 0 {
      MissingFromEmpty(items[..|items| - 1]);
      assert items[..|items| - 1] + [items[|items| - 1]] == items;
    }
  }

  /** `_check_title_structure`: all four titles occur, in any order. */
  predicate HasTitleStructure(content: string) {
    forall t :: t in RequiredTitles ==> Contains(content, t)
  }

  /** `_check_acknowledgment_system`. */
  predicate HasAcknowledgment(content: string)
    ensures HasAcknowledgment(content) <==> exists k :: OccursAt(content, AcknowledgmentMarker, k)
  {
    ContainsIff(content, AcknowledgmentMarker);
    Contains(content, AcknowledgmentMarker)
  }

  /** On an empty document all 13 checklist items are missing and both structural checks fail. */
  lemma EmptyDocumentMissesEverything()
    ensures Missing(RequiredRules, "") == RequiredRules
    ensures Missing(RequiredProhibitions, "") == RequiredProhibitions
    ensures Missing(RequiredRequirements, "") == RequiredRequirements
    ensures |RequiredRules| + |RequiredProhibitions| + |RequiredRequirements| == 13
    ensures !HasTitleStructure("") && !HasAcknowledgment("")
  {
    MissingFromEmpty(RequiredRules);
    MissingFromEmpty(RequiredProhibitions);
    MissingFromEmpty(RequiredRequirements);
    assert !Contains("", RequiredTitles[0]);
  }

  // ---------------------------------------------------------------------------
  // Dangerous phrasings
  // ---------------------------------------------------------------------------

  /** One of the fixed case-insensitive regular expressions `(?i)w1.*w2.*...`: its text
      and the words it requires, in order. */
  datatype DangerousPattern = DangerousPattern(source: string, words: seq<string>)

  const DangerousPatterns: seq<DangerousPattern> := [
    DangerousPattern("(?i)allow.*root.*files", ["allow", "root", "files"]),
    DangerousPattern("(?i)skip.*backup", ["skip", "backup"]),
    DangerousPattern("(?i)ignore.*safety", ["ignore", "safety"]),
    DangerousPattern("(?i)disable.*validation", ["disable", "validation"])
  ]

  function DangerMessage(p: DangerousPattern): string {
    "發現可能危險的規則: " + p.source
  }

  /** Character c of the text matches the ASCII pattern letter p under Python's
      case-insensitive `re` matching: the two are equal once lower-cased, or c is one of the
      four non-ASCII letters that `re` also equates with `i`, `k` or `s`: capital I with dot
      (U+0130), dotless i (U+0131), the Kelvin sign (U+212A) and long s (U+017F). */
  predicate CaseFoldMatch(c: char, p: char) {
    ToLowerAscii(c) == ToLowerAscii(p)
    || (ToLowerAscii(p) == 'i' && (c == '\U{0130}' || c == '\U{0131}'))
    || (ToLowerAscii(p) == 'k' && c == '\U{212A}')
    || (ToLowerAscii(p) == 's' && c == '\U{017F}')
  }

  /** w occurs in s at position k, ignoring case as `re` does for the pattern letters. */
  predicate MatchesAt(s: string, k: nat, w: string) {
    k + |w| <= |s| && forall i :: 0 <= i < |w| ==> CaseFoldMatch(s[k + i], w[i])
  }

  /** The words occur in s at or after `from`, one after the other and without overlapping,
      ignoring case as `re` does for the pattern letters: what `w1.*w2.*...` matches
      within a newline-free string. */
  ghost predicate InOrder(s: string, from: nat, words: seq<string>)
    decreases |words|
  {
    |words| == 0 ||
    exists k :: from <= k && MatchesAt(s, k, words[0]) && InOrder(s, k + |words[0]|, words[1..])
  }

  /** `re.search(p.source, content)` succeeds: since `.` does not match a newline, the
      words must occur in order inside one line. */
  ghost predicate PatternMatches(p: DangerousPattern, content: string) {
    exists i :: 0 <= i < |Split(content)| && InOrder(Split(content)[i], 0, p.words)
  }

  /** The first position at or after `from` where w occurs in s, ignoring case as `re` does
      for the pattern letters. */
  function FindIgnoringCase(s: string, w: string, from: nat): (r: Option<nat>)
    ensures r.Some? ==> from <= r.value && MatchesAt(s, r.value, w)
                        && forall j :: from <= j < r.value ==> !MatchesAt(s, j, w)
    ensures r.None? ==> forall j :: from <= j ==> !MatchesAt(s, j, w)
    decreases |s| - from
  {
    if from + |w| > |s| then None
    else if MatchesAt(s, from, w) then Some(from)
    else FindIgnoringCase(s, w, from + 1)
  }

  /** Leftmost search for the words in order, from position `from` on. */
  function SearchInOrder(s: string, from: nat, words: seq<string>): bool
    decreases |words|
  {
    if |words| == 0 then true
    else match FindIgnoringCase(s, words[0], from)
      case None => false
      case Some(k) => SearchInOrder(s, k + |words[0]|, words[1..])
  }

  /** Words found in order from some position are found in order from any earlier one. */
  lemma InOrderFromEarlier(s: string, i: nat, j: nat, words: seq<string>)
    requires i <= j && InOrder(s, j, words)
    ensures InOrder(s, i, words)
  {
    if |words| > 0 {
      var k :| j <= k && MatchesAt(s, k, words[0]) && InOrder(s, k + |words[0]|, words[1..]);
      assert i <= k;
    }
  }

  /** The leftmost search decides InOrder: taking the earliest occurrence of each word
      never loses a match. */
  lemma {:induction false} SearchInOrderDecidesInOrder(s: string, from: nat, words: seq<string>)
    ensures SearchInOrder(s, from, words) <==> InOrder(s, from, words)
    decreases |words|
  {
    if |words| > 0 {
      var w := words[0];
      match FindIgnoringCase(s, w, from)
      case None =>
      case Some(e) =>
        SearchInOrderDecidesInOrder(s, e + |w|, words[1..]);
        if InOrder(s, from, words) {
          EarliestKeepsMatch(s, from, words, e);
        }
    }
  }

  /** If the words occur in order from `from`, the rest of them still occur after the
      earliest occurrence e of the first word. */
  lemma EarliestKeepsMatch(s: string, from: nat, words: seq<string>, e: nat)
    requires |words| > 0 && FindIgnoringCase(s, words[0], from) == Some(e) && InOrder(s, from, words)
    ensures InOrder(s, e + |words[0]|, words[1..])
  {
    var w := words[0];
    var k :| from <= k && MatchesAt(s, k, w) && InOrder(s, k + |w|, words[1..]);
    InOrderFromEarlier(s, e + |w|, k + |w|, words[1..]);
  }

  /** The executable form of `re.search(p.source, content)`. */
  function Search(p: DangerousPattern, content: string): bool {
    exists line | line in Split(content) :: SearchInOrder(line, 0, p.words)
  }

  /** Search succeeds exactly when the regular expression matches somewhere in the document. */
  lemma SearchIsRegexSearch(p: DangerousPattern, content: string)
    ensures Search(p, content) <==> PatternMatches(p, content)
  {
    var lines := Split(content);
    forall i | 0 <= i < |lines| ensures SearchInOrder(lines[i], 0, p.words) <==> InOrder(lines[i], 0, p.words) {
      SearchInOrderDecidesInOrder(lines[i], 0, p.words);
    }
  }

  /** The error list of `validate_safety_rules`: one message per matching pattern, in pattern order. */
  function DangerFindings(patterns: seq<DangerousPattern>, content: string): seq<string>
  {
    if |patterns| == 0 then []
    else
      var last := patterns[|patterns| - 1];
      DangerFindings(patterns[..|patterns| - 1], content)
        + (if Search(last, content) then [DangerMessage(last)] else [])
  }

  /** One more pattern extends the findings by its message, if it matches. */
  lemma DangerFindingsStep(patterns: seq<DangerousPattern>, i: nat, content: string)
    requires i < |patterns|
    ensures DangerFindings(patterns[..i + 1], content) ==
      DangerFindings(patterns[..i], content) + (if Search(patterns[i], content) then [DangerMessage(patterns[i])] else [])
  {
    assert patterns[..i + 1][..i] == patterns[..i];
  }

  function DangerMessages(patterns: seq<DangerousPattern>): seq<string>
  {
    seq(|patterns|, i requires 0 <= i < |patterns| => DangerMessage(patterns[i]))
  }

  /** The findings name exactly the matching patterns, in pattern order, at most one each. */
  lemma DangerFindingsAreTheMatchingPatterns(patterns: seq<DangerousPattern>, content: string)
    ensures |DangerFindings(patterns, content)| <= |patterns|
    ensures IsSubsequence(DangerFindings(patterns, content), DangerMessages(patterns))
    ensures forall e :: e in DangerFindings(patterns, content) <==>
              exists p :: p in patterns && e == DangerMessage(p) && PatternMatches(p, content)
  {
    DangerFindingsKeepOrder(patterns, content);
    DangerFindingsMembers(patterns, content);
  }

  lemma {:induction false} DangerFindingsKeepOrder(patterns: seq<DangerousPattern>, content: string)
    ensures |DangerFindings(patterns, content)| <= |patterns|
    ensures IsSubsequence(DangerFindings(patterns, content), DangerMessages(patterns))
    decreases |patterns|
  {
    if |patterns| > 0 {
      var init, last := patterns[..|patterns| - 1], patterns[|patterns| - 1];
      DangerFindingsKeepOrder(init, content);
      var ms := DangerMessages(patterns);
      assert ms[..|ms| - 1] == DangerMessages(init);
      var f := DangerFindings(patterns, content);
      if Search(last, content) {
        assert f[..|f| - 1] == DangerFindings(init, content);
      } else {
        assert f == DangerFindings(init, content);
      }
    }
  }

  lemma {:induction false} DangerFindingsMembers(patterns: seq<DangerousPattern>, content: string)
    ensures forall e :: e in DangerFindings(patterns, content) <==>
              exists p :: p in patterns && e == DangerMessage(p) && PatternMatches(p, content)
    decreases |patterns|
  {
    if |patterns| > 0 {
      var init, last := patterns[..|patterns| - 1], patterns[|patterns| - 1];
      DangerFindingsMembers(init, content);
      SearchIsRegexSearch(last, content);
      assert patterns == init + [last];
      var f := DangerFindings(patterns, content);
      forall e ensures e in f <==> exists p :: p in patterns && e == DangerMessage(p) && PatternMatches(p, content) {
        if e in f && e !in DangerFindings(init, content) {
          assert e == DangerMessage(last) && PatternMatches(last, content);
        }
        if exists p :: p in patterns && e == DangerMessage(p) && PatternMatches(p, content) {
          var p :| p in patterns && e == DangerMessage(p) && PatternMatches(p, content);
          if p != last {
            assert p in init;
          }
        }
      }
    }
  }

  /** A piece w of a phrase found at k in s matches at the same offset, ignoring case. */
  lemma MatchesWithinOccurrence(s: string, phrase: string, k: nat, off: nat, w: string)
    requires OccursAt(s, phrase, k) && off + |w| <= |phrase| && phrase[off..off + |w|] == w
    ensures MatchesAt(s, k + off, w)
  {
    forall i | 0 <= i < |w| ensures s[k + off + i] == w[i] {
      assert s[k + off + i] == s[k..k + |phrase|][off + i] == phrase[off + i];
      assert w[i] == phrase[off..off + |w|][i];
    }
  }

  /** The phrase "allow root files" in a line is a match of `(?i)allow.*root.*files`. */
  lemma AllowRootFilesInOrder(line: string, k: nat)
    requires OccursAt(line, "allow root files", k)
    ensures InOrder(line, 0, ["allow", "root", "files"])
  {
    var phrase := "allow root files";
    MatchesWithinOccurrence(line, phrase, k, 0, "allow");
    MatchesWithinOccurrence(line, phrase, k, 6, "root");
    MatchesWithinOccurrence(line, phrase, k, 11, "files");
    assert InOrder(line, k + 16, []);
    assert InOrder(line, k + 10, ["files"]);
    assert InOrder(line, k + 5, ["root", "files"]);
  }

  /** A document that says "allow root files" anywhere matches the first dangerous pattern. */
  lemma {:induction false} AllowRootFilesIsDangerous(content: string)
    requires Contains(content, "allow root files")
    ensures PatternMatches(DangerousPatterns[0], content)
    ensures DangerFindings(DangerousPatterns, content) != []
  {
    var phrase := "allow root files";
    ContainsWithinLine(content, phrase);
    var lines := Split(content);
    var i :| 0 <= i < |lines| && Contains(lines[i], phrase);
    ContainsIff(lines[i], phrase);
    var k :| OccursAt(lines[i], phrase, k);
    AllowRootFilesInOrder(lines[i], k);
    var p := DangerousPatterns[0];
    assert p.words == ["allow", "root", "files"];
    assert PatternMatches(p, content);
    DangerFindingsAreTheMatchingPatterns(DangerousPatterns, content);
    assert p in DangerousPatterns;
    assert DangerMessage(p) in DangerFindings(DangerousPatterns, content);
  }

  /** A long s still spells "skip": "ſkip backup" matches the second pattern and is reported. */
  lemma LongSkipIsDangerous()
    ensures Search(DangerousPatterns[1], "\U{017F}kip backup")
    ensures DangerMessage(DangerousPatterns[1]) in DangerFindings(DangerousPatterns, "\U{017F}kip backup")
  {
    var line := "\U{017F}kip backup";
    var p := DangerousPatterns[1];
    assert p.words == ["skip", "backup"];
    SplitSingle(line);
    LongSkipInOrder();
    assert PatternMatches(p, line) by {
      assert Split(line)[0] == line;
    }
    SearchIsRegexSearch(p, line);
    DangerFindingsAreTheMatchingPatterns(DangerousPatterns, line);
    assert p in DangerousPatterns;
  }

  /** The words of `skip.*backup` occur in order in "ſkip backup". */
  lemma LongSkipInOrder()
    ensures InOrder("\U{017F}kip backup", 0, ["skip", "backup"])
  {
    var line := "\U{017F}kip backup";
    assert MatchesAt(line, 0, "skip") by {
      assert CaseFoldMatch(line[0], 's');
    }
    assert MatchesAt(line, 5, "backup");
    assert InOrder(line, 5, ["backup"]) by {
      var ws: seq<string> := ["backup"];
      assert ws[0] == "backup" && ws[1..] == [];
      assert MatchesAt(line, 5, ws[0]) && InOrder(line, 5 + |ws[0]|, ws[1..]);
    }
    assert ["skip", "backup"][1..] == ["backup"];
  }

  /** An empty document matches no dangerous pattern, so its safety report is valid. */
  lemma EmptyDocumentIsSafe()
    ensures DangerFindings(DangerousPatterns, "") == []
  {
    forall p | p in DangerousPatterns ensures !Search(p, "") {
      SearchIsRegexSearch(p, "");
      assert Split("") == [""];
      assert |p.words| > 0 && |p.words[0]| > 0;
    }
    NoFindingsWithoutMatch(DangerousPatterns, "");
  }

  lemma {:induction false} NoFindingsWithoutMatch(patterns: seq<DangerousPattern>, content: string)
    requires forall p :: p in patterns ==> !Search(p, content)
    ensures DangerFindings(patterns, content) == []
    decreases |patterns|
  {
    if |patterns| > 0 {
      NoFindingsWithoutMatch(patterns[..|patterns| - 1], content);
    }
  }

  // ---------------------------------------------------------------------------
  // Advisories
  // ---------------------------------------------------------------------------

  /** The five advisories of `suggest_improvements`, in the order they are considered. */
  datatype Advice = AddVersion | AddLastUpdated | AddProjectDescription | AddCommonCommands | AddWorkflow

  const AdviceOrder: seq<Advice> := [AddVersion, AddLastUpdated, AddProjectDescription, AddCommonCommands, AddWorkflow]

  /** The marker whose presence makes the advisory unnecessary. */
  predicate AdviceSatisfied(a: Advice, content: string) {
    match a
    case AddVersion => Contains(content, "Documentation Version")
    case AddLastUpdated => Contains(content, "Last Updated")
    case AddProjectDescription => Contains(content, "Project") || Contains(content, "Description")
    case AddCommonCommands => Contains(content, "COMMON COMMANDS")
    case AddWorkflow => Contains(content, "WORKFLOW")
  }

  function AdviceText(a: Advice): string {
    match a
    case AddVersion => "建議添加文檔版本資訊"
    case AddLastUpdated => "建議添加最後更新時間"
    case AddProjectDescription => "建議添加專案描述"
    case AddCommonCommands => "建議添加常用命令章節"
    case AddWorkflow => "建議添加工作流程指南"
  }

  /** The texts of the advisories among `advice` whose marker is absent, in order. */
  function Suggestions(advice: seq<Advice>, content: string): seq<string>
  {
    if |advice| == 0 then []
    else
      var last := advice[|advice| - 1];
      Suggestions(advice[..|advice| - 1], content)
        + (if AdviceSatisfied(last, content) then [] else [AdviceText(last)])
  }

  function AdviceTexts(advice: seq<Advice>): seq<string>
  {
    seq(|advice|, i requires 0 <= i < |advice| => AdviceText(advice[i]))
  }

  lemma {:induction false} SuggestionsKeepOrder(advice: seq<Advice>, content: string)
    ensures IsSubsequence(Suggestions(advice, content), AdviceTexts(advice))
    decreases |advice|
  {
    if |advice| > 0 {
      var init, last := advice[..|advice| - 1], advice[|advice| - 1];
      SuggestionsKeepOrder(init, content);
      var ts := AdviceTexts(advice);
      assert ts[..|ts| - 1] == AdviceTexts(init);
      var s := Suggestions(advice, content);
      if !AdviceSatisfied(last, content) {
        assert s[..|s| - 1] == Suggestions(init, content);
      } else {
        assert s == Suggestions(init, content);
      }
    }
  }

  lemma {:induction false} SuggestionsMembers(advice: seq<Advice>, content: string)
    ensures forall a :: AdviceText(a) in Suggestions(advice, content) <==> a in advice && !AdviceSatisfied(a, content)
    ensures forall x :: x in Suggestions(advice, content) ==> exists a :: x == AdviceText(a) && !AdviceSatisfied(a, content)
    decreases |advice|
  {
    if |advice| > 0 {
      var init, last := advice[..|advice| - 1], advice[|advice| - 1];
      SuggestionsMembers(init, content);
      assert advice == init + [last];
    }
  }

  /** Each advisory appears iff its marker is absent, in the fixed order; there are none
      exactly when all five markers are present. */
  lemma SuggestionsCharacterized(content: string)
    ensures forall a :: AdviceText(a) in Suggestions(AdviceOrder, content) <==> !AdviceSatisfied(a, content)
    ensures IsSubsequence(Suggestions(AdviceOrder, content), AdviceTexts(AdviceOrder))
    ensures Suggestions(AdviceOrder, content) == [] <==> forall a :: AdviceSatisfied(a, content)
  {
    forall a ensures a in AdviceOrder {
      match a
      case AddVersion => assert AdviceOrder[0] == a;
      case AddLastUpdated => assert AdviceOrder[1] == a;
      case AddProjectDescription => assert AdviceOrder[2] == a;
      case AddCommonCommands => assert AdviceOrder[3] == a;
      case AddWorkflow => assert AdviceOrder[4] == a;
    }
    SuggestionsOverAll(AdviceOrder, content);
  }

  /** Over a list that holds every advisory, the suggestions are the unsatisfied ones. */
  lemma SuggestionsOverAll(advice: seq<Advice>, content: string)
    requires forall a :: a in advice
    ensures forall a :: AdviceText(a) in Suggestions(advice, content) <==> !AdviceSatisfied(a, content)
    ensures IsSubsequence(Suggestions(advice, content), AdviceTexts(advice))
    ensures Suggestions(advice, content) == [] <==> forall a :: AdviceSatisfied(a, content)
  {
    SuggestionsKeepOrder(advice, content);
    SuggestionsMembers(advice, content);
    if Suggestions(advice, content) != [] {
      var x := Suggestions(advice, content)[0];
      assert x in Suggestions(advice, content);
      var a :| x == AdviceText(a) && !AdviceSatisfied(a, content);
    }
  }

  /** On a document with no markers at all, every advisory is given, in order. */
  lemma {:induction false} AllSuggestedOnEmpty(advice: seq<Advice>)
    ensures Suggestions(advice, "") == AdviceTexts(advice)
    decreases |advice|
  {
    if |advice| > 0 {
      var init, last := advice[..|advice| - 1], advice[|advice| - 1];
      AllSuggestedOnEmpty(init);
      assert !AdviceSatisfied(last, "");
      assert AdviceTexts(advice) == AdviceTexts(init) + [AdviceText(last)];
    }
  }

  // ---------------------------------------------------------------------------
  // Completeness rubric
  // ---------------------------------------------------------------------------

  datatype Check = Check(name: string, passed: bool)

  /** The six named checks of `check_completeness`, in source order. */
  function CompletenessChecks(content: string): (checks: seq<Check>)
    ensures |checks| == 6
    ensures (forall i :: 0 <= i < |checks| ==> checks[i].passed) <==>
      HasTitleStructure(content) && HasAcknowledgment(content) && Contains(content, "Documentation Version")
      && (Contains(content, "Project") || Contains(content, "Description"))
      && Contains(content, "COMMON COMMANDS") && Contains(content, "WORKFLOW")
  {
    var checks :=
      [ Check("標題結構", HasTitleStructure(content)),
        Check("規則確認系統", HasAcknowledgment(content)),
        Check("元數據", Contains(content, "Documentation Version")),
        Check("專案描述", Contains(content, "Project") || Contains(content, "Description")),
        Check("常用命令", Contains(content, "COMMON COMMANDS")),
        Check("工作流程", Contains(content, "WORKFLOW")) ];
    assert (forall i :: 0 <= i < |checks| ==> checks[i].passed) <==>
      checks[0].passed && checks[1].passed && checks[2].passed
      && checks[3].passed && checks[4].passed && checks[5].passed;
    checks
  }

  function CountPassed(checks: seq<Check>): nat
  {
    if |checks| == 0 then 0
    else CountPassed(checks[..|checks| - 1]) + (if checks[|checks| - 1].passed then 1 else 0)
  }

  /** At most every check passes, and all of them do exactly when the count is full. */
  lemma {:induction false} CountPassedBounds(checks: seq<Check>)
    ensures CountPassed(checks) <= |checks|
    ensures CountPassed(checks) == |checks| <==> forall c :: c in checks ==> c.passed
    ensures CountPassed(checks) == 0 <==> forall c :: c in checks ==> !c.passed
    decreases |checks|
  {
    if |checks| > 0 {
      var init := checks[..|checks| - 1];
      CountPassedBounds(init);
      assert checks == init + [checks[|checks| - 1]];
    }
  }

  /** The human-readable line of one check: marked ✅ exactly when it passed. */
  function DetailLine(c: Check): (line: string)
    ensures |line| > 2 + |c.name| && line[2..2 + |c.name|] == c.name
    ensures line[0] == '✅' <==> c.passed
  {
    if c.passed then "✅ " + c.name + ": 通過" else "❌ " + c.name + ": 缺少"
  }

  /** The detail lines of a list of checks, one per check, in order. */
  function DetailLines(checks: seq<Check>): (lines: seq<string>)
    ensures |lines| == |checks|
    ensures forall j :: 0 <= j < |checks| ==> lines[j] == DetailLine(checks[j])
  {
    if |checks| == 0 then []
    else DetailLines(checks[..|checks| - 1]) + [DetailLine(checks[|checks| - 1])]
  }

  /** The score of `check_completeness`: the passed share of the checks, times 100; 0 when
      there are no checks. */
  function Percentage(passed: nat, total: nat): (p: real)
    ensures total == 0 ==> p == 0.0
    ensures 0 < total && passed <= total ==> 0.0 <= p <= 100.0
    ensures 0 < total ==> (p == 100.0 <==> passed == total) && (p == 0.0 <==> passed == 0)
  {
    if total > 0 then (passed as real / total as real) * 100.0 else 0.0
  }

  /** An empty document passes none of the six checks. */
  lemma EmptyDocumentScoresZero()
    ensures CountPassed(CompletenessChecks("")) == 0
  {
    assert !Contains("", RequiredTitles[0]);
    CountPassedBounds(CompletenessChecks(""));
  }

  // ---------------------------------------------------------------------------
  // The validator
  // ---------------------------------------------------------------------------

  class RuleValidator {
    const requiredRules: seq<string>
    const requiredProhibitions: seq<string>
    const requiredRequirements: seq<string>

    constructor ()
      ensures requiredRules == RequiredRules
      ensures requiredProhibitions == RequiredProhibitions
      ensures requiredRequirements == RequiredRequirements
    {
      requiredRules := RequiredRules;
      requiredProhibitions := RequiredProhibitions;
      requiredRequirements := RequiredRequirements;
    }

    /** `validate_structure`: every absent checklist item is listed under its checklist, in
        order; the title and acknowledgment failures are the only errors, title first; the
        report is valid exactly when nothing is listed. */
    method ValidateStructure(content: string) returns (r: StructureReport)
      ensures r.missingRules == Missing(requiredRules, content)
      ensures r.missingProhibitions == Missing(requiredProhibitions, content)
      ensures r.missingRequirements == Missing(requiredRequirements, content)
      ensures TitleStructureError in r.errors <==> !HasTitleStructure(content)
      ensures AcknowledgmentError in r.errors <==> !HasAcknowledgment(content)
      ensures r.errors == [] || r.errors == [TitleStructureError] || r.errors == [AcknowledgmentError]
              || r.errors == [TitleStructureError, AcknowledgmentError]
      ensures r.warnings == []
      ensures r.valid <==> r.missingRules == [] && r.missingProhibitions == []
                           && r.missingRequirements == [] && r.errors == []
    {
      var valid := true;
      var missingRules: seq<string> := [];
      for i := 0 to |requiredRules|
        invariant missingRules == Missing(requiredRules[..i], content)
        invariant valid <==> missingRules == []
      {
        var rule := requiredRules[i];
        assert requiredRules[..i + 1][..i] == requiredRules[..i];
        if !Contains(content, rule) {
          missingRules := missingRules + [rule];
          valid := false;
        }
      }
      assert requiredRules[..|requiredRules|] == requiredRules;

      var missingProhibitions: seq<string> := [];
      for i := 0 to |requiredProhibitions|
        invariant missingProhibitions == Missing(requiredProhibitions[..i], content)
        invariant valid <==> missingRules == [] && missingProhibitions == []
      {
        var prohibition := requiredProhibitions[i];
        assert requiredProhibitions[..i + 1][..i] == requiredProhibitions[..i];
        if !Contains(content, prohibition) {
          missingProhibitions := missingProhibitions + [prohibition];
          valid := false;
        }
      }
      assert requiredProhibitions[..|requiredProhibitions|] == requiredProhibitions;

      var missingRequirements: seq<string> := [];
      for i := 0 to |requiredRequirements|
        invariant missingRequirements == Missing(requiredRequirements[..i], content)
        invariant valid <==> missingRules == [] && missingProhibitions == [] && missingRequirements == []
      {
        var requirement := requiredRequirements[i];
        assert requiredRequirements[..i + 1][..i] == requiredRequirements[..i];
        if !Contains(content, requirement) {
          missingRequirements := missingRequirements + [requirement];
          valid := false;
        }
      }
      assert requiredRequirements[..|requiredRequirements|] == requiredRequirements;

      var errors: seq<string> := [];
      var titled := CheckTitleStructure(content);
      if !titled {
        errors := errors + [TitleStructureError];
        valid := false;
      }
      if !HasAcknowledgment(content) {
        errors := errors + [AcknowledgmentError];
        valid := false;
      }
      r := StructureReport(valid, errors, [], missingRules, missingProhibitions, missingRequirements);
    }

    /** `_check_title_structure`: true exactly when every required title occurs. */
    method CheckTitleStructure(content: string) returns (ok: bool)
      ensures ok <==> HasTitleStructure(content)
    {
      for i := 0 to |RequiredTitles|
        invariant forall j :: 0 <= j < i ==> Contains(content, RequiredTitles[j])
      {
        if !Contains(content, RequiredTitles[i]) {
          return false;
        }
      }
      return true;
    }

    /** `validate_safety_rules`: one error per matching dangerous pattern, in pattern order;
        valid exactly when there is none; never a warning. */
    method ValidateSafetyRules(content: string) returns (r: SafetyReport)
      ensures r.errors == DangerFindings(DangerousPatterns, content)
      ensures r.valid <==> r.errors == []
      ensures r.warnings == []
    {
      var valid := true;
      var errors: seq<string> := [];
      for i := 0 to |DangerousPatterns|
        invariant errors == DangerFindings(DangerousPatterns[..i], content)
        invariant valid <==> errors == []
      {
        var pattern := DangerousPatterns[i];
        DangerFindingsStep(DangerousPatterns, i, content);
        if Search(pattern, content) {
          errors := errors + [DangerMessage(pattern)];
          valid := false;
        }
      }
      assert DangerousPatterns[..|DangerousPatterns|] == DangerousPatterns;
      r := SafetyReport(valid, errors, []);
    }

    /** `suggest_improvements`: the advisories whose marker is absent, in the fixed order. */
    method SuggestImprovements(content: string) returns (suggestions: seq<string>)
      ensures suggestions == Suggestions(AdviceOrder, content)
    {
      suggestions := [];
      if !Contains(content, "Documentation Version") {
        suggestions := suggestions + [AdviceText(AddVersion)];
      }
      assert suggestions == Suggestions(AdviceOrder[..1], content) by {
        assert AdviceOrder[..1][..0] == [];
      }
      if !Contains(content, "Last Updated") {
        suggestions := suggestions + [AdviceText(AddLastUpdated)];
      }
      assert suggestions == Suggestions(AdviceOrder[..2], content) by {
        assert AdviceOrder[..2][..1] == AdviceOrder[..1];
      }
      if !Contains(content, "Project") && !Contains(content, "Description") {
        suggestions := suggestions + [AdviceText(AddProjectDescription)];
      }
      assert suggestions == Suggestions(AdviceOrder[..3], content) by {
        assert AdviceOrder[..3][..2] == AdviceOrder[..2];
      }
      if !Contains(content, "COMMON COMMANDS") {
        suggestions := suggestions + [AdviceText(AddCommonCommands)];
      }
      assert suggestions == Suggestions(AdviceOrder[..4], content) by {
        assert AdviceOrder[..4][..3] == AdviceOrder[..3];
      }
      if !Contains(content, "WORKFLOW") {
        suggestions := suggestions + [AdviceText(AddWorkflow)];
      }
      assert AdviceOrder[..5][..4] == AdviceOrder[..4] && AdviceOrder[..5] == AdviceOrder;
    }

    /** The tally loop of `check_completeness`: counts the checks and the passed ones and
        writes one detail line per check, in order. */
    method Tally(checks: seq<Check>) returns (total: nat, passed: nat, details: seq<string>)
      ensures total == |checks|
      ensures passed == CountPassed(checks)
      ensures details == DetailLines(checks)
    {
      total := 0;
      passed := 0;
      details := [];
      for i := 0 to |checks|
        invariant total == i
        invariant passed == CountPassed(checks[..i])
        invariant details == DetailLines(checks[..i])
      {
        var check := checks[i];
        assert checks[..i + 1][..i] == checks[..i];
        total := total + 1;
        if check.passed {
          passed := passed + 1;
          details := details + ["✅ " + check.name + ": 通過"];
        } else {
          details := details + ["❌ " + check.name + ": 缺少"];
        }
      }
      assert checks[..|checks|] == checks;
    }

    /** `check_completeness`: six checks, each reported in order with its outcome; the score
        is the passed share of 100, between 0 and 100, and 100 exactly when all pass. */
    method CheckCompleteness(content: string) returns (r: CompletenessReport)
      ensures r.totalChecks == 6
      ensures r.passedChecks == CountPassed(CompletenessChecks(content)) <= 6
      ensures |r.details| == 6
      ensures forall i :: 0 <= i < 6 ==> r.details[i] == DetailLine(CompletenessChecks(content)[i])
      ensures r.completenessScore == r.passedChecks as real * 100.0 / 6.0
      ensures 0.0 <= r.completenessScore <= 100.0
      ensures r.completenessScore == 100.0 <==> forall c :: c in CompletenessChecks(content) ==> c.passed
    {
      var titled := CheckTitleStructure(content);
      var checks := [
        Check("標題結構", titled),
        Check("規則確認系統", HasAcknowledgment(content)),
        Check("元數據", Contains(content, "Documentation Version")),
        Check("專案描述", Contains(content, "Project") || Contains(content, "Description")),
        Check("常用命令", Contains(content, "COMMON COMMANDS")),
        Check("工作流程", Contains(content, "WORKFLOW"))
      ];
      assert checks == CompletenessChecks(content);

      var total, passed, details := Tally(checks);
      CountPassedBounds(checks);
      var score := Percentage(passed, total);
      r := CompletenessReport(score, total, passed, details);
    }
  }
}
