/** The text operations of the CLAUDE.md file handler: the line-by-line Markdown check and
    the four metadata header lines, read (`extract_metadata`) and rewritten
    (`update_metadata`). The file-system operations are not part of this model. */
module FileHandling {
  import opened Text

  // ---------------------------------------------------------------------------
  // Markdown check
  // ---------------------------------------------------------------------------

  /** One report entry: the 1-based line number and the message printed after it. */
  datatype LineMessage = LineMessage(line: nat, message: string)

  datatype MarkdownReport = MarkdownReport(valid: bool, errors: seq<LineMessage>, warnings: seq<LineMessage>)

  const HeadingSpaceMessage := "標題後應有空格"
  const FenceTagMessage := "代碼塊語言標識符可能不正確"

  /** A line the check reports as a heading without a space: it starts with `#`, does not
      start with `# `, and is not a lone `#`. */
  predicate MalformedHeading(line: string)
    ensures MalformedHeading(line) <==> |line| >= 2 && line[0] == '#' && line[1] != ' '
  {
    StartsWith(line, "#") && !StartsWith(line, "# ") && line != "#"
  }

  /** A code-fence line whose text after the three backticks, once stripped, is not a
      purely alphanumeric language tag (a bare fence is accepted). */
  predicate SuspectFenceTag(line: string)
    ensures SuspectFenceTag(line) ==> StartsWith(line, "```") && |line| > 3
    ensures StartsWith(line, "```") && |line| > 3 && (forall i :: 3 <= i < |line| ==> IsAsciiAlnum(line[i]))
            ==> !SuspectFenceTag(line)
    ensures StartsWith(line, "```") && |line| > 3 && (forall i :: 3 <= i < |line| ==> IsSpace(line[i]))
            ==> SuspectFenceTag(line)
    ensures StartsWith(line, "```") && (exists i :: 3 <= i < |line| && !IsSpace(line[i]) && !IsAsciiAlnum(line[i]))
            ==> SuspectFenceTag(line)
  {
    StartsWith(line, "```") && |line| > 3 && (FenceTail(line); !IsAlnum(Strip(line[3..])))
  }

  /** The text after a fence, stripped: a tag of letters and digits is kept whole, blanks
      alone leave nothing, and any other character stays. */
  lemma FenceTail(line: string)
    requires |line| > 3
    ensures (forall i :: 3 <= i < |line| ==> IsAsciiAlnum(line[i])) ==> IsAlnum(Strip(line[3..]))
    ensures (forall i :: 3 <= i < |line| ==> IsSpace(line[i])) ==> Strip(line[3..]) == []
    ensures (exists i :: 3 <= i < |line| && !IsSpace(line[i]) && !IsAsciiAlnum(line[i])) ==> !IsAlnum(Strip(line[3..]))
  {
    var t := line[3..];
    StrippedTag(t);
    assert forall k :: 0 <= k < |t| ==> t[k] == line[3 + k];
    if exists i :: 3 <= i < |line| && !IsSpace(line[i]) && !IsAsciiAlnum(line[i]) {
      var i :| 3 <= i < |line| && !IsSpace(line[i]) && !IsAsciiAlnum(line[i]);
      assert t[i - 3] in Strip(t);
    }
  }

  /** The report of the lines that `flagged` picks out: their 1-based numbers, first line
      first, each with `message`. */
  function Reported(lines: seq<string>, flagged: string -> bool, message: string): seq<LineMessage>
  {
    if |lines| == 0 then []
    else
      Reported(lines[..|lines| - 1], flagged, message)
        + (if flagged(lines[|lines| - 1]) then [LineMessage(|lines|, message)] else [])
  }

  /** Extending the lines by one extends the report by that line's entry, if any. */
  lemma ReportedStep(lines: seq<string>, i: nat, flagged: string -> bool, message: string)
    requires i < |lines|
    ensures Reported(lines[..i + 1], flagged, message) ==
      Reported(lines[..i], flagged, message) + (if flagged(lines[i]) then [LineMessage(i + 1, message)] else [])
  {
    assert lines[..i + 1][..i] == lines[..i];
  }

  /** Every entry of the report carries the message and names a flagged line; the line
      numbers strictly increase. */
  lemma {:induction false} ReportedEntries(lines: seq<string>, flagged: string -> bool, message: string)
    ensures forall k :: 0 <= k < |Reported(lines, flagged, message)| ==>
      Reported(lines, flagged, message)[k].message == message
      && 1 <= Reported(lines, flagged, message)[k].line <= |lines|
      && flagged(lines[Reported(lines, flagged, message)[k].line - 1])
    ensures forall k, l :: 0 <= k < l < |Reported(lines, flagged, message)| ==>
      Reported(lines, flagged, message)[k].line < Reported(lines, flagged, message)[l].line
    decreases |lines|
  {
    if |lines| > 0 {
      var init := lines[..|lines| - 1];
      ReportedEntries(init, flagged, message);
      var r0 := Reported(init, flagged, message);
      forall k | 0 <= k < |r0| ensures lines[r0[k].line - 1] == init[r0[k].line - 1] { }
    }
  }

  /** Every flagged line is in the report; so the report is empty exactly when no line is
      flagged. */
  lemma {:induction false} ReportedComplete(lines: seq<string>, flagged: string -> bool, message: string)
    ensures forall j :: 0 <= j < |lines| && flagged(lines[j]) ==> LineMessage(j + 1, message) in Reported(lines, flagged, message)
    ensures Reported(lines, flagged, message) == [] <==> forall j :: 0 <= j < |lines| ==> !flagged(lines[j])
    decreases |lines|
  {
    if |lines| > 0 {
      var init := lines[..|lines| - 1];
      var last := LineMessage(|lines|, message);
      var r0 := Reported(init, flagged, message);
      ReportedComplete(init, flagged, message);
      assert Reported(lines, flagged, message) == r0 + (if flagged(lines[|lines| - 1]) then [last] else []);
      forall j | 0 <= j < |lines| && flagged(lines[j])
        ensures LineMessage(j + 1, message) in Reported(lines, flagged, message)
      {
        if j < |init| {
          assert init[j] == lines[j];
          assert LineMessage(j + 1, message) in r0;
        }
      }
      if Reported(lines, flagged, message) == [] {
        forall j | 0 <= j < |lines| ensures !flagged(lines[j]) {
          if j < |init| {
            assert init[j] == lines[j];
          }
        }
      }
    }
  }

  /** `validate_markdown`: the errors report the malformed headings and the warnings the
      suspect code fences; the text is valid exactly when there is no error (warnings do not
      count). */
  method ValidateMarkdown(content: string) returns (r: MarkdownReport)
    ensures r.errors == Reported(Split(content), MalformedHeading, HeadingSpaceMessage)
    ensures r.warnings == Reported(Split(content), SuspectFenceTag, FenceTagMessage)
    ensures r.valid <==> r.errors == []
  {
    var valid := true;
    var errors: seq<LineMessage> := [];
    var warnings: seq<LineMessage> := [];
    var lines := Split(content);
    for i := 0 to |lines|
      invariant valid <==> errors == []
      invariant errors == Reported(lines[..i], MalformedHeading, HeadingSpaceMessage)
      invariant warnings == Reported(lines[..i], SuspectFenceTag, FenceTagMessage)
    {
      var line := lines[i];
      ReportedStep(lines, i, MalformedHeading, HeadingSpaceMessage);
      ReportedStep(lines, i, SuspectFenceTag, FenceTagMessage);
      if StartsWith(line, "#") {
        if !StartsWith(line, "# ") && line != "#" {
          errors := errors + [LineMessage(i + 1, HeadingSpaceMessage)];
          valid := false;
        }
      }
      if StartsWith(line, "```") {
        if |line| > 3 && !IsAlnum(Strip(line[3..])) {
          warnings := warnings + [LineMessage(i + 1, FenceTagMessage)];
        }
      }
    }
    assert lines[..|lines|] == lines;
    r := MarkdownReport(valid, errors, warnings);
  }

  /** The documented examples of the heading check, and the code-fence check on a bare
      fence, a tagged fence and a fence followed by blanks only. */
  lemma MarkdownLineExamples()
    ensures MalformedHeading("#No Space")
    ensures !MalformedHeading("# Proper Heading")
    ensures !MalformedHeading("#")
    ensures !SuspectFenceTag("```")
    ensures !SuspectFenceTag("```bash")
    ensures SuspectFenceTag("```   ")
    ensures Reported(Split(""), MalformedHeading, HeadingSpaceMessage) == []
  {
    assert "#No Space"[..2][1] == 'N';
    assert "# Proper Heading"[..2] == "# ";
    assert Strip("bash") == "bash" by {
      assert !IsSpace('b') && !IsSpace('h');
    }
    assert "```bash"[3..] == "bash";
    var blanks := "```   "[3..];
    assert blanks == "   ";
    assert Strip(blanks) == "" by {
      assert blanks[1..] == "  " && blanks[1..][1..] == " " && blanks[1..][1..][1..] == "";
    }
  }

  // ---------------------------------------------------------------------------
  // Headings of level two and deeper
  // ---------------------------------------------------------------------------

  /** The check reports every heading of level two or deeper, even one written with a
      space after its hashes. */
  lemma {:induction false} DeeperHeadingsReported(k: nat, title: string)
    requires k >= 2
    ensures MalformedHeading(Hashes(k) + " " + title)
  {
    var h := Hashes(k) + " " + title;
    assert Hashes(k) == "#" + ("#" + Hashes(k - 2));
    assert h[0] == '#' && h[1] == '#';
    assert h[..1] == "#";
    assert h[..2][1] == '#';
  }

  /** `k` hash characters. */
  function Hashes(k: nat): (h: string)
    ensures |h| == k
  {
    if k == 0 then "" else "#" + Hashes(k - 1)
  }

  /** The number of leading `#` characters: the heading level. */
  function HashRun(line: string): nat
    decreases |line|
  {
    if |line| > 0 && line[0] == '#' then 1 + HashRun(line[1..]) else 0
  }

  /** A level-aware reading of the rule: a run of hashes followed by something other than a
      space. A line made of hashes only is accepted, as the lone `#` is. */
  predicate HeadingMissingSpace(line: string) {
    0 < HashRun(line) < |line| && line[HashRun(line)] != ' '
  }

  lemma {:induction false} HashRunAfterHashes(k: nat, rest: string)
    ensures HashRun(Hashes(k) + rest) == k + HashRun(rest)
    ensures (Hashes(k) + rest)[k..] == rest
    decreases k
  {
    if k > 0 {
      HashRunAfterHashes(k - 1, rest);
      var t := Hashes(k) + rest;
      assert t == "#" + (Hashes(k - 1) + rest);
      assert t[0] == '#' && t[1..] == Hashes(k - 1) + rest;
      assert HashRun(t) == 1 + HashRun(t[1..]);
    } else {
      assert Hashes(k) + rest == rest;
    }
  }

  /** The level-aware reading accepts a heading of every level written with a space, and
      agrees with the check on every line that does not start with `##`: the two differ only
      on deeper headings. */
  lemma HeadingCheckDiffersOnlyOnDeeperHeadings(k: nat, title: string, line: string)
    requires k >= 1
    ensures !HeadingMissingSpace(Hashes(k) + " " + title)
    ensures !StartsWith(line, "##") ==> (HeadingMissingSpace(line) <==> MalformedHeading(line))
  {
    HashRunAfterHashes(k, " " + title);
    assert Hashes(k) + " " + title == Hashes(k) + (" " + title);
    if |line| > 0 && line[0] == '#' && !StartsWith(line, "##") {
      if |line| > 1 {
        assert line[1] != '#' by {
          assert line[..2][1] == line[1];
        }
        assert HashRun(line[1..]) == 0;
        assert StartsWith(line, "# ") <==> line[1] == ' ' by {
          if line[1] == ' ' { assert line[..2] == "# "; }
        }
      } else {
        assert line == "#" by { assert line == [line[0]]; }
      }
    }
  }

  // ---------------------------------------------------------------------------
  // Metadata header lines
  // ---------------------------------------------------------------------------

  /** The four metadata fields, in the order in which a line's markers are tried. */
  datatype Field = Version | LastUpdated | Project | Description

  function Name(f: Field): string {
    match f
    case Version => "Documentation Version"
    case LastUpdated => "Last Updated"
    case Project => "Project"
    case Description => "Description"
  }

  /** The marker whose presence on a line identifies the field: `**Name**:`. */
  function Label(f: Field): string {
    "**" + Name(f) + "**:"
  }

  /** The key of the field in the metadata dictionary. */
  function Key(f: Field): string {
    match f
    case Version => "version"
    case LastUpdated => "last_updated"
    case Project => "project"
    case Description => "description"
  }

  function Rank(f: Field): nat {
    match f
    case Version => 0
    case LastUpdated => 1
    case Project => 2
    case Description => 3
  }

  /** The canonical line of a field: `> **Name**: value`. */
  function Render(f: Field, v: string): (line: string)
    ensures StartsWith(line, "> " + Label(f))
    ensures |line| == |Label(f)| + 3 + |v| && line[|Label(f)| + 3..] == v
    ensures line[|Label(f)| + 2] == ' '
  {
    PrefixThenValue("> " + Label(f), v);
    Prefix(f) + v
  }

  /** A line made of a head, a blank and a value starts with the head, has the blank right
      after it and ends with the value. */
  lemma PrefixThenValue(head: string, v: string)
    ensures StartsWith(head + " " + v, head)
    ensures (head + " " + v)[|head|] == ' '
    ensures (head + " " + v)[|head| + 1..] == v
  {
    assert (head + " " + v)[..|head|] == head;
  }

  /** The fixed part of a rendered line: `> **Name**: `. */
  function Prefix(f: Field): string {
    "> " + Label(f) + " "
  }

  /** The facts about the field names that the metadata proofs rest on: each is non-empty,
      holds no `*`, `:` or newline, and no two have the same length. */
  lemma NameFacts(f: Field)
    ensures |Name(f)| > 0
    ensures '*' !in Name(f) && ':' !in Name(f) && '\n' !in Name(f)
    ensures forall g :: |Name(g)| == |Name(f)| ==> g == f
  {
    assert |Name(Version)| == 21 && |Name(LastUpdated)| == 12;
    assert |Name(Project)| == 7 && |Name(Description)| == 11;
    var n := Name(f);
    forall i | 0 <= i < |n| ensures 'A' <= n[i] <= 'Z' || 'a' <= n[i] <= 'z' || n[i] == ' ' {
      match f
      case Version =>
      case LastUpdated =>
      case Project =>
      case Description =>
    }
  }

  /** Distinct fields have distinct keys. */
  lemma KeyInjective(f: Field, g: Field)
    ensures Key(f) == Key(g) <==> f == g
  {
  }

  /** The elif chain of `extract_metadata`: the first field, in rank order, whose marker is
      on the line. */
  function FirstLabel(line: string): (r: Option<Field>)
    ensures r.Some? ==> Contains(line, Label(r.value)) && ':' in line
    ensures r.None? ==> forall f :: !Contains(line, Label(f))
  {
    if Contains(line, Label(Version)) then LabelHasColon(line, Version); Some(Version)
    else if Contains(line, Label(LastUpdated)) then LabelHasColon(line, LastUpdated); Some(LastUpdated)
    else if Contains(line, Label(Project)) then LabelHasColon(line, Project); Some(Project)
    else if Contains(line, Label(Description)) then LabelHasColon(line, Description); Some(Description)
    else None
  }

  /** A line holding a marker holds a colon, the marker's last character. */
  lemma LabelHasColon(line: string, f: Field)
    requires Contains(line, Label(f))
    ensures ':' in line
  {
    ContainsLastChar(line, Label(f));
  }

  /** The chain finds a field exactly when the line holds some marker; the field found has
      its marker on the line (so the line has a colon) and no field of lower rank has. */
  lemma FirstLabelSpec(line: string)
    ensures FirstLabel(line) == None <==> forall f :: !Contains(line, Label(f))
    ensures FirstLabel(line).Some? ==> Contains(line, Label(FirstLabel(line).value)) && ':' in line
    ensures FirstLabel(line).Some? ==>
      forall g :: Rank(g) < Rank(FirstLabel(line).value) ==> !Contains(line, Label(g))
  {
    if FirstLabel(line).Some? {
      LabelHasColon(line, FirstLabel(line).value);
    }
  }

  /** The elif chain of `update_metadata`: the first field, in rank order, whose marker is on
      the line and whose key has a new value. */
  function ChosenLabel(line: string, m: map<string, string>): (r: Option<Field>)
    ensures r.Some? ==> Contains(line, Label(r.value)) && Key(r.value) in m
    ensures r.None? ==> forall f :: !(Contains(line, Label(f)) && Key(f) in m)
  {
    if Contains(line, Label(Version)) && Key(Version) in m then Some(Version)
    else if Contains(line, Label(LastUpdated)) && Key(LastUpdated) in m then Some(LastUpdated)
    else if Contains(line, Label(Project)) && Key(Project) in m then Some(Project)
    else if Contains(line, Label(Description)) && Key(Description) in m then Some(Description)
    else None
  }

  /** The chain picks a field exactly when some field with a new value has its marker on the
      line; the field picked is such a field and no field of lower rank is. */
  lemma ChosenLabelSpec(line: string, m: map<string, string>)
    ensures ChosenLabel(line, m) == None <==> forall f :: !(Contains(line, Label(f)) && Key(f) in m)
    ensures ChosenLabel(line, m).Some? ==>
      Contains(line, Label(ChosenLabel(line, m).value)) && Key(ChosenLabel(line, m).value) in m
    ensures ChosenLabel(line, m).Some? ==>
      forall g :: Rank(g) < Rank(ChosenLabel(line, m).value) ==> !(Contains(line, Label(g)) && Key(g) in m)
  {
  }

  /** The position of the first `c` in s. */
  function FirstIndexOf(s: string, c: char): (k: nat)
    requires c in s
    ensures k < |s| && s[k] == c
    ensures forall j :: 0 <= j < k ==> s[j] != c
    decreases |s|
  {
    if s[0] == c then 0 else 1 + FirstIndexOf(s[1..], c)
  }

  /** A first occurrence is where `FirstIndexOf` finds it. */
  lemma FirstIndexOfIs(s: string, c: char, k: nat)
    requires k < |s| && s[k] == c && forall j :: 0 <= j < k ==> s[j] != c
    ensures c in s && FirstIndexOf(s, c) == k
  {
  }

  /** `line.split(':', 1)[1].strip()`: the stripped text after the first colon of the line. */
  function FieldValue(line: string): (v: string)
    requires ':' in line
    ensures exists i, j :: FirstIndexOf(line, ':') + 1 <= i <= j <= |line| && v == line[i..j]
                           && (forall k :: FirstIndexOf(line, ':') + 1 <= k < i ==> IsSpace(line[k]))
                           && (forall k :: j <= k < |line| ==> IsSpace(line[k]))
    ensures |v| > 0 ==> !IsSpace(v[0]) && !IsSpace(v[|v| - 1])
    ensures forall c :: c in v ==> c in line[FirstIndexOf(line, ':') + 1..]
  {
    var rest := line[FirstIndexOf(line, ':') + 1..];
    StripIsTrimmedSlice(rest);
    StripWithin(rest);
    AfterColonSlice(line, FirstIndexOf(line, ':') + 1);
    Strip(rest)
  }

  /** The stripped tail of a line from position b is a slice of the line with only
      whitespace between b and its start and after its end. */
  lemma AfterColonSlice(line: string, b: nat)
    requires b <= |line|
    ensures exists i, j :: b <= i <= j <= |line| && Strip(line[b..]) == line[i..j]
                           && (forall k :: b <= k < i ==> IsSpace(line[k]))
                           && (forall k :: j <= k < |line| ==> IsSpace(line[k]))
  {
    var rest := line[b..];
    StripIsTrimmedSlice(rest);
    var i, j :| 0 <= i <= j <= |rest| && Strip(rest) == rest[i..j]
                && (forall k :: 0 <= k < i ==> IsSpace(rest[k]))
                && (forall k :: j <= k < |rest| ==> IsSpace(rest[k]));
    assert Strip(rest) == line[b + i..b + j];
    forall k | b <= k < b + i ensures IsSpace(line[k]) {
      assert line[k] == rest[k - b];
    }
    forall k | b + j <= k < |line| ensures IsSpace(line[k]) {
      assert line[k] == rest[k - b];
    }
  }

  // ---------------------------------------------------------------------------
  // extract_metadata
  // ---------------------------------------------------------------------------

  /** One step of `extract_metadata`: a line carrying a marker sets its field's key. */
  function AbsorbLine(meta: map<string, string>, line: string): map<string, string>
  {
    match FirstLabel(line)
    case None => meta
    case Some(f) => FirstLabelSpec(line); meta[Key(f) := FieldValue(line)]
  }

  /** The metadata read from `lines`, first line first, so that a later line wins. */
  function ExtractFrom(lines: seq<string>): map<string, string>
  {
    if |lines| == 0 then map[]
    else AbsorbLine(ExtractFrom(lines[..|lines| - 1]), lines[|lines| - 1])
  }

  function ExtractedMetadata(content: string): map<string, string>
  {
    ExtractFrom(Split(content))
  }

  /** `extract_metadata`. */
  method ExtractMetadata(content: string) returns (metadata: map<string, string>)
    ensures metadata == ExtractedMetadata(content)
  {
    metadata := map[];
    var lines := Split(content);
    for i := 0 to |lines|
      invariant metadata == ExtractFrom(lines[..i])
    {
      var line := lines[i];
      assert lines[..i + 1][..i] == lines[..i];
      if Contains(line, Label(Version)) {
        LabelHasColon(line, Version);
        metadata := metadata[Key(Version) := FieldValue(line)];
      } else if Contains(line, Label(LastUpdated)) {
        LabelHasColon(line, LastUpdated);
        metadata := metadata[Key(LastUpdated) := FieldValue(line)];
      } else if Contains(line, Label(Project)) {
        LabelHasColon(line, Project);
        metadata := metadata[Key(Project) := FieldValue(line)];
      } else if Contains(line, Label(Description)) {
        LabelHasColon(line, Description);
        metadata := metadata[Key(Description) := FieldValue(line)];
      }
    }
    assert lines[..|lines|] == lines;
  }

  /** Only the four keys are ever set. */
  lemma {:induction false} ExtractOnlyFieldKeys(lines: seq<string>)
    ensures forall k :: k in ExtractFrom(lines) ==> exists f :: k == Key(f)
    decreases |lines|
  {
    if |lines| > 0 {
      ExtractOnlyFieldKeys(lines[..|lines| - 1]);
    }
  }

  /** The index of the last line whose first marker is f's, or -1 when there is none. */
  function LastWith(lines: seq<string>, f: Field): (r: int)
    ensures -1 <= r < |lines|
    ensures r >= 0 ==> FirstLabel(lines[r]) == Some(f)
    ensures forall j :: r < j < |lines| ==> FirstLabel(lines[j]) != Some(f)
  {
    if |lines| == 0 then -1
    else if FirstLabel(lines[|lines| - 1]) == Some(f) then |lines| - 1
    else
      var r := LastWith(lines[..|lines| - 1], f);
      assert forall j :: r < j < |lines| - 1 ==> lines[j] == lines[..|lines| - 1][j];
      r
  }

  /** Field f is present exactly when some line carries its marker as the line's first
      marker, and its value is read from the last such line. */
  lemma {:induction false} ExtractField(lines: seq<string>, f: Field)
    ensures Key(f) in ExtractFrom(lines) <==> LastWith(lines, f) >= 0
    ensures Key(f) in ExtractFrom(lines) ==>
      ':' in lines[LastWith(lines, f)] && ExtractFrom(lines)[Key(f)] == FieldValue(lines[LastWith(lines, f)])
    decreases |lines|
  {
    if |lines| > 0 {
      var init, last := lines[..|lines| - 1], lines[|lines| - 1];
      ExtractField(init, f);
      FirstLabelSpec(last);
      if FirstLabel(last) != Some(f) {
        if g :| FirstLabel(last) == Some(g) {
          KeyInjective(g, f);
        }
        assert LastWith(lines, f) == LastWith(init, f);
        if LastWith(init, f) >= 0 {
          assert lines[LastWith(init, f)] == init[LastWith(init, f)];
        }
      }
    }
  }

  // ---------------------------------------------------------------------------
  // update_metadata
  // ---------------------------------------------------------------------------

  /** One line of `update_metadata`: rewritten canonically when the chain picks a field. */
  function RewriteLine(line: string, m: map<string, string>): string
  {
    match ChosenLabel(line, m)
    case None => line
    case Some(f) => Render(f, m[Key(f)])
  }

  /** The lines of `update_metadata`, rewritten one by one: line for line, in order. */
  function UpdatedLines(lines: seq<string>, m: map<string, string>): (r: seq<string>)
    ensures |r| == |lines|
    ensures forall i :: 0 <= i < |lines| ==> r[i] == RewriteLine(lines[i], m)
  {
    if |lines| == 0 then []
    else UpdatedLines(lines[..|lines| - 1], m) + [RewriteLine(lines[|lines| - 1], m)]
  }

  function UpdatedText(content: string, m: map<string, string>): string
  {
    Join(UpdatedLines(Split(content), m))
  }

  /** `update_metadata`. */
  method UpdateMetadata(content: string, metadata: map<string, string>) returns (updated: string)
    ensures updated == UpdatedText(content, metadata)
  {
    var lines := Split(content);
    var updatedLines: seq<string> := [];
    for i := 0 to |lines|
      invariant updatedLines == UpdatedLines(lines[..i], metadata)
    {
      var line := lines[i];
      var next;
      if Contains(line, Label(Version)) && Key(Version) in metadata {
        next := Render(Version, metadata[Key(Version)]);
      } else if Contains(line, Label(LastUpdated)) && Key(LastUpdated) in metadata {
        next := Render(LastUpdated, metadata[Key(LastUpdated)]);
      } else if Contains(line, Label(Project)) && Key(Project) in metadata {
        next := Render(Project, metadata[Key(Project)]);
      } else if Contains(line, Label(Description)) && Key(Description) in metadata {
        next := Render(Description, metadata[Key(Description)]);
      } else {
        next := line;
      }
      assert next == RewriteLine(line, metadata);
      assert lines[..i + 1][..i] == lines[..i];
      updatedLines := updatedLines + [next];
    }
    assert lines[..|lines|] == lines;
    updated := Join(updatedLines);
  }

  /** No value of the map holds a newline. */
  ghost predicate NewlineFree(m: map<string, string>) {
    forall f :: Key(f) in m ==> '\n' !in m[Key(f)]
  }

  /** No value of the map holds the marker of a different field. */
  ghost predicate NoForeignLabels(m: map<string, string>) {
    forall f, g :: Key(f) in m && g != f ==> !Contains(m[Key(f)], Label(g))
  }

  /** With no new value for any of the four keys, the text comes back unchanged. */
  lemma UpdateWithoutValues(content: string, m: map<string, string>)
    requires forall f :: Key(f) !in m
    ensures UpdatedText(content, m) == content
  {
    var lines := Split(content);
    assert UpdatedLines(lines, m) == lines;
  }

  /** A rendered line holds no newline when its value holds none. */
  lemma RenderNewlineFree(f: Field, v: string)
    requires '\n' !in v
    ensures '\n' !in Render(f, v)
  {
    NameFacts(f);
  }

  /** Rewriting a line of the text introduces no newline. */
  lemma RewriteLineNewlineFree(line: string, m: map<string, string>)
    requires NewlineFree(m) && '\n' !in line
    ensures '\n' !in RewriteLine(line, m)
  {
    match ChosenLabel(line, m)
    case None =>
    case Some(f) => RenderNewlineFree(f, m[Key(f)]);
  }

  /** Rewriting keeps the line structure: the updated text splits into exactly the updated
      lines, so the line count is unchanged and every line the chain does not pick is kept
      as it was. */
  lemma UpdateKeepsLineStructure(content: string, m: map<string, string>)
    requires NewlineFree(m)
    ensures |Split(UpdatedText(content, m))| == |Split(content)|
    ensures forall i :: 0 <= i < |Split(content)| && ChosenLabel(Split(content)[i], m) == None ==>
      Split(UpdatedText(content, m))[i] == Split(content)[i]
    ensures forall i, f :: 0 <= i < |Split(content)| && ChosenLabel(Split(content)[i], m) == Some(f) && Key(f) in m ==>
      Split(UpdatedText(content, m))[i] == Render(f, m[Key(f)])
  {
    UpdatedSplit(content, m);
  }

  /** A field value is made of characters of its line. */
  lemma FieldValueWithinLine(line: string)
    requires ':' in line
    ensures forall c :: c in FieldValue(line) ==> c in line
  {
    var t := line[FirstIndexOf(line, ':') + 1..];
    StripWithin(t);
    forall c | c in t ensures c in line {
      var x :| 0 <= x < |t| && t[x] == c;
      assert c == line[FirstIndexOf(line, ':') + 1 + x];
    }
  }

  /** Extracted values never hold a newline: each is read from one line of the text. */
  lemma ExtractedNewlineFree(content: string)
    ensures NewlineFree(ExtractedMetadata(content))
  {
    var lines := Split(content);
    forall f | Key(f) in ExtractFrom(lines) ensures '\n' !in ExtractFrom(lines)[Key(f)] {
      ExtractField(lines, f);
      FieldValueWithinLine(lines[LastWith(lines, f)]);
    }
  }

  /** Updating a text with its own extracted metadata keeps the line count and every line
      without a marker, and re-renders each marker line in canonical form with the value
      extracted for its field. */
  lemma UpdateWithExtracted(content: string)
    ensures |Split(UpdatedText(content, ExtractedMetadata(content)))| == |Split(content)|
    ensures forall i :: 0 <= i < |Split(content)| && FirstLabel(Split(content)[i]) == None ==>
      Split(UpdatedText(content, ExtractedMetadata(content)))[i] == Split(content)[i]
    ensures forall i, f :: 0 <= i < |Split(content)| && FirstLabel(Split(content)[i]) == Some(f) ==>
      Key(f) in ExtractedMetadata(content) &&
      Split(UpdatedText(content, ExtractedMetadata(content)))[i] == Render(f, ExtractedMetadata(content)[Key(f)])
  {
    var lines := Split(content);
    var m := ExtractedMetadata(content);
    ExtractedNewlineFree(content);
    UpdatedSplit(content, m);
    forall i | 0 <= i < |lines| && FirstLabel(lines[i]) == None ensures RewriteLine(lines[i], m) == lines[i] {
      UnmarkedLineKept(lines[i], m);
    }
    forall i, f | 0 <= i < |lines| && FirstLabel(lines[i]) == Some(f)
      ensures Key(f) in m && RewriteLine(lines[i], m) == Render(f, m[Key(f)])
    {
      MarkerLineRerendered(lines, i, f);
    }
  }

  /** A line without a marker is never rewritten. */
  lemma UnmarkedLineKept(line: string, m: map<string, string>)
    requires FirstLabel(line) == None
    ensures RewriteLine(line, m) == line
  {
    FirstLabelSpec(line);
    ChosenLabelSpec(line, m);
  }

  /** With the metadata extracted from the same lines, a line whose first marker is f's is
      rewritten as f's canonical line. */
  lemma MarkerLineRerendered(lines: seq<string>, i: nat, f: Field)
    requires i < |lines| && FirstLabel(lines[i]) == Some(f)
    ensures Key(f) in ExtractFrom(lines)
    ensures RewriteLine(lines[i], ExtractFrom(lines)) == Render(f, ExtractFrom(lines)[Key(f)])
  {
    var m := ExtractFrom(lines);
    ExtractField(lines, f);
    assert LastWith(lines, f) >= i;
    ChosenFollowsFirst(lines[i], m, f);
  }

  /** When the first marker of a line is f's and f has a new value, the update chain picks f. */
  lemma ChosenFollowsFirst(line: string, m: map<string, string>, f: Field)
    requires FirstLabel(line) == Some(f) && Key(f) in m
    ensures ChosenLabel(line, m) == Some(f)
  {
    match f
    case Version =>
    case LastUpdated =>
    case Project =>
    case Description =>
  }

  /** Splitting the updated text gives back the rewritten lines. */
  lemma UpdatedSplit(content: string, m: map<string, string>)
    requires NewlineFree(m)
    ensures Split(UpdatedText(content, m)) == UpdatedLines(Split(content), m)
  {
    var lines := Split(content);
    var u := UpdatedLines(lines, m);
    forall i | 0 <= i < |u| ensures '\n' !in u[i] {
      RewriteLineNewlineFree(lines[i], m);
    }
    JoinSplit(u);
  }

  /** The characters of a rendered line, position by position. */
  lemma RenderChars(f: Field, v: string)
    ensures |Render(f, v)| == |Name(f)| + 8 + |v|
    ensures Render(f, v)[0] == '>' && Render(f, v)[1] == ' '
    ensures Render(f, v)[2] == '*' && Render(f, v)[3] == '*'
    ensures forall i :: 0 <= i < |Name(f)| ==> Render(f, v)[4 + i] == Name(f)[i]
    ensures Render(f, v)[|Name(f)| + 4] == '*' && Render(f, v)[|Name(f)| + 5] == '*'
    ensures Render(f, v)[|Name(f)| + 6] == ':' && Render(f, v)[|Name(f)| + 7] == ' '
    ensures forall i :: 0 <= i < |v| ==> Render(f, v)[|Name(f)| + 8 + i] == v[i]
  {
    RenderSplit(f, v);
    LabelChars(f);
    var q := "> " + Label(f);
    assert forall i :: 0 <= i < |Label(f)| ==> q[2 + i] == Label(f)[i];
  }

  /** The characters of a marker, position by position. */
  lemma LabelChars(g: Field)
    ensures |Label(g)| == |Name(g)| + 5
    ensures Label(g)[0] == '*' && Label(g)[1] == '*'
    ensures forall i :: 0 <= i < |Name(g)| ==> Label(g)[2 + i] == Name(g)[i]
    ensures Label(g)[|Name(g)| + 2] == '*'
  {
  }

  /** A slice differs from w when one of its characters differs from w's. */
  lemma SliceDiffers(r: string, w: string, k: nat, j: nat)
    requires k + |w| <= |r| && j < |w| && r[k + j] != w[j]
    ensures r[k..k + |w|] != w
  {
    assert r[k..k + |w|][j] == r[k + j];
  }

  /** In `> **nf**: v`, a marker `**ng**:` cannot start within the fixed part when the two
      names differ in length and neither holds a star or a colon: at its own marker one name
      has a star where the other has a letter, and everywhere else a star of the marker
      meets a letter, a blank, `>` or the colon. */
  lemma MarkerNotInPrefix(nf: string, ng: string, v: string, k: nat)
    requires |nf| > 0 && |ng| > 0 && |nf| != |ng|
    requires '*' !in nf && ':' !in nf && '*' !in ng && ':' !in ng
    requires k < |nf| + 8 && k + |ng| + 5 <= |nf| + 8 + |v|
    ensures ("> **" + nf + "**: " + v)[k..k + |ng| + 5] != "**" + ng + "**:"
  {
    var r := "> **" + nf + "**: " + v;
    var w := "**" + ng + "**:";
    var n, m := |nf|, |ng|;
    assert w[0] == '*' && w[1] == '*';
    if k == 2 {
      if m < n {
        assert r[4 + m] == nf[m] && w[2 + m] == '*';
        SliceDiffers(r, w, k, 2 + m);
      } else {
        assert r[4 + n] == '*' && w[2 + n] == ng[n];
        SliceDiffers(r, w, k, 2 + n);
      }
    } else if k == 3 {
      assert r[4] == nf[0];
      SliceDiffers(r, w, k, 1);
    } else if 4 <= k < 4 + n {
      assert r[k] == nf[k - 4];
      SliceDiffers(r, w, k, 0);
    } else if k == n + 4 {
      assert r[n + 6] == ':' && w[2] == ng[0];
      SliceDiffers(r, w, k, 2);
    } else if k == n + 5 {
      assert r[n + 6] == ':';
      SliceDiffers(r, w, k, 1);
    } else {
      assert r[k] != '*';
      SliceDiffers(r, w, k, 0);
    }
  }

  /** A marker of another field cannot start within the fixed part of a rendered line. */
  lemma NoLabelInPrefix(f: Field, g: Field, v: string, k: nat)
    requires f != g
    requires k < |Name(f)| + 8 && k + |Label(g)| <= |Render(f, v)|
    ensures Render(f, v)[k..k + |Label(g)|] != Label(g)
  {
    NameFacts(f);
    NameFacts(g);
    assert Render(f, v) == "> **" + Name(f) + "**: " + v;
    MarkerNotInPrefix(Name(f), Name(g), v, k);
  }

  /** A rendered line holds no marker of another field unless its value does. */
  lemma NoForeignLabel(f: Field, g: Field, v: string)
    requires f != g && !Contains(v, Label(g))
    ensures !Contains(Render(f, v), Label(g))
  {
    var r := Render(f, v);
    var lg := Label(g);
    var p := Prefix(f);
    assert |p| == |Name(f)| + 8;
    ContainsIff(r, lg);
    ContainsIff(v, lg);
    forall k | OccursAt(r, lg, k) ensures false {
      if k >= |p| {
        OccursAfterPrefix(p, v, lg, k);
      } else {
        NoLabelInPrefix(f, g, v, k);
      }
    }
  }

  /** A rendered line carries its own marker. */
  lemma RenderHasOwnLabel(f: Field, v: string)
    ensures Contains(Render(f, v), Label(f))
  {
    var r := Render(f, v);
    assert r == "> " + Label(f) + (" " + v);
    assert r[2..2 + |Label(f)|] == Label(f);
    assert OccursAt(r, Label(f), 2);
    ContainsIff(r, Label(f));
  }

  /** The first colon of a rendered line closes its marker; after it come a blank and the
      value. */
  lemma RenderFirstColon(f: Field, v: string)
    ensures ':' in Render(f, v)
    ensures Render(f, v)[FirstIndexOf(Render(f, v), ':') + 1..] == " " + v
  {
    RenderColonAt(f, v);
    RenderSplit(f, v);
    DropPrefix("> " + Label(f), " " + v);
  }

  /** A rendered line is the blank-less head `> **Name**:` followed by a blank and the value. */
  lemma RenderSplit(f: Field, v: string)
    ensures Render(f, v) == ("> " + Label(f)) + (" " + v)
    ensures |"> " + Label(f)| == |Name(f)| + 7
  {
  }

  lemma DropPrefix(p: string, w: string)
    ensures (p + w)[|p|..] == w
  {
  }

  /** The first colon of a rendered line is the one closing its marker. */
  lemma RenderColonAt(f: Field, v: string)
    ensures ':' in Render(f, v) && FirstIndexOf(Render(f, v), ':') == |Name(f)| + 6
  {
    var r := Render(f, v);
    var n := |Name(f)|;
    NameFacts(f);
    RenderChars(f, v);
    forall j | 0 <= j < n + 6 ensures r[j] != ':' {
      if 4 <= j < 4 + n { assert r[j] == Name(f)[j - 4]; }
    }
    FirstIndexOfIs(r, ':', n + 6);
  }

  /** A rendered line is read back as its own field with the stripped value, and is picked
      for its own field by any map that holds a value for it. */
  lemma RenderReadBack(f: Field, v: string)
    requires forall g :: g != f ==> !Contains(v, Label(g))
    ensures FirstLabel(Render(f, v)) == Some(f)
    ensures FieldValue(Render(f, v)) == Strip(v)
    ensures forall m :: Key(f) in m ==> ChosenLabel(Render(f, v), m) == Some(f)
  {
    var r := Render(f, v);
    RenderHasOwnLabel(f, v);
    forall g | g != f ensures !Contains(r, Label(g)) {
      NoForeignLabel(f, g, v);
    }
    OnlyLabel(r, f);
    RenderFirstColon(f, v);
    StripLeadingBlank(v);
  }

  /** A line holding f's marker and no other is read as f's by both chains. */
  lemma OnlyLabel(line: string, f: Field)
    requires Contains(line, Label(f)) && forall g :: g != f ==> !Contains(line, Label(g))
    ensures FirstLabel(line) == Some(f)
    ensures forall m :: Key(f) in m ==> ChosenLabel(line, m) == Some(f)
  {
    match f
    case Version =>
    case LastUpdated =>
      assert !Contains(line, Label(Version));
    case Project =>
      assert !Contains(line, Label(Version)) && !Contains(line, Label(LastUpdated));
    case Description =>
      assert !Contains(line, Label(Version)) && !Contains(line, Label(LastUpdated));
      assert !Contains(line, Label(Project));
  }

  /** Rewriting a rewritten line changes nothing. */
  lemma RewriteLineTwice(line: string, m: map<string, string>)
    requires NoForeignLabels(m)
    ensures RewriteLine(RewriteLine(line, m), m) == RewriteLine(line, m)
  {
    match ChosenLabel(line, m)
    case None =>
    case Some(f) => RenderReadBack(f, m[Key(f)]);
  }

  /** A second update with the same values changes nothing. */
  lemma UpdateIsIdempotent(content: string, m: map<string, string>)
    requires NewlineFree(m) && NoForeignLabels(m)
    ensures UpdatedText(UpdatedText(content, m), m) == UpdatedText(content, m)
  {
    var lines := Split(content);
    var u := UpdatedLines(lines, m);
    UpdatedSplit(content, m);
    forall i | 0 <= i < |u| ensures RewriteLine(u[i], m) == u[i] {
      RewriteLineTwice(lines[i], m);
    }
    assert UpdatedLines(u, m) == u;
  }

  /** A line after rewriting is read as f's exactly when the chain picked f for it, and
      then reads back as the stripped new value. */
  lemma RewrittenLineReadBack(line: string, m: map<string, string>, f: Field)
    requires NoForeignLabels(m) && Key(f) in m
    ensures FirstLabel(RewriteLine(line, m)) == Some(f) <==> ChosenLabel(line, m) == Some(f)
    ensures FirstLabel(RewriteLine(line, m)) == Some(f) ==> FieldValue(RewriteLine(line, m)) == Strip(m[Key(f)])
  {
    match ChosenLabel(line, m)
    case None =>
    case Some(g) => RenderReadBack(g, m[Key(g)]);
  }

  /** When the lines read as f's are exactly those whose originals `picked` selects, the
      last of them is such a line, and there is one exactly when `picked` selects a line. */
  lemma LastWithTransfer(u: seq<string>, lines: seq<string>, f: Field, picked: string -> bool)
    requires |u| == |lines|
    requires forall j :: 0 <= j < |u| ==> (FirstLabel(u[j]) == Some(f) <==> picked(lines[j]))
    ensures LastWith(u, f) >= 0 <==> exists j :: 0 <= j < |lines| && picked(lines[j])
    ensures LastWith(u, f) >= 0 ==> picked(lines[LastWith(u, f)])
  {
  }

  /** After rewriting, the last line read as f's is one that the chain picked for f, and
      there is one exactly when the chain picked some line for f. */
  lemma RewrittenLastWith(lines: seq<string>, m: map<string, string>, f: Field)
    requires NoForeignLabels(m) && Key(f) in m
    ensures LastWith(UpdatedLines(lines, m), f) >= 0 <==>
      exists j :: 0 <= j < |lines| && ChosenLabel(lines[j], m) == Some(f)
    ensures LastWith(UpdatedLines(lines, m), f) >= 0 ==>
      ChosenLabel(lines[LastWith(UpdatedLines(lines, m), f)], m) == Some(f)
  {
    var u := UpdatedLines(lines, m);
    forall j | 0 <= j < |u| ensures FirstLabel(u[j]) == Some(f) <==> ChosenLabel(lines[j], m) == Some(f) {
      RewrittenLineReadBack(lines[j], m, f);
    }
    LastWithTransfer(u, lines, f, line => ChosenLabel(line, m) == Some(f));
  }

  /** Reading the metadata back after an update: a field with a new value is present exactly
      when some line was rewritten for it, and then holds the stripped new value. */
  lemma ExtractAfterUpdate(content: string, m: map<string, string>, f: Field)
    requires NewlineFree(m) && NoForeignLabels(m) && Key(f) in m
    ensures Key(f) in ExtractedMetadata(UpdatedText(content, m)) <==>
      exists j :: 0 <= j < |Split(content)| && ChosenLabel(Split(content)[j], m) == Some(f)
    ensures Key(f) in ExtractedMetadata(UpdatedText(content, m)) ==>
      ExtractedMetadata(UpdatedText(content, m))[Key(f)] == Strip(m[Key(f)])
  {
    UpdatedSplit(content, m);
    ExtractAfterRewrite(Split(content), m, f);
  }

  /** The same, on the lines. */
  lemma ExtractAfterRewrite(lines: seq<string>, m: map<string, string>, f: Field)
    requires NoForeignLabels(m) && Key(f) in m
    ensures Key(f) in ExtractFrom(UpdatedLines(lines, m)) <==>
      exists j :: 0 <= j < |lines| && ChosenLabel(lines[j], m) == Some(f)
    ensures Key(f) in ExtractFrom(UpdatedLines(lines, m)) ==>
      ExtractFrom(UpdatedLines(lines, m))[Key(f)] == Strip(m[Key(f)])
  {
    var u := UpdatedLines(lines, m);
    ExtractField(u, f);
    RewrittenLastWith(lines, m, f);
    var r := LastWith(u, f);
    if r >= 0 {
      RewrittenLineReadBack(lines[r], m, f);
    }
  }
}
