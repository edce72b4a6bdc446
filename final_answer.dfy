/**
 * Cleaning of the agent crew's verbose output into the answer shown to the
 * student: keep the text after the last "Final Answer:" marker, delete known
 * prompt artifacts, drop leading blank lines and lines carrying system
 * markers (together with the next blank line after such a line), strip the
 * result and squeeze runs of three or more newlines down to two. Every
 * system marker is itself an artifact and is deleted first, so the line
 * filter acts only on a marker that a deletion has put back together.
 */
module FinalAnswer {
  import opened Strings

  const Marker: string := "Final Answer:"

  /** Prompt fragments deleted from the output, in this order. */
  const Artifacts: seq<string> := [
    "Your final answer must be the great and the most complete as possible",
    "it must be outcome described",
    "Begin! This is VERY important to you",
    "use the tools available and give your best Final Answer",
    "your job depends on it",
    "I now can give a great answer",
    "I MUST use these formats, my job depends on it!",
    "### User:",
    "Current Task:",
    "Thought:",
    "Action:"
  ]

  /** A line whose stripped text contains one of these is a system message. */
  const SystemMarkers: seq<string> := ["Thought:", "Action:", "### User:", "Current Task:"]

  const Fallback: string := "No response generated"

  const TripleNewline: string := "\n\n\n"
  const DoubleNewline: string := "\n\n"

  predicate AllNonEmpty(targets: seq<string>) {
    forall k :: 0 <= k < |targets| ==> targets[k] != []
  }

  lemma ArtifactsNonEmpty()
    ensures AllNonEmpty(Artifacts)
  {
  }

  /** The stripped text after the last marker, or the whole output when there is no marker. */
  function AfterMarker(s: string): string {
    if Contains(s, Marker) then Strip(LastPiece(s, Marker)) else s
  }

  /** Delete every occurrence of each target in turn, as successive `str.replace(t, "")` calls. */
  function RemoveAll(s: string, targets: seq<string>): string
    requires AllNonEmpty(targets)
    decreases |targets|
  {
    if targets == [] then s
    else Replace(RemoveAll(s, targets[..|targets| - 1]), targets[|targets| - 1], "")
  }

  /** `any(marker in line for marker in markers)`. */
  predicate HasMarker(line: string, markers: seq<string>)
    decreases |markers|
  {
    markers != [] && (HasMarker(line, markers[..|markers| - 1]) || Contains(line, markers[|markers| - 1]))
  }

  /** A line has a marker exactly when it contains one of them. */
  lemma {:induction false} HasMarkerMembers(line: string, markers: seq<string>)
    ensures HasMarker(line, markers) <==> exists m | m in markers :: Contains(line, m)
    decreases |markers|
  {
    if markers != [] {
      var init := markers[..|markers| - 1];
      HasMarkerMembers(line, init);
      assert markers == init + [markers[|markers| - 1]];
    }
  }

  /** The line filter's state: the lines kept so far and whether the next blank line is to be dropped. */
  datatype LineState = LineState(kept: seq<string>, skipNext: bool)

  /** What the line filter does with one more line. */
  function Step(st: LineState, line: string, markers: seq<string>): LineState {
    var stripped := Strip(line);
    if st.kept == [] && stripped == [] then st
    else if HasMarker(stripped, markers) then LineState(st.kept, true)
    else if st.skipNext && stripped == [] then LineState(st.kept, false)
    else LineState(st.kept + [line], st.skipNext)
  }

  function FilterLines(lines: seq<string>, markers: seq<string>): LineState
    decreases |lines|
  {
    if lines == [] then LineState([], false)
    else Step(FilterLines(lines[..|lines| - 1], markers), lines[|lines| - 1], markers)
  }

  /** Replace three newlines by two until no three consecutive newlines are left. */
  function Collapse(s: string): string
    decreases |s|
  {
    if Contains(s, TripleNewline) then
      ReplaceShortens(s, TripleNewline, DoubleNewline);
      Collapse(Replace(s, TripleNewline, DoubleNewline))
    else s
  }

  /** Artifact removal, line filtering, stripping and newline squeezing, for given tables. */
  function Cleaned(output: string, artifacts: seq<string>, markers: seq<string>): string
    requires AllNonEmpty(artifacts)
  {
    var lines := Split(RemoveAll(output, artifacts), "\n");
    Collapse(Strip(Join(FilterLines(lines, markers).kept, "\n")))
  }

  /** The cleaned answer for a crew output. */
  function FinalAnswer(crewOutput: string): string {
    ArtifactsNonEmpty();
    var result := Cleaned(AfterMarker(crewOutput), Artifacts, SystemMarkers);
    if result == [] then Fallback else result
  }

  method RemoveEach(s: string, targets: seq<string>) returns (r: string)
    requires AllNonEmpty(targets)
    ensures r == RemoveAll(s, targets)
  {
    r := s;
    for k := 0 to |targets|
      invariant r == RemoveAll(s, targets[..k])
    {
      assert targets[..k + 1][..k] == targets[..k];
      r := Replace(r, targets[k], "");
    }
    assert targets[..|targets|] == targets;
  }

  method KeepLines(lines: seq<string>, markers: seq<string>) returns (kept: seq<string>)
    ensures kept == FilterLines(lines, markers).kept
  {
    kept := [];
    var skipNext := false;
    for k := 0 to |lines|
      invariant FilterLines(lines[..k], markers) == LineState(kept, skipNext)
    {
      assert lines[..k + 1][..k] == lines[..k];
      var line := lines[k];
      var stripped := Strip(line);
      if kept == [] && stripped == [] {
      } else if HasMarker(stripped, markers) {
        skipNext := true;
      } else if skipNext && stripped == [] {
        skipNext := false;
      } else {
        kept := kept + [line];
      }
    }
    assert lines[..|lines|] == lines;
  }

  method CollapseNewlines(s: string) returns (r: string)
    ensures r == Collapse(s)
  {
    r := s;
    while Contains(r, TripleNewline)
      invariant Collapse(r) == Collapse(s)
      decreases |r|
    {
      ReplaceShortens(r, TripleNewline, DoubleNewline);
      r := Replace(r, TripleNewline, DoubleNewline);
    }
  }

  method ExtractFinalAnswer(crewOutput: string) returns (answer: string)
    ensures answer == FinalAnswer(crewOutput)
  {
    var output: string;
    if Contains(crewOutput, Marker) {
      var parts := Split(crewOutput, Marker);
      SplitAroundPresent(crewOutput, Marker);
      if |parts| > 1 {
        output := Strip(parts[|parts| - 1]);
      } else {
        output := crewOutput;
      }
    } else {
      output := crewOutput;
    }
    assert output == AfterMarker(crewOutput);
    ArtifactsNonEmpty();
    var result := CleanOutput(output, Artifacts, SystemMarkers);
    answer := if result == [] then Fallback else result;
  }

  method CleanOutput(output: string, artifacts: seq<string>, markers: seq<string>) returns (result: string)
    requires AllNonEmpty(artifacts)
    ensures result == Cleaned(output, artifacts, markers)
  {
    var text := RemoveEach(output, artifacts);
    var lines := Split(text, "\n");
    var kept := KeepLines(lines, markers);
    result := Strip(Join(kept, "\n"));
    result := CollapseNewlines(result);
  }

  /**
   * Squeezing newlines keeps a stripped text stripped, leaves no three
   * consecutive newlines and empties only the empty text.
   */
  lemma {:induction false} CollapseKeepsStripped(s: string)
    requires IsStripped(s)
    ensures IsStripped(Collapse(s)) && !Contains(Collapse(s), TripleNewline)
    ensures Collapse(s) == [] <==> s == []
    decreases |s|
  {
    if Contains(s, TripleNewline) {
      ReplaceShortens(s, TripleNewline, DoubleNewline);
      ReplaceKeepsEnds(s, TripleNewline, DoubleNewline);
      CollapseKeepsStripped(Replace(s, TripleNewline, DoubleNewline));
    }
  }

  /**
   * The answer is never empty: either the fallback text, or a stripped text
   * without three consecutive newlines.
   */
  lemma FinalAnswerShape(crewOutput: string)
    ensures FinalAnswer(crewOutput) != []
    ensures FinalAnswer(crewOutput) == Fallback
      || (IsStripped(FinalAnswer(crewOutput)) && !Contains(FinalAnswer(crewOutput), TripleNewline))
  {
    ArtifactsNonEmpty();
    CleanedShape(AfterMarker(crewOutput), Artifacts, SystemMarkers);
  }

  lemma CleanedShape(output: string, artifacts: seq<string>, markers: seq<string>)
    requires AllNonEmpty(artifacts)
    ensures IsStripped(Cleaned(output, artifacts, markers)) && !Contains(Cleaned(output, artifacts, markers), TripleNewline)
  {
    var lines := Split(RemoveAll(output, artifacts), "\n");
    CollapseKeepsStripped(Strip(Join(FilterLines(lines, markers).kept, "\n")));
  }

  /**
   * The kept lines are lines of the input in their original order; none of
   * them carries a system marker, and the first is not blank.
   */
  lemma {:induction false} KeptLinesClean(lines: seq<string>, markers: seq<string>)
    ensures KeptClean(FilterLines(lines, markers).kept, lines, markers)
    decreases |lines|
  {
    if lines != [] {
      var init := lines[..|lines| - 1];
      KeptLinesClean(init, markers);
      StepKeepsClean(FilterLines(init, markers), init, lines[|lines| - 1], markers);
      FrontAndLast(lines);
    }
  }

  /** The lines kept so far come from `lines` in order, carry no marker, and the first is not blank. */
  predicate KeptClean(kept: seq<string>, lines: seq<string>, markers: seq<string>) {
    IsSubsequence(kept, lines)
    && (forall k :: 0 <= k < |kept| ==> !HasMarker(Strip(kept[k]), markers))
    && (kept == [] || Strip(kept[0]) != [])
  }

  lemma StepKeepsClean(before: LineState, init: seq<string>, line: string, markers: seq<string>)
    requires KeptClean(before.kept, init, markers)
    ensures KeptClean(Step(before, line, markers).kept, init + [line], markers)
  {
    if Step(before, line, markers).kept == before.kept {
      SubsequenceOfPrefix(before.kept, init, line);
    } else {
      KeptCleanAppend(before.kept, init, line, markers);
    }
  }

  /** Keeping one more line, without a marker and not a leading blank, keeps the kept lines clean. */
  lemma KeptCleanAppend(kept: seq<string>, init: seq<string>, line: string, markers: seq<string>)
    requires KeptClean(kept, init, markers)
    requires !HasMarker(Strip(line), markers) && (kept != [] || Strip(line) != [])
    ensures KeptClean(kept + [line], init + [line], markers)
  {
    SubsequenceExtend(kept, init, line);
    var after := kept + [line];
    forall k | 0 <= k < |after| ensures !HasMarker(Strip(after[k]), markers) {
      if k < |kept| {
        assert after[k] == kept[k];
      }
    }
  }

  /**
   * When the output holds a marker, the answer is drawn from the text after
   * its LAST occurrence.
   */
  lemma AnswerFollowsLastMarker(s: string)
    requires Contains(s, Marker)
    ensures exists k: nat | k + |Marker| <= |s| ::
      OccursAt(s, Marker, k) && !Contains(s[k + 1..], Marker) && AfterMarker(s) == Strip(s[k + |Marker|..])
  {
    SplitLastPiece(s, Marker);
    var last := LastPiece(s, Marker);
    var k := |s| - |last| - |Marker|;
    assert s[k..] == Marker + last;
    assert s[k..k + |Marker|] == (Marker + last)[..|Marker|];
    assert OccursAt(s, Marker, k);
    assert s[k + |Marker|..] == last;
    NoLaterMarker(s, last, k);
  }

  lemma NoLaterMarker(s: string, last: string, k: nat)
    requires k + |Marker| <= |s| && s[k..] == Marker + last && !Contains(last, Marker)
    ensures !Contains(s[k + 1..], Marker)
  {
    assert s[k..k + |Marker|] == s[k..][..|Marker|];
    if Contains(s[k + 1..], Marker) {
      var j: nat :| j <= |s[k + 1..]| && OccursAt(s[k + 1..], Marker, j);
      var m := k + 1 + j;
      assert s[m..m + |Marker|] == s[k + 1..][j..j + |Marker|];
      if m >= k + |Marker| {
        var i := m - k - |Marker|;
        assert last[i..i + |Marker|] == s[m..m + |Marker|];
        assert OccursAt(last, Marker, i);
      } else {
        MarkerDoesNotOverlapItself(s, k, m);
      }
    }
  }

  /** Two occurrences of the marker never overlap. */
  lemma MarkerDoesNotOverlapItself(s: string, k: nat, m: nat)
    requires k < m < k + |Marker| && m + |Marker| <= |s| && s[k..k + |Marker|] == Marker
    ensures s[m..m + |Marker|] != Marker
  {
    assert s[m] == s[k..k + |Marker|][m - k];
    assert s[m..m + |Marker|][0] == s[m];
  }

  lemma {:induction false} RemoveAllAbsent(s: string, targets: seq<string>)
    requires AllNonEmpty(targets) && forall t | t in targets :: !Contains(s, t)
    ensures RemoveAll(s, targets) == s
    decreases |targets|
  {
    if targets != [] {
      RemoveAllAbsent(s, targets[..|targets| - 1]);
      ReplaceAbsent(s, targets[|targets| - 1], "");
    }
  }

  /** No line carries a marker once stripped. */
  predicate NoneMarked(lines: seq<string>, markers: seq<string>)
    decreases |lines|
  {
    lines == [] || (NoneMarked(lines[..|lines| - 1], markers) && !HasMarker(Strip(lines[|lines| - 1]), markers))
  }

  lemma {:induction false} NoneMarkedOfEach(lines: seq<string>, markers: seq<string>)
    requires forall k :: 0 <= k < |lines| ==> !HasMarker(Strip(lines[k]), markers)
    ensures NoneMarked(lines, markers)
    decreases |lines|
  {
    if lines != [] {
      var init := lines[..|lines| - 1];
      forall k | 0 <= k < |init| ensures !HasMarker(Strip(init[k]), markers) {
        assert init[k] == lines[k];
      }
      NoneMarkedOfEach(init, markers);
    }
  }

  /** Lines without markers, the first of them not blank, are all kept. */
  lemma {:induction false} FilterKeepsAll(lines: seq<string>, markers: seq<string>)
    requires NoneMarked(lines, markers)
    requires lines == [] || Strip(lines[0]) != []
    ensures FilterLines(lines, markers) == LineState(lines, false)
    decreases |lines|
  {
    if lines != [] {
      var init := lines[..|lines| - 1];
      assert init != [] ==> init[0] == lines[0];
      assert init == [] ==> lines[|lines| - 1] == lines[0];
      FilterKeepsAll(init, markers);
      FilterKeepsLast(lines, markers);
    }
  }

  lemma FilterKeepsLast(lines: seq<string>, markers: seq<string>)
    requires lines != []
    requires FilterLines(lines[..|lines| - 1], markers) == LineState(lines[..|lines| - 1], false)
    requires !HasMarker(Strip(lines[|lines| - 1]), markers)
    requires |lines| > 1 || Strip(lines[|lines| - 1]) != []
    ensures FilterLines(lines, markers) == LineState(lines, false)
  {
    FrontAndLast(lines);
    StepKeepsLine(LineState(lines[..|lines| - 1], false), lines[|lines| - 1], markers);
  }

  /** Outside a skip, a line without a marker is kept unless it is a leading blank line. */
  lemma StepKeepsLine(st: LineState, line: string, markers: seq<string>)
    requires !st.skipNext && !HasMarker(Strip(line), markers)
    requires st.kept != [] || Strip(line) != []
    ensures Step(st, line, markers) == LineState(st.kept + [line], false)
  {
  }

  /** A line of a text lacking every marker has no marker once stripped. */
  lemma StrippedLineLacksMarkers(s: string, line: string, markers: seq<string>)
    requires line in Split(s, "\n")
    requires forall m | m in markers :: !Contains(s, m)
    ensures !HasMarker(Strip(line), markers)
  {
    HasMarkerMembers(Strip(line), markers);
    forall m | m in markers ensures !Contains(Strip(line), m) {
      SplitPiecesLack(s, "\n", m);
      var lo, hi :| 0 <= lo <= hi <= |line| && Strip(line) == line[lo..hi];
      SliceLacks(line, m, lo, hi);
    }
  }

  /**
   * An answer that is already clean passes through unchanged: no marker, no
   * artifact, no surrounding whitespace and no three consecutive newlines.
   */
  lemma CleanAnswerUnchanged(s: string)
    requires s != [] && IsStripped(s)
    requires !Contains(s, Marker) && !Contains(s, TripleNewline)
    requires forall a | a in Artifacts :: !Contains(s, a)
    ensures FinalAnswer(s) == s
  {
    ArtifactsNonEmpty();
    RemoveAllAbsent(s, Artifacts);
    var lines := Split(s, "\n");
    assert forall m | m in SystemMarkers :: m in Artifacts;
    forall k | 0 <= k < |lines| ensures !HasMarker(Strip(lines[k]), SystemMarkers) {
      StrippedLineLacksMarkers(s, lines[k], SystemMarkers);
    }
    SplitFirstCharacter(s, "\n");
    assert !IsSpace(lines[0][0]);
    NoneMarkedOfEach(lines, SystemMarkers);
    FilterKeepsAll(lines, SystemMarkers);
    JoinSplit(s, "\n");
    StripStripped(s);
  }

  /**
   * Every system marker is also a prompt artifact, and artifacts are deleted
   * before lines are filtered: a line opening with "Thought:" is kept, with
   * only the marker word removed.
   */
  lemma SystemLineKeptWithoutMarker()
    ensures FinalAnswer("Thought: plan\nAnswer") == "plan\nAnswer"
  {
    var s := "Thought: plan\nAnswer";
    var rest := " plan\nAnswer";
    var lines := [" plan", "Answer"];
    var answer := "plan\nAnswer";
    MissingCharacter(s, Marker, 'F');
    SystemLineArtifacts(s, rest);
    SystemLineSplit(rest, lines);
    SystemLineFirstNotBlank(lines[0]);
    SystemLineFilter(rest, lines);
    SystemLineStrip(rest, answer);
    SystemLineCollapse(answer);
    CleanedOfSteps(s, rest, lines, answer);
  }

  /** The cleaned text, assembled from the result of each of its steps. */
  lemma CleanedOfSteps(s: string, rest: string, lines: seq<string>, answer: string)
    requires AllNonEmpty(Artifacts) && RemoveAll(s, Artifacts) == rest
    requires Split(rest, "\n") == lines && Join(lines, "\n") == rest
    requires FilterLines(lines, SystemMarkers) == LineState(lines, false)
    requires Strip(rest) == answer && Collapse(answer) == answer
    ensures Cleaned(s, Artifacts, SystemMarkers) == answer
  {
  }

  lemma SystemLineFilter(rest: string, lines: seq<string>)
    requires rest == " plan\nAnswer" && Split(rest, "\n") == lines
    requires Strip(lines[0]) != []
    ensures FilterLines(lines, SystemMarkers) == LineState(lines, false)
  {
    SystemLineMarkersAbsent(rest);
    FilterKeepsUnmarkedText(rest, lines, SystemMarkers);
  }

  lemma SystemLineFirstNotBlank(line: string)
    requires line == " plan"
    ensures Strip(line) != []
  {
    NotBlankLine(line, 1);
  }

  /** Deleting the artifacts from the example removes just its leading "Thought:". */
  lemma SystemLineArtifacts(s: string, rest: string)
    requires s == "Thought: plan\nAnswer" && rest == " plan\nAnswer"
    ensures AllNonEmpty(Artifacts) && RemoveAll(s, Artifacts) == rest
  {
    ArtifactsNonEmpty();
    SystemLineEarlyArtifacts(s, Artifacts[..9]);
    RemoveAllAbsent(s, Artifacts[..9]);
    SystemLineThought(s, rest);
    SystemLineAction(rest);
    RemoveLastTwo(s, rest, Artifacts);
  }

  lemma SystemLineThought(s: string, rest: string)
    requires s == "Thought: plan\nAnswer" && rest == " plan\nAnswer"
    ensures Replace(s, Artifacts[9], "") == rest
  {
    AbsentCharacterAt(rest, "Thought:", 0);
    ReplaceLeading(s, "Thought:", rest);
  }

  lemma SystemLineAction(rest: string)
    requires rest == " plan\nAnswer"
    ensures Replace(rest, Artifacts[10], "") == rest
  {
    AbsentCharacterAt(rest, "Action:", 1);
    ReplaceAbsent(rest, "Action:", "");
  }

  /** Removing a list of targets removes all but the last, then the last. */
  lemma RemoveAllLast(s: string, targets: seq<string>)
    requires AllNonEmpty(targets) && targets != []
    ensures RemoveAll(s, targets) == Replace(RemoveAll(s, targets[..|targets| - 1]), targets[|targets| - 1], "")
  {
  }

  /**
   * When all but the last two targets are absent, only the last two
   * deletions act.
   */
  lemma RemoveLastTwo(s: string, rest: string, targets: seq<string>)
    requires AllNonEmpty(targets) && |targets| >= 2
    requires RemoveAll(s, targets[..|targets| - 2]) == s
    requires Replace(s, targets[|targets| - 2], "") == rest
    requires Replace(rest, targets[|targets| - 1], "") == rest
    ensures RemoveAll(s, targets) == rest
  {
    var init := targets[..|targets| - 1];
    assert AllNonEmpty(init);
    assert init[..|init| - 1] == targets[..|targets| - 2];
    RemoveAllLast(s, init);
    RemoveAllLast(s, targets);
  }

  /** None of the first nine artifacts occurs in the example. */
  lemma SystemLineEarlyArtifacts(s: string, early: seq<string>)
    requires s == "Thought: plan\nAnswer" && early == Artifacts[..9]
    ensures AllNonEmpty(early) && forall t | t in early :: !Contains(s, t)
  {
    forall k | 0 <= k < 7 ensures !Contains(s, early[k]) {
      LongerAbsent(s, early[k]);
    }
    AbsentCharacterAt(s, early[7], 0);
    AbsentCharacterAt(s, early[8], 0);
  }

  /** A pattern longer than `s` does not occur in `s`. */
  lemma LongerAbsent(s: string, p: string)
    requires |s| < |p|
    ensures !Contains(s, p)
  {
  }

  /** A pattern holding a character that `s` lacks does not occur in `s`. */
  lemma AbsentCharacterAt(s: string, p: string, i: nat)
    requires i < |p| && p[i] !in s
    ensures !Contains(s, p)
  {
    MissingCharacter(s, p, p[i]);
  }

  /** Deleting a target that occurs only at the very start leaves what follows it. */
  lemma ReplaceLeading(s: string, target: string, rest: string)
    requires target != [] && s == target + rest && !Contains(rest, target)
    ensures Replace(s, target, "") == rest
  {
    assert OccursAt(s, target, 0);
    SplitAtFirst(s, target, 0);
    assert s[|target|..] == rest;
  }

  lemma SystemLineSplit(rest: string, lines: seq<string>)
    requires rest == " plan\nAnswer" && lines == [" plan", "Answer"]
    ensures Join(lines, "\n") == rest && Split(rest, "\n") == lines
  {
    assert Join(lines, ['\n']) == rest;
    SplitJoin(lines, '\n');
  }

  /**
   * Lines of a text lacking every marker are all kept when the first is not
   * blank.
   */
  lemma FilterKeepsUnmarkedText(s: string, lines: seq<string>, markers: seq<string>)
    requires Split(s, "\n") == lines
    requires forall m | m in markers :: !Contains(s, m)
    requires Strip(lines[0]) != []
    ensures FilterLines(lines, markers) == LineState(lines, false)
  {
    UnmarkedWhenAbsent(s, lines, markers);
    FilterKeepsAll(lines, markers);
  }

  /** A line holding a non-space character is not blank once stripped. */
  lemma NotBlankLine(line: string, i: nat)
    requires i < |line| && !IsSpace(line[i])
    ensures Strip(line) != []
  {
  }

  /** The lines of a text lacking every marker carry none of them once stripped. */
  lemma UnmarkedWhenAbsent(s: string, lines: seq<string>, markers: seq<string>)
    requires Split(s, "\n") == lines
    requires forall m | m in markers :: !Contains(s, m)
    ensures NoneMarked(lines, markers)
  {
    forall k | 0 <= k < |lines| ensures !HasMarker(Strip(lines[k]), markers) {
      StrippedLineLacksMarkers(s, lines[k], markers);
    }
    NoneMarkedOfEach(lines, markers);
  }

  lemma SystemLineMarkersAbsent(rest: string)
    requires rest == " plan\nAnswer"
    ensures forall m | m in SystemMarkers :: !Contains(rest, m)
  {
    AbsentCharacterAt(rest, SystemMarkers[0], 7);
    AbsentCharacterAt(rest, SystemMarkers[1], 6);
    AbsentCharacterAt(rest, SystemMarkers[2], 8);
    AbsentCharacterAt(rest, SystemMarkers[3], 12);
  }

  /** Stripping a stripped text behind one space gives the text back. */
  lemma StripAfterSpace(c: char, t: string)
    requires IsSpace(c) && t != [] && IsStripped(t)
    ensures Strip([c] + t) == t
  {
    assert ([c] + t)[1..] == t;
    assert StripStart(t) == t;
    assert StripStart([c] + t) == t;
    assert StripEnd(t) == t;
  }

  lemma SystemLineStrip(rest: string, answer: string)
    requires rest == " plan\nAnswer" && answer == "plan\nAnswer"
    ensures Strip(rest) == answer
  {
    assert rest == [' '] + answer;
    StripAfterSpace(' ', answer);
  }

  lemma SystemLineCollapse(answer: string)
    requires answer == "plan\nAnswer"
    ensures Collapse(answer) == answer
  {
    SingleNewline(answer, 4);
  }

  /** A text with a line break at one position at most holds no triple newline. */
  lemma SingleNewline(s: string, k: nat)
    requires forall j :: 0 <= j < |s| && j != k ==> s[j] != '\n'
    ensures !Contains(s, TripleNewline)
  {
    forall i: nat | i <= |s| ensures !OccursAt(s, TripleNewline, i) {
      if i + 3 <= |s| {
        if i != k {
          assert s[i..i + 3][0] != TripleNewline[0];
        } else {
          assert s[i..i + 3][1] != TripleNewline[1];
        }
      }
    }
  }
}
