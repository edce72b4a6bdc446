/**
 * The three formatters that turn retrieved records into prompt text for the
 * agent crew: numbered job lines (at most five), numbered skill lines (at most
 * five) and bulleted ethics lines (at most three), one record per line, each
 * with a fixed default text when there are no records.
 */
module PromptFormat {
  import opened Wrappers
  import opened Strings

  /** A retrieved record's metadata: field name to text. */
  type Record = map<string, string>

  /** `record.get(key, default)`. */
  function GetOr(r: Record, key: string, default: string): string {
    if key in r then r[key] else default
  }

  /** `record.get(key)` is truthy: present and non-empty. */
  predicate Truthy(r: Record, key: string) {
    key in r && r[key] != []
  }

  const Newline: char := '\n'

  const StudyProgramKey: string := "study_program"
  const TitleKey: string := "title"
  const ContentKey: string := "content"
  const SkillsKey: string := "skills"

  // ---------------------------------------------------------------- jobs

  const MaxJobs: nat := 5
  const JobContentLimit: nat := 100
  const NoJobs: string := "..."

  /** The study program, else the title, else the first 100 characters of the content. */
  function JobText(job: Record): string {
    if Truthy(job, StudyProgramKey) then job[StudyProgramKey]
    else if Truthy(job, TitleKey) then job[TitleKey]
    else Take(GetOr(job, ContentKey, "No content"), JobContentLimit)
  }

  function JobLine(i: nat, job: Record): string {
    DecimalString(i) + ". " + JobText(job)
  }

  /** The lines for `jobs`, numbered from 1. */
  function JobLines(jobs: seq<Record>): seq<string>
    decreases |jobs|
  {
    if jobs == [] then []
    else JobLines(jobs[..|jobs| - 1]) + [JobLine(|jobs|, jobs[|jobs| - 1])]
  }

  function FormatJobs(jobs: seq<Record>): string {
    if jobs == [] then NoJobs else Join(JobLines(Take(jobs, MaxJobs)), [Newline])
  }

  method FormatJobsForPrompt(jobs: seq<Record>) returns (text: string)
    ensures text == FormatJobs(jobs)
  {
    if jobs == [] {
      return NoJobs;
    }
    var first := Take(jobs, MaxJobs);
    var formatted: seq<string> := [];
    for i := 0 to |first|
      invariant formatted == JobLines(first[..i])
    {
      assert first[..i + 1][..i] == first[..i];
      formatted := formatted + [JobLine(i + 1, first[i])];
    }
    assert first[..|first|] == first;
    text := Join(formatted, [Newline]);
  }

  /** Line `k` describes record `k` and carries the number `k + 1`. */
  lemma {:induction false} JobLinesNumbered(jobs: seq<Record>)
    ensures |JobLines(jobs)| == |jobs|
    ensures forall k :: 0 <= k < |jobs| ==> JobLines(jobs)[k] == JobLine(k + 1, jobs[k])
    decreases |jobs|
  {
    if jobs != [] {
      JobLinesNumbered(jobs[..|jobs| - 1]);
      forall k | 0 <= k < |jobs| ensures JobLines(jobs)[k] == JobLine(k + 1, jobs[k]) {
        JobLineAt(jobs, k);
      }
    }
  }

  lemma {:induction false} JobLineAt(jobs: seq<Record>, k: nat)
    requires k < |jobs|
    ensures |JobLines(jobs)| == |jobs| && JobLines(jobs)[k] == JobLine(k + 1, jobs[k])
    decreases |jobs|
  {
    var init := jobs[..|jobs| - 1];
    if k < |init| {
      JobLineAt(init, k);
    } else if init != [] {
      JobLineAt(init, 0);
    }
  }

  /** Without a study program or title, the job text is a prefix of the content of at most 100 characters. */
  lemma JobTextFallsBackToContent(job: Record)
    requires !Truthy(job, StudyProgramKey) && !Truthy(job, TitleKey)
    ensures |JobText(job)| <= JobContentLimit
    ensures JobText(job) <= GetOr(job, ContentKey, "No content")
  {
  }

  /**
   * The job prompt splits back into one line per record, for the first five
   * records, when no record's text holds a line break.
   */
  lemma JobPromptLines(jobs: seq<Record>)
    requires jobs != []
    requires forall k :: 0 <= k < |jobs| ==> Newline !in JobText(jobs[k])
    ensures Split(FormatJobs(jobs), [Newline]) == JobLines(Take(jobs, MaxJobs))
    ensures |Split(FormatJobs(jobs), [Newline])| == if |jobs| < MaxJobs then |jobs| else MaxJobs
  {
    var first := Take(jobs, MaxJobs);
    JobLinesNumbered(first);
    forall k | 0 <= k < |first| ensures Newline !in JobLines(first)[k] {
      DecimalIsDigits(k + 1);
    }
    SplitJoin(JobLines(first), Newline);
  }

  /** The default text is given exactly when there are no jobs. */
  lemma JobPromptDefault(jobs: seq<Record>)
    ensures FormatJobs(jobs) == NoJobs <==> jobs == []
  {
    if jobs != [] {
      var first := Take(jobs, MaxJobs);
      JobLinesNumbered(first);
      assert JobLines(first)[0] == DecimalString(1) + ". " + JobText(first[0]);
      JoinFirstCharacter(JobLines(first), [Newline]);
    }
  }

  lemma DecimalIsDigits(n: nat)
    ensures Newline !in DecimalString(n) + ". "
  {
    var d := DecimalString(n);
    assert forall k :: 0 <= k < |d| ==> d[k] != Newline;
  }

  // -------------------------------------------------------------- skills

  const MaxSkills: nat := 5
  const NoSkills: string :=
    "No specific skills provided - "
    + "recommend based on query"

  /** The study program when truthy, else the title, else "Unknown". */
  function SkillProgram(skill: Record): string {
    if Truthy(skill, StudyProgramKey) then skill[StudyProgramKey] else GetOr(skill, TitleKey, "Unknown")
  }

  /** The skills field, else the content, else nothing. */
  function SkillList(skill: Record): string {
    GetOr(skill, SkillsKey, GetOr(skill, ContentKey, ""))
  }

  function SkillLine(i: nat, skill: Record): string {
    DecimalString(i) + ". " + SkillProgram(skill) + ": " + SkillList(skill)
  }

  function SkillLines(skills: seq<Record>): seq<string>
    decreases |skills|
  {
    if skills == [] then []
    else SkillLines(skills[..|skills| - 1]) + [SkillLine(|skills|, skills[|skills| - 1])]
  }

  function FormatSkills(skills: seq<Record>): string {
    if skills == [] then NoSkills else Join(SkillLines(Take(skills, MaxSkills)), [Newline])
  }

  method FormatSkillsForPrompt(skills: seq<Record>) returns (text: string)
    ensures text == FormatSkills(skills)
  {
    if skills == [] {
      return NoSkills;
    }
    var first := Take(skills, MaxSkills);
    var formatted: seq<string> := [];
    for i := 0 to |first|
      invariant formatted == SkillLines(first[..i])
    {
      assert first[..i + 1][..i] == first[..i];
      formatted := formatted + [SkillLine(i + 1, first[i])];
    }
    assert first[..|first|] == first;
    text := Join(formatted, [Newline]);
  }

  lemma {:induction false} SkillLinesNumbered(skills: seq<Record>)
    ensures |SkillLines(skills)| == |skills|
    ensures forall k :: 0 <= k < |skills| ==> SkillLines(skills)[k] == SkillLine(k + 1, skills[k])
    decreases |skills|
  {
    if skills != [] {
      SkillLinesNumbered(skills[..|skills| - 1]);
    }
  }

  /**
   * The skills prompt splits back into one line per record, for the first
   * five records, when no program or skill list holds a line break.
   */
  lemma SkillPromptLines(skills: seq<Record>)
    requires skills != []
    requires forall k :: 0 <= k < |skills| ==>
      Newline !in SkillProgram(skills[k]) && Newline !in SkillList(skills[k])
    ensures Split(FormatSkills(skills), [Newline]) == SkillLines(Take(skills, MaxSkills))
    ensures |Split(FormatSkills(skills), [Newline])| == if |skills| < MaxSkills then |skills| else MaxSkills
  {
    var first := Take(skills, MaxSkills);
    SkillLinesNumbered(first);
    forall k | 0 <= k < |first| ensures Newline !in SkillLines(first)[k] {
      DecimalIsDigits(k + 1);
    }
    SplitJoin(SkillLines(first), Newline);
  }

  lemma SkillPromptDefault(skills: seq<Record>)
    ensures FormatSkills(skills) == NoSkills <==> skills == []
  {
    if skills != [] {
      var first := Take(skills, MaxSkills);
      SkillLinesNumbered(first);
      assert SkillLines(first)[0] == DecimalString(1) + ". " + SkillProgram(first[0]) + ": " + SkillList(first[0]);
      JoinFirstCharacter(SkillLines(first), [Newline]);
      assert DigitChar(1) == '1';
      assert NoSkills[0] == 'N';
    }
  }

  // -------------------------------------------------------------- ethics

  const MaxGuidelines: nat := 3
  const GuidelineContentLimit: nat := 150
  const NoGuidelines: string :=
    "Standard ethics: Provide fair, "
    + "unbiased, merit-based recommendations"

  function EthicsLine(guideline: Record): string {
    "- " + GetOr(guideline, TitleKey, "Ethics Guideline") + ": "
    + Take(GetOr(guideline, ContentKey, ""), GuidelineContentLimit) + "..."
  }

  function EthicsLines(guidelines: seq<Record>): seq<string>
    decreases |guidelines|
  {
    if guidelines == [] then []
    else EthicsLines(guidelines[..|guidelines| - 1]) + [EthicsLine(guidelines[|guidelines| - 1])]
  }

  function FormatEthics(guidelines: seq<Record>): string {
    if guidelines == [] then NoGuidelines else Join(EthicsLines(Take(guidelines, MaxGuidelines)), [Newline])
  }

  method FormatEthicsForPrompt(guidelines: seq<Record>) returns (text: string)
    ensures text == FormatEthics(guidelines)
  {
    if guidelines == [] {
      return NoGuidelines;
    }
    var first := Take(guidelines, MaxGuidelines);
    var formatted: seq<string> := [];
    for i := 0 to |first|
      invariant formatted == EthicsLines(first[..i])
    {
      assert first[..i + 1][..i] == first[..i];
      formatted := formatted + [EthicsLine(first[i])];
    }
    assert first[..|first|] == first;
    text := Join(formatted, [Newline]);
  }

  lemma {:induction false} EthicsLinesInOrder(guidelines: seq<Record>)
    ensures |EthicsLines(guidelines)| == |guidelines|
    ensures forall k :: 0 <= k < |guidelines| ==> EthicsLines(guidelines)[k] == EthicsLine(guidelines[k])
    decreases |guidelines|
  {
    if guidelines != [] {
      EthicsLinesInOrder(guidelines[..|guidelines| - 1]);
    }
  }

  /** A guideline line is a bullet holding at most 150 characters of the content, followed by an ellipsis. */
  lemma EthicsLineShape(guideline: Record)
    ensures StartsWith(EthicsLine(guideline), "- ")
    ensures |EthicsLine(guideline)| <= |GetOr(guideline, TitleKey, "Ethics Guideline")| + GuidelineContentLimit + 7
  {
  }

  /**
   * The ethics prompt splits back into one line per guideline, for the first
   * three, when no title or content holds a line break.
   */
  lemma EthicsPromptLines(guidelines: seq<Record>)
    requires guidelines != []
    requires forall k :: 0 <= k < |guidelines| ==>
      Newline !in GetOr(guidelines[k], TitleKey, "Ethics Guideline") && Newline !in GetOr(guidelines[k], ContentKey, "")
    ensures Split(FormatEthics(guidelines), [Newline]) == EthicsLines(Take(guidelines, MaxGuidelines))
    ensures |Split(FormatEthics(guidelines), [Newline])| == if |guidelines| < MaxGuidelines then |guidelines| else MaxGuidelines
  {
    var first := Take(guidelines, MaxGuidelines);
    EthicsLinesInOrder(first);
    forall k | 0 <= k < |first| ensures Newline !in EthicsLines(first)[k] {
      var content := GetOr(first[k], ContentKey, "");
      var cut := Take(content, GuidelineContentLimit);
      assert cut == content[..|cut|];
    }
    SplitJoin(EthicsLines(first), Newline);
  }

  lemma EthicsPromptDefault(guidelines: seq<Record>)
    ensures FormatEthics(guidelines) == NoGuidelines <==> guidelines == []
  {
    if guidelines != [] {
      var first := Take(guidelines, MaxGuidelines);
      EthicsLinesInOrder(first);
      JoinFirstCharacter(EthicsLines(first), [Newline]);
      assert EthicsLines(first)[0][0] == '-';
      assert NoGuidelines[0] == 'S';
    }
  }
}
