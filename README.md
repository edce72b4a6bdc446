# Career-coaching guardrails and answer post-processing, in Dafny

This project models two small services of a student career-coaching system.

The **guardrail service** checks text against a fixed policy before it reaches
a student. `policy_check` runs three passes and appends every finding to one
list, in this order:

1. discriminatory phrases, found as substrings of the lower-cased text;
2. personal data (email, phone number, US social security number), found by
   regular-expression search in the original text;
3. unprofessional words, reported together in a single message.

Two endpoints wrap the checker:

- `validate_text` always answers with a response record, `OK` or `VIOLATION`.
- `validate_text_strict` answers `OK` or raises an HTTP 400 error. It also
  raises 400 when the payload holds no string `text`.

The **student-support service** asks an agent crew for coaching advice and then
post-processes what comes back:

- `analyze` sorts the retrieved documents into job, skill and ethics records.
  A document is routed by the type tag under `metadata`, else under `meta`,
  else by a keyword in its own `type`.
- `format_jobs_for_prompt`, `format_skills_for_prompt` and
  `format_ethics_for_prompt` turn those records into numbered or bulleted
  prompt lines, with a fixed default text when there are none.
- `extract_final_answer` cuts the crew's verbose output down to the text after
  the last `Final Answer:` marker. It deletes prompt artifacts, strips the
  result and squeezes blank-line runs. Between those steps a line filter drops
  leading blank lines and system-message lines. Every system marker is also an
  artifact, so the markers are already gone when the filter runs: a line
  opening with `Thought:` is kept with only that word removed. The filter acts
  only on a marker that some deletion has put back together.
- `extract_learning_paths` lists the skill keywords the answer mentions, in
  table order, without repeats and at most five. When none is mentioned it
  returns a fixed default list.

Modules:

- `Wrappers`: `Option` and `Result`.
- `Strings`: Python's `lower`, `in`, `split`, `join`, `replace` and `strip`,
  with lemmas relating them.
- `Regex`: the fragment of `re` the detectors use, given a meaning as a match
  relation.
- `Policy`, `Guardrails`, `FinalAnswer`, `LearningPaths`, `PromptFormat`,
  `Routing`: one per part of the core.

Every statement loop of the source is a method proved equal to a specification
function. Comprehensions and `any(...)` expressions are functions.
The properties the code promises are lemmas about those functions.

## Model

| member | source | states |
|---|---|---|
| Policy.PolicyCheck | guardrails/app/policy.py:24-50 | The result is exactly the discriminatory findings, then the personal-data findings, then the unprofessional-language finding (`Violations`). |
| Policy.CheckPhrases | guardrails/app/policy.py:34-37 | The loop appends to the list it is given one message per banned phrase contained in the lower-cased text, in table order. |
| Policy.CheckPersonalData | guardrails/app/policy.py:39-42 | The loop appends one `PII detected: <kind>` message per detector whose pattern is found in the text, in table order. |
| Policy.DiscriminatoryFindingsMembers | guardrails/app/policy.py:35-37 | A message is reported exactly when it names a table phrase contained in the lower-cased text. |
| Policy.DiscriminatoryFindingsCount | guardrails/app/policy.py:35-37 | Over a table without repeats, each contained phrase is reported exactly once, and an absent phrase is never reported. |
| Policy.DiscriminatoryMessageInjective | guardrails/app/policy.py:37 | Different phrases give different messages. |
| Policy.BannedPatternsDistinct | guardrails/app/policy.py:4-15 | The banned-phrase table has no repeats. |
| Policy.DiscriminatoryFindingsOfTable | guardrails/app/policy.py:4-37 | For the real table, the message for a phrase is reported once when it is a table phrase contained in the lower-cased text, and otherwise not at all. |
| Policy.DiscriminatoryFindingsOrder | guardrails/app/policy.py:35-37 | If phrases i < j are both contained, the message for i comes before the message for j. |
| Policy.DiscriminatoryFindingsAppend | guardrails/app/policy.py:35-37 | Scanning two tables laid end to end gives the findings of the first table followed by those of the second. |
| Policy.PiiFindingsMembers | guardrails/app/policy.py:40-42 | A personal-data message is reported exactly when it names a detector whose pattern is found in the text. |
| Policy.PiiFindingsOfTable | guardrails/app/policy.py:18-22 | For the real table, the personal-data pass gives at most one message per kind, in the order email, phone, ssn, each present exactly when its pattern is found. |
| Policy.FoundWordsMembers | guardrails/app/policy.py:46 | A word is found exactly when it is in the list and contained in the lower-cased text. |
| Policy.FoundWordsInTableOrder | guardrails/app/policy.py:46 | The words found keep list order. |
| Policy.FoundWordsDistinct | guardrails/app/policy.py:46 | The words found are distinct when the list is. |
| Policy.UnprofessionalFindingsShape | guardrails/app/policy.py:45-48 | Pass 3 gives no message when no listed word occurs. Otherwise it gives one message naming every word found, each once, in list order, joined by ", ". |
| Policy.DiscriminatoryMessageCategory | guardrails/app/policy.py:37 | A pass-1 message is recognised as discriminatory by its prefix. |
| Policy.PiiMessageCategory | guardrails/app/policy.py:42 | A pass-2 message is recognised as personal data by its prefix. |
| Policy.UnprofessionalMessageCategory | guardrails/app/policy.py:48 | A pass-3 message is recognised as unprofessional language by its prefix. |
| Policy.DiscriminatoryFindingsCategory | guardrails/app/policy.py:35-37 | Every pass-1 message is of the discriminatory kind. |
| Policy.PiiFindingsCategory | guardrails/app/policy.py:40-42 | Every pass-2 message is of the personal-data kind. |
| Policy.RanksAscend | guardrails/app/policy.py:32-50 | Three groups of messages, one per pass, appended in pass order are ordered by pass. |
| Policy.CategoryOrder | guardrails/app/policy.py:24-50 | Every violation belongs to one pass. All discriminatory messages precede all personal-data messages, which precede the unprofessional-language message. |
| Policy.ViolationsBound | guardrails/app/policy.py:24-50 | At most 10 + 3 + 1 violations are reported. |
| Policy.OnlyPersonalDataReadsCase | guardrails/app/policy.py:31-48 | Two texts with the same lower-cased form get the same violations exactly when their personal-data findings agree. |
| Policy.NoViolationsExactlyWhenClean | guardrails/app/policy.py:24-50 | The result is empty exactly when no banned phrase, no personal-data pattern and no unprofessional word occurs. |
| Policy.EmptyTextIsClean | guardrails/app/policy.py:24-50 | The empty text has no violations. |
| Policy.NoPersonalDataInEmptyText | guardrails/app/policy.py:19-21 | None of the three patterns is found in the empty text. |
| Policy.DigitsMatch | guardrails/app/policy.py:21 | `\d{n}` matches any run of n ASCII digits. |
| Policy.SsnShapeMatches | guardrails/app/policy.py:21 | The ssn pattern matches the whole of "123-45-6789". |
| Policy.SsnShapeIsReported | guardrails/app/policy.py:40-42 | "123-45-6789" is reported as `PII detected: ssn`. |
| Policy.EmailShapeMatches | guardrails/app/policy.py:19 | The email pattern matches the whole of "a@b.cd". |
| Policy.EmailShapeIsReported | guardrails/app/policy.py:40-42 | "a@b.cd" is reported as `PII detected: email`. |
| Policy.PhoneShapeMatches | guardrails/app/policy.py:20 | The phone pattern matches the whole of "555-123-4567". |
| Policy.PhoneShapeIsReported | guardrails/app/policy.py:40-42 | "555-123-4567" is reported as `PII detected: phone`. |
| Guardrails.ValidateText | guardrails/app/app.py:26-53 | The answer is valid exactly when the text is clean. A valid answer is `OK` and echoes the text with no list. A rejected answer is `VIOLATION` with no text and the checker's non-empty list. |
| Guardrails.ValidateTextStrict | guardrails/app/app.py:56-75 | A payload without a string `text` fails with 400 and the fixed message. Success happens exactly when the text is clean, and answers `OK` with the text. Otherwise it fails with 400, `POLICY_VIOLATION` and the checker's list. |
| FinalAnswer.ExtractFinalAnswer | student_support/app.py:312-373 | Returns `FinalAnswer(crewOutput)`: the text after the last marker, cleaned, or the fallback when nothing is left. |
| FinalAnswer.CleanOutput | student_support/app.py:325-371 | Artifact removal, line filtering, joining, stripping and squeezing compute `Cleaned` for the given tables. |
| FinalAnswer.RemoveEach | student_support/app.py:340-341 | The loop deletes every occurrence of each artifact in turn (`RemoveAll`). |
| FinalAnswer.KeepLines | student_support/app.py:344-364 | The line loop computes `FilterLines`: the lines kept and the skip flag. |
| FinalAnswer.CollapseNewlines | student_support/app.py:370-371 | The while loop computes `Collapse`. |
| FinalAnswer.FinalAnswerShape | student_support/app.py:367-373 | The answer is never empty. It is either the fallback text or a stripped text without three consecutive newlines. |
| FinalAnswer.CleanedShape | student_support/app.py:367-371 | The cleaned text is stripped and holds no three consecutive newlines. |
| FinalAnswer.CollapseKeepsStripped | student_support/app.py:370-371 | Squeezing keeps a stripped text stripped and leaves no triple newline. It empties only the empty text. |
| FinalAnswer.KeptLinesClean | student_support/app.py:343-364 | The kept lines are lines of the input in their original order. None carries a system marker, and the first is not blank. |
| FinalAnswer.StepKeepsClean | student_support/app.py:348-364 | One iteration of the line loop preserves that property. |
| FinalAnswer.HasMarkerMembers | student_support/app.py:356 | A stripped line counts as a system message exactly when it contains one of the markers. |
| FinalAnswer.StepKeepsLine | student_support/app.py:348-364 | Outside a skip, a line without a marker is appended unless it is a leading blank line, and the skip flag stays off. |
| FinalAnswer.KeptCleanAppend | student_support/app.py:364 | Appending a line without a marker that is not a leading blank keeps the kept lines clean. |
| FinalAnswer.FilterKeepsAll | student_support/app.py:348-364 | Lines without markers, the first not blank, are all kept and the skip flag stays off. |
| FinalAnswer.AnswerFollowsLastMarker | student_support/app.py:316-319 | When the marker occurs, the text used is the stripped text after an occurrence with no later occurrence. |
| FinalAnswer.NoLaterMarker | student_support/app.py:317-319 | After the last split piece's marker, no marker starts. |
| FinalAnswer.MarkerDoesNotOverlapItself | student_support/app.py:316-317 | Two occurrences of the marker never overlap. |
| FinalAnswer.RemoveAllAbsent | student_support/app.py:340-341 | Removing artifacts that do not occur changes nothing. |
| FinalAnswer.StrippedLineLacksMarkers | student_support/app.py:349-356 | A line of a text without any marker has no marker once stripped. |
| FinalAnswer.CleanAnswerUnchanged | student_support/app.py:312-373 | A non-empty answer passes through unchanged when it has no marker, artifact, surrounding whitespace or triple newline. |
| FinalAnswer.ArtifactsNonEmpty | student_support/app.py:326-338 | No artifact is the empty string. |
| FinalAnswer.SystemLineKeptWithoutMarker | student_support/app.py:326-364 | "Thought: plan\nAnswer" cleans to "plan\nAnswer". The marker word is deleted as an artifact, and the line it opened is kept. |
| LearningPaths.ExtractLearningPaths | student_support/app.py:375-405 | Returns `LearningPaths(message)`. |
| LearningPaths.MatchKeywords | student_support/app.py:399-401 | The loop collects the keywords mentioned case-insensitively, in table order (`Matched`). |
| LearningPaths.MatchedMembers | student_support/app.py:399-401 | A keyword is collected exactly when it is in the table and mentioned in the message. |
| LearningPaths.MatchedInTableOrder | student_support/app.py:399-401 | The collected keywords are a subsequence of the table. |
| LearningPaths.DedupProperties | student_support/app.py:404 | De-duplication keeps exactly the same elements, each once, as a subsequence of the input. |
| LearningPaths.DedupOfDistinct | student_support/app.py:404 | De-duplicating a list without repeats changes nothing. |
| LearningPaths.DedupKeepsFirst | student_support/app.py:404 | De-duplication keeps the first element first. |
| LearningPaths.LearningPathsShape | student_support/app.py:399-405 | One to five distinct suggestions. When no keyword is mentioned they are the default list. When one is, they are keywords mentioned in the message, in table order. |
| LearningPaths.MentionedIsSuggested | student_support/app.py:399-405 | When at most five keywords are mentioned, every mentioned keyword is suggested. |
| LearningPaths.DedupNoLonger | student_support/app.py:404 | De-duplication never lengthens a list. |
| LearningPaths.FirstSuggestion | student_support/app.py:399-405 | With no keyword mentioned the default list is returned. Otherwise the first suggestion is the first mentioned keyword of the table. |
| LearningPaths.MatchedIgnoresCase | student_support/app.py:400 | Matching depends only on the lower-cased message. |
| LearningPaths.LearningPathsIgnoreCase | student_support/app.py:375-405 | Lower-casing the message does not change the suggestions. |
| LearningPaths.LetterRMentionsR | student_support/app.py:382 | Any message containing the letter r, in either case, yields the keyword "R". |
| Strings.PrefixIsSubsequence | student_support/app.py:405 | Taking the first five keeps a subsequence. |
| PromptFormat.FormatJobsForPrompt | student_support/app.py:407-414 | Returns `FormatJobs(jobs)`. |
| PromptFormat.JobLinesNumbered | student_support/app.py:410-413 | There is one line per record, and line k is `k+1. ` followed by that record's text. |
| PromptFormat.JobLineAt | student_support/app.py:410-413 | The same fact, for a single line k. |
| PromptFormat.JobTextFallsBackToContent | student_support/app.py:412 | Without a study program or title, the text is a prefix of the content (default "No content") of at most 100 characters. |
| PromptFormat.JobPromptLines | student_support/app.py:408-414 | When no record's text holds a line break, the prompt splits back into exactly the lines for the first min(n, 5) records. |
| PromptFormat.JobPromptDefault | student_support/app.py:408 | The default "..." is returned exactly when there are no jobs. |
| PromptFormat.DecimalIsDigits | student_support/app.py:413 | A line number and its ". " hold no line break. |
| PromptFormat.FormatSkillsForPrompt | student_support/app.py:416-427 | Returns `FormatSkills(skills)`. |
| PromptFormat.SkillLinesNumbered | student_support/app.py:422-425 | There is one line per record, and line k is `k+1. program: skills` for that record. |
| PromptFormat.SkillPromptLines | student_support/app.py:418-427 | When no program or skill list holds a line break, the prompt splits back into exactly the lines for the first min(n, 5) records. |
| PromptFormat.SkillPromptDefault | student_support/app.py:418-419 | The default text is returned exactly when there are no skills. |
| PromptFormat.FormatEthicsForPrompt | student_support/app.py:429-440 | Returns `FormatEthics(guidelines)`. |
| PromptFormat.EthicsLinesInOrder | student_support/app.py:435-438 | There is one bulleted line per guideline, in order. |
| PromptFormat.EthicsLineShape | student_support/app.py:436-438 | A line starts with "- " and holds at most 150 characters of the content, plus the title and fixed punctuation. |
| PromptFormat.EthicsPromptLines | student_support/app.py:431-440 | When no title or content holds a line break, the prompt splits back into exactly the lines for the first min(n, 3) guidelines. |
| PromptFormat.EthicsPromptDefault | student_support/app.py:431-432 | The default text is returned exactly when there are no guidelines. |
| Routing.RouteDocuments | student_support/app.py:199-248 | Each list ends as its initial contents followed by the records the documents route to it, in document order (`Picked`). |
| Routing.PickedAtMostOnce | student_support/app.py:199-248 | Each document lands in at most one list. |
| Routing.PickedAppend | student_support/app.py:185-189 | Routing the combined results of the three searches equals routing each search in turn. |
| Routing.PickedMembers | student_support/app.py:199-248 | A record is in a list exactly when some document routes it there. |
| Routing.RoutedRecordsAreDictionaries | student_support/app.py:202-242 | Only dictionaries are routed, and every record kept is a dictionary. |
| Routing.MetadataRouting | student_support/app.py:202-216 | Under "metadata", the metadata goes to a list exactly when it is a dictionary whose type equals that list's tag. A "meta" key beside it is ignored. |
| Routing.MetaRouting | student_support/app.py:219-230 | Under "meta" alone, the same exact-tag rule applies. |
| Routing.PlainRouting | student_support/app.py:233-242 | A plain dictionary goes to a list exactly when its type is a string whose lower-cased form contains that list's word and no word tried before it. |
| Routing.UntypedPlainSkipped | student_support/app.py:235-242 | A plain dictionary without a type, or with an empty one, is skipped. |

## Left out

- Character handling is ASCII. `lower` changes only A-Z, `\d` is 0-9, `\w` is `[A-Za-z0-9_]`, and whitespace for `strip` and `\s` is space, tab through carriage return, and the characters 0x1C-0x1F. Python applies Unicode rules to all of these.
- Regular expressions are modelled as a match relation. Only whether some match exists is modelled, which is all `re.search` is used for here; which match the backtracking engine finds first is not.
- Logging, `print`, FastAPI routing and request parsing are not modelled. The validated text and the strict payload are parameters. Pydantic's check that `text` is a string for the lenient endpoint is not modelled.
- The calls to the retrieval service (`search_haystack`) and to the agent crew are not modelled. The documents and the crew output are parameters. The rest of `analyze` and `student_support`, the agent definitions, `haystack/app.py`, `ingest.py`, `import_to_weaviate.py` and `guardrails/app/schemas.py` are not part of this model.
- Routing.RouteDocuments: a document whose handling raises an exception is skipped. The model covers the exceptions the code can raise: a `metadata` or `meta` value that is not a dictionary, and a plain document whose `type` is not a string. Other JSON values are collapsed into one `Other` case.
- PromptFormat: records are maps from field names to strings. A record field holding a number, list or null is not modelled, and neither is slicing such a value.
- FinalAnswer: after a system-marker line, the next blank line is dropped. Non-blank lines in between are kept and do not clear the flag. The model follows the code in this.
- LearningPaths: matching is plain substring search, so short keywords such as "R", "Go", "AI" and "Git" match inside longer words. The model follows the code, and LetterRMentionsR states the consequence for "R".
