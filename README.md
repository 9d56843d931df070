# HR resume agent: the decision logic, in Dafny

This project models the deterministic decision code of an HR assistant that
watches a folder for resumes, has a language model extract them into JSON,
scores each resume against a job requirement and schedules interviews. The
language-model calls themselves are inputs to the model. What is modelled
and proved:

- **Interview scheduling** (`interview_scheduler.dfy`, module
  `InterviewScheduling`):
  - the strict overlap test on time slots;
  - the "common slot" search over interviewers and the candidate's preferences;
  - the two-pass best-slot choice: first fitting weekday morning slot, else first fitting slot;
  - the scheduler's list of `Interview` records, with scheduling, lookup and status update.

  Times are integers counting minutes from a Monday 00:00. The weekday is
  `(t / 1440) % 7` and the hour `(t % 1440) / 60`. The pure functions
  (`CommonSlots`, `BestSlot`) specify the scheduler's loop methods, which
  are proved equal to them.
- **Resume evaluation** (`resume_evaluator.dfy`, module `ResumeEvaluation`):
  - the case-insensitive skill match and the 70/30 weighted score, as an exact real;
  - the experience total (the sum of `len(entry)` over the work history) and the education substring test;
  - the three-way recommendation.
- **Model-output repair and validation** (`resume_parser.dfy`, module
  `ResumeParsing`): the quote and `None` repair, the at-most-two decoding
  attempts, the mandatory-name check, and the outcome of `parse`. The JSON
  decoder is a function parameter, and `json_value.dfy` gives the decoded
  values with Python's truthiness and `len()`.
- **Polling folder watcher** (`polling_watcher.dfy`, module
  `PollingWatcher`): a `FileWatcher` class. Its `processedFiles` set starts
  empty and grows only when a file's callback returns. The module also has
  the unprocessed-files query and one pass of the polling loop. The
  directory listing is an input set of names.
- **Event-driven resume monitor** (`resume_monitor.dfy`, module
  `ResumeMonitor`):
  - the directory guard of the created-file handler;
  - the admission filter: the lower-cased `pathlib` suffix must be `.pdf`, `.docx` or `.doc`, and the name must not start with `~$`.

`common.dfy` holds shared vocabulary: `Option`/`Result`, ASCII lower-casing,
prefix/suffix/substring tests, and the subsequence relation.

### Behaviours of the code one might not expect

The model follows the code in each case.

- **Partial overlap:** one might expect a common slot to lie wholly inside every interviewer's availability. The code accepts any partial overlap (src/core_pipeline/interview_scheduler.py:61-64). `PreferredSlotCanBeCommon` shows such a slot.
- **Preferred slots:** the code adds the candidate's preferred slots to the pool of candidate slots (lines 53-54), so "disjoint interviewers give no slot" holds only without preferences (`DisjointInterviewersHaveNoCommonSlot`).
- **Empty required skills:** one might expect 70 points of vacuous credit. The code divides by zero (src/core_pipeline/resume_evaluator.py:60), which `SkillMatchScore` models as `Err(DivisionByZero)`. No clamp to [0, 100] is needed: `SkillMatchScore` proves the bounds.
- **Feedback failure:** one might expect a failed feedback call to be downgraded to a note. The code re-raises it (resume_evaluator.py:103-105), which `EvaluateResume` models as `Err(FeedbackFailed(..))`.
- **Code fences:** one might expect the repair to strip code fences and whitespace. The code only replaces quotes and `None` (core/parser.py:63).
- **Repaired path:** the value reached through the repair is returned without the name check (core/parser.py:64).
- **Untyped list entries:** a skill or education entry that is not a string makes `.lower()` raise (src/core_pipeline/resume_evaluator.py:43 and 133). For education the `any` stops at the first match, so a bad entry after it is never read (`EducationScanSpec`).

## Model

| member | source | states |
|---|---|---|
| InterviewScheduling.Overlaps | src/core_pipeline/interview_scheduler.py:77-81 | definition of the strict overlap test; specified by OverlapsSymmetricStrict and OverlapsIffShareInstant |
| InterviewScheduling.AllAvailable | src/core_pipeline/interview_scheduler.py:48-50 | definition: the interviewers' slots concatenated in order; specified by AllAvailablePair and CommonSlotsSpec |
| InterviewScheduling.Preferences | src/core_pipeline/interview_scheduler.py:53-54 | definition: the candidate's preferred slots, none without a candidate; used by CommonSlotsSpec |
| InterviewScheduling.KeepCommon | src/core_pipeline/interview_scheduler.py:57-73 | definition of the filtering loop; specified by KeepCommonSpec |
| InterviewScheduling.CommonSlots | src/core_pipeline/interview_scheduler.py:44-75 | definition; specified by CommonSlotsSpec, computed by InterviewScheduler.FindCommonSlots |
| InterviewScheduling.OverlapsSymmetricStrict | src/core_pipeline/interview_scheduler.py:77-81 | overlap is symmetric, and slots that only touch at an endpoint do not overlap |
| InterviewScheduling.OverlapsIffShareInstant | src/core_pipeline/interview_scheduler.py:77-81 | slots sharing an instant overlap; non-empty overlapping slots share an instant; an inverted slot can pass the test while holding no instant |
| InterviewScheduling.KeepCommonSpec | src/core_pipeline/interview_scheduler.py:57-73 | the filter keeps exactly the pool slots that pass the common test, in pool order, with every copy: a common slot listed n times comes back n times, any other slot never |
| InterviewScheduling.CommonSlotsSpec | src/core_pipeline/interview_scheduler.py:44-75 | a slot is returned iff it is in the interviewers' slots followed by the preferences, overlaps a slot of every interviewer, and overlaps a preferred slot when there are preferences; output order is input order, and a returned slot comes back as often as the pool lists it (two interviewers sharing a slot give it twice) |
| InterviewScheduling.AllAvailablePair | src/core_pipeline/interview_scheduler.py:48-50 | the pool of two interviewers is the first one's slots followed by the second one's |
| InterviewScheduling.DisjointInterviewersHaveNoCommonSlot | src/core_pipeline/interview_scheduler.py:56-73 | two interviewers whose slots never overlap, with no preferences, have no common slot |
| InterviewScheduling.NothingCommonKeepsNothing | src/core_pipeline/interview_scheduler.py:57-75 | when no pool slot passes the test the result is empty |
| InterviewScheduling.KeepCommonOfThree | src/core_pipeline/interview_scheduler.py:57-73 | on a three-slot pool each slot is kept, in order, exactly when it passes the test |
| InterviewScheduling.PreferredSlotCanBeCommon | src/core_pipeline/interview_scheduler.py:53-73 | interviewers free 09:00-10:00 and 10:00-11:00 share nothing, yet a preferred 08:20-11:40 slot becomes the one common slot |
| InterviewScheduling.Fits | src/core_pipeline/interview_scheduler.py:104 | definition: the window of the duration ends within the slot; used by BestSlotChoice |
| InterviewScheduling.WeekdayMorning | src/core_pipeline/interview_scheduler.py:95-96 | definition: Monday to Friday, hour 9 to 11; used by BestSlotChoice and MondayMorningWins |
| InterviewScheduling.BestSlot | src/core_pipeline/interview_scheduler.py:83-107 | definition; specified by BestSlotChoice, computed by InterviewScheduler.SelectBestSlot |
| InterviewScheduling.FirstAcceptable | src/core_pipeline/interview_scheduler.py:90-105 | one scanning pass stops at the first slot passing its test, or passes over all of them |
| InterviewScheduling.BestSlotChoice | src/core_pipeline/interview_scheduler.py:83-107 | nothing iff no slot fits; else a window of the duration at the start of a fitting input slot, from the first fitting weekday-morning slot if any, else from the first fitting slot |
| InterviewScheduling.MondayMorningWins | src/core_pipeline/interview_scheduler.py:89-97 | a later-listed Monday 09:00 slot beats an earlier afternoon slot |
| InterviewScheduling.Interview.constructor | src/core_pipeline/interview_scheduler.py:22-30 | a new record holds the given fields and no feedback |
| InterviewScheduling.InterviewScheduler.constructor | src/core_pipeline/interview_scheduler.py:41 | the scheduler starts with no interviews |
| InterviewScheduling.InterviewScheduler.FindCommonSlots | src/core_pipeline/interview_scheduler.py:44-75 | the two loops compute exactly the common slots |
| InterviewScheduling.InterviewScheduler.OverlapsAllInterviewers | src/core_pipeline/interview_scheduler.py:59-66 | the inner loop answers true iff every interviewer has a slot overlapping the given one |
| InterviewScheduling.InterviewScheduler.SelectBestSlot | src/core_pipeline/interview_scheduler.py:83-107 | the two scanning loops return exactly the best-slot choice |
| InterviewScheduling.InterviewScheduler.ScheduleInterview | src/core_pipeline/interview_scheduler.py:124-166 | no slot: returns null and the list is unchanged; else exactly one fresh record is appended, at the chosen slot, status "scheduled", no feedback, location the meeting link or "会议室A" |
| InterviewScheduling.InterviewScheduler.GetInterviewStatus | src/core_pipeline/interview_scheduler.py:172-177 | null iff no stored interview has the email; otherwise the first that has it |
| InterviewScheduling.InterviewScheduler.UpdateInterviewStatus | src/core_pipeline/interview_scheduler.py:179-185 | any status is stored; feedback changes only when a non-empty one is given |
| Common.Lower | src/core_pipeline/resume_evaluator.py:43-45 | str.lower() on ASCII letters: same length, each letter lower-cased; specified by its own contract and LowerIdempotent |
| ResumeEvaluation.Strings | src/core_pipeline/resume_evaluator.py:43 | no value iff some resume skill entry is not a string (its `.lower()` raises); otherwise the entries' strings, in order |
| ResumeEvaluation.LowerAll | src/core_pipeline/resume_evaluator.py:43-45 | definition of the new list of lower-cased skills; specified by MatchedIsSelected and ScoreIgnoresCaseAndOrder |
| ResumeEvaluation.Select | src/core_pipeline/resume_evaluator.py:48-57 | a comprehension never yields more skills than it reads |
| ResumeEvaluation.SelectSpec | src/core_pipeline/resume_evaluator.py:48-57 | a skill is selected iff its lower-case form is (or is not) among the resume's, in original order and case |
| ResumeEvaluation.SelectPartition | src/core_pipeline/resume_evaluator.py:48-57 | every required skill lands in exactly one of the matching and missing lists |
| ResumeEvaluation.SelectCount | src/core_pipeline/resume_evaluator.py:48-57 | a selected skill is kept as often as the list holds it, any other never |
| ResumeEvaluation.SelectSameMembers | src/core_pipeline/resume_evaluator.py:43-57 | selection depends only on the set of lower-cased resume skills |
| ResumeEvaluation.SelectMonotone | src/core_pipeline/resume_evaluator.py:47-53 | more resume skills never match fewer job skills |
| ResumeEvaluation.Weighted | src/core_pipeline/resume_evaluator.py:60 | definition of part / whole * weight; specified by WeightedBounds and WeightedMonotone |
| ResumeEvaluation.PreferredScore | src/core_pipeline/resume_evaluator.py:61-62 | definition, 30 without preferred skills; specified by PreferredScoreBounds and ScoreExtremes |
| ResumeEvaluation.WeightedBounds | src/core_pipeline/resume_evaluator.py:60-62 | a weighted fraction lies in [0, weight], reaching weight iff all match and 0 iff none do |
| ResumeEvaluation.WeightedMonotone | src/core_pipeline/resume_evaluator.py:60-62 | a weighted fraction grows with the matched count |
| ResumeEvaluation.PreferredScoreBounds | src/core_pipeline/resume_evaluator.py:61-62 | the preferred part lies in [0, 30] |
| ResumeEvaluation.SkillMatchScore | src/core_pipeline/resume_evaluator.py:39-65 | an error (division by zero) iff no required skill; otherwise a score in [0, 100] |
| ResumeEvaluation.MatchedIsSelected | src/core_pipeline/resume_evaluator.py:43-53 | the lower-case list membership test means "some resume skill equals it up to case" |
| ResumeEvaluation.SkillListsOrder | src/core_pipeline/resume_evaluator.py:43-65 | the membership, order and partition half of SkillListsSpec |
| ResumeEvaluation.MatchingCount | src/core_pipeline/resume_evaluator.py:48-53 | a matched skill appears in the matching list as often as the required and preferred lists hold it together |
| ResumeEvaluation.SkillListsSpec | src/core_pipeline/resume_evaluator.py:43-65 | matching list = matched required then matched preferred, missing = unmatched required, order and case kept, required skills partitioned; a matched skill appears as often as the required and preferred lists hold it together |
| ResumeEvaluation.SelectExtremes | src/core_pipeline/resume_evaluator.py:48-57 | all skills matched iff the matched count is full; none matched iff it is zero |
| ResumeEvaluation.ScoreExtremes | src/core_pipeline/resume_evaluator.py:60-64 | no preferred skills gives the full 30; score 100 iff everything matched; with preferred skills, 0 iff nothing matched |
| ResumeEvaluation.ScoreMonotone | src/core_pipeline/resume_evaluator.py:39-64 | adding resume skills never lowers the score |
| ResumeEvaluation.ScoreIgnoresCaseAndOrder | src/core_pipeline/resume_evaluator.py:42-64 | resumes listing the same skills up to case, order and repetition get the same result |
| JsonValue.Len | src/core_pipeline/resume_evaluator.py:128 | len() fails exactly on null, booleans and numbers |
| ResumeEvaluation.TotalExperience | src/core_pipeline/resume_evaluator.py:128 | definition; specified by TotalExperienceFails and TotalExperienceAppend |
| ResumeEvaluation.TotalExperienceFails | src/core_pipeline/resume_evaluator.py:128 | the experience sum fails iff some entry has no length |
| ResumeEvaluation.TotalExperienceAppend | src/core_pipeline/resume_evaluator.py:128 | the experience sum adds up over a split of the work history |
| ResumeEvaluation.EducationMatch | src/core_pipeline/resume_evaluator.py:132-135 | definition of the test on string entries; specified by EducationMatchEdges and tied to the scan by EducationScanOfStrings |
| ResumeEvaluation.EducationMatchEdges | src/core_pipeline/resume_evaluator.py:132-135 | an empty education list never matches, an empty requirement matches any non-empty list, and the requirement's case does not matter |
| ResumeEvaluation.EducationScan | src/core_pipeline/resume_evaluator.py:132-135 | definition of the short-circuiting scan over decoded entries; specified by EducationScanSpec |
| ResumeEvaluation.EducationScanSpec | src/core_pipeline/resume_evaluator.py:132-135 | true iff a string mentioning the requirement comes before any non-string entry; raises iff a non-string entry comes before any mention; false iff every entry is a string and none mentions it |
| ResumeEvaluation.EducationScanOfStrings | src/core_pipeline/resume_evaluator.py:132-135 | on string entries the scan raises nothing and answers the substring test |
| ResumeEvaluation.Recommend | src/core_pipeline/resume_evaluator.py:141-146 | definition of the three-way choice; specified by RecommendMonotone and RecommendExamples |
| ResumeEvaluation.RecommendMonotone | src/core_pipeline/resume_evaluator.py:141-146 | a higher score or more met checks never lower the recommendation; below 60 or with no check met, nothing is recommended |
| ResumeEvaluation.RecommendExamples | src/core_pipeline/resume_evaluator.py:141-146 | 85 with both checks is a strong recommendation, 65 with one is a qualified one, 40 is never recommended |
| ResumeEvaluation.EvaluateResume | src/core_pipeline/resume_evaluator.py:107-160 | errors in step order: a resume skill that is not a string, empty required skills, an unsized experience entry, a non-string education entry reached before a match, a feedback failure; on success the skill result, the experience and education checks, the feedback and the recommendation |
| ResumeParsing.ReplaceChar | core/parser.py:63 | the length is kept, no `from` is left when it differs from `to`, and nothing but `to` is added; specified further by RepairSpec |
| ResumeParsing.ReplaceAll | core/parser.py:63 | equal-length replacement keeps the length; it introduces no character absent from both the text and the replacement |
| ResumeParsing.ReplaceAbsent | core/parser.py:63 | a text without the pattern is unchanged |
| ResumeParsing.ReplaceNoneClears | core/parser.py:63 | after replacing "None" by "null" no "None" is left |
| ResumeParsing.Repair | core/parser.py:63 | definition of the two replacements; specified by RepairSpec |
| ResumeParsing.RepairSpec | core/parser.py:63 | the repaired text keeps the length, holds no single quote and no "None", and repairing it again changes nothing |
| JsonValue.Truthy | core/parser.py:58 | definition of Python truthiness for decoded values; used by HasName |
| ResumeParsing.HasName | core/parser.py:58 | definition: a "name" field that is truthy; used by ValidateJson and ValidateJsonPaths |
| ResumeParsing.ValidateJson | core/parser.py:54-64 | one or two decoding attempts, the second one on the repaired text iff the first fails; first-path success iff an object with a truthy name, otherwise NotAnObject for a non-object and MissingName for an object without a truthy name; a decode error iff both attempts fail |
| ResumeParsing.ValidateJsonPaths | core/parser.py:56-64 | a named value decoded first time is returned unchanged; a value reached through the repair is returned even with no name |
| ResumeParsing.ParseResume | core/parser.py:44-52 | a model failure or any validation error gives None; otherwise the validated value |
| PollingWatcher.Supported | src/input_layer/file_watcher.py:36-37 | definition: the name ends with a watched extension; computed by FileWatcher.CurrentFiles |
| PollingWatcher.Unprocessed | src/input_layer/file_watcher.py:64-67 | definition; specified by PollLeavesOnlyFailures, computed by FileWatcher.GetUnprocessedFiles |
| PollingWatcher.PollLeavesOnlyFailures | src/input_layer/file_watcher.py:40-49 | after a poll exactly the files whose callback failed remain unprocessed; with no failure nothing remains |
| PollingWatcher.FileWatcher.constructor | src/input_layer/file_watcher.py:9-19 | the processed set starts empty |
| PollingWatcher.FileWatcher.CurrentFiles | src/input_layer/file_watcher.py:35-37 | the loop over the extensions collects exactly the listed names ending with one of them |
| PollingWatcher.FileWatcher.GetUnprocessedFiles | src/input_layer/file_watcher.py:57-67 | exactly the listed names ending with a supported extension and not yet processed; the processed set is not changed |
| PollingWatcher.FileWatcher.PollOnce | src/input_layer/file_watcher.py:35-49 | the processed set grows by the new files whose callback succeeded and by nothing else; failed files stay unprocessed |
| ResumeMonitor.LastIndexOf | core/file_watcher.py:26 | the last index holding the character, or -1 when it does not occur |
| ResumeMonitor.FileName | core/file_watcher.py:30 | the name is a separator-free tail of the path |
| ResumeMonitor.Suffix | core/file_watcher.py:26 | definition of the pathlib suffix; specified by SuffixIs, SuffixOfJoin and SuffixOfExtension |
| ResumeMonitor.OnCreated | core/file_watcher.py:10-12 | directory events are ignored and only they are |
| ResumeMonitor.OnCreatedSpec | core/file_watcher.py:10-12 | a file event is dispatched iff its path passes the filter, and with its own path |
| ResumeMonitor.ProcessFile | core/file_watcher.py:25-46 | never reports a directory; a dispatch carries the given path |
| ResumeMonitor.SuffixIs | core/file_watcher.py:26 | the lower-cased suffix is an extension iff the name is longer than it and ends with it ignoring case |
| ResumeMonitor.ProcessFileSpec | core/file_watcher.py:25-46 | dispatched iff the name ends, ignoring case, with a resume extension it is longer than, and does not start with "~$"; ignored as temporary iff the suffix passes and the name starts with "~$" |
| ResumeMonitor.FileNameOfJoin | core/file_watcher.py:30 | the name of "dir/name" is "name" |
| ResumeMonitor.SuffixOfJoin | core/file_watcher.py:26 | a non-empty stem followed by an extension has that extension as suffix |
| ResumeMonitor.SuffixOfExtension | core/file_watcher.py:26 | a name that is only an extension has no suffix |
| ResumeMonitor.AnyCaseResumeDispatched | core/file_watcher.py:26-46 | a stem not starting with "~" followed by a resume extension in any letter case is dispatched |
| ResumeMonitor.LockFileIgnored | core/file_watcher.py:30-32 | a "~$" name with a resume extension is ignored as temporary |
| ResumeMonitor.BareExtensionIgnored | core/file_watcher.py:26-28 | a name that is only an extension is ignored as not a resume |
| ResumeMonitor.LastSuffixCounts | core/file_watcher.py:26-28 | a name whose last extension is not a resume extension is ignored, whatever comes before it |
| ResumeMonitor.UpperCasePdfExample | core/file_watcher.py:26 | "CV.PDF" is dispatched |
| ResumeMonitor.BarePdfExample | core/file_watcher.py:26-28 | ".pdf" is ignored as not a resume |
| ResumeMonitor.LockDocxExample | core/file_watcher.py:30-32 | "~$cv.docx" is ignored as temporary |
| ResumeMonitor.PollingExamples | src/input_layer/file_watcher.py:36-37 | with glob as a case-sensitive suffix test, as pathlib matches on POSIX and as the CurrentFiles line of "## Left out" states, the default patterns refuse "CV.PDF" and take ".pdf" and "~$cv.docx" |
| ResumeMonitor.WatchersDisagree | core/file_watcher.py:26-32 | with glob as a case-sensitive suffix test, as pathlib matches on POSIX and as the CurrentFiles line of "## Left out" states, the monitor takes "CV.PDF" and refuses ".pdf" and "~$cv.docx", while the polling watcher's default patterns do the opposite for each |

## Left out

- **Language-model calls:** the calls to the model and the prompts (`_evaluate_with_llm`, the langchain chain of `parse`, core/deepseek_llm.py, core/llm/ollama_ds.py and core/evaluator.py) are network I/O. Their answers are inputs: `feedback` of `EvaluateResume`, `answer` of `ParseResume`.
- **JSON decoder:** `json.loads` is not modelled; it is the parameter `decode`.
- **Other modules:** document text extraction, persistence, notification, configuration loading and the pipeline wiring (src/main.py, main.py, core/pipeline.py) are I/O or wiring and are not part of this model.
- ScheduleInterview: the online meeting link (built from the wall clock) is the parameter `meetingLink`. The notification is logging only and is left out. The exception handler only logs and re-raises, and the model raises nothing.
- ScheduleInterview: the default one-hour `duration` is the constant `DefaultDuration` and is not applied automatically.
- **Time:** datetimes are integers counting minutes from a Monday 00:00. Timezones, seconds and the calendar are left out.
- SkillMatchScore: the score is an exact real, so floating-point rounding of the ratio is not modelled.
- Lower: Python's `str.lower()` is modelled on ASCII letters only. Other characters are left unchanged, so Unicode case mapping is not captured.
- **Evaluator inputs:** `ResumeData` (src/core_pipeline/resume_parser.py:10-19) appears only as the evaluator's input record. The entries of its list fields are decoded JSON values; entries of other Python types are not modelled.
- EvaluateResume: the resume's `skills`, `education` and `work_experience` fields are taken to be lists. A null or other non-list value in their place is not modelled: Python would raise a TypeError, or iterate over a string's characters or a dict's keys.
- PollOnce: the callback is represented by the set of files whose callback raises. The `while True` loop, the sleep and the outer exception handler are left out. The iteration order over the new files is unspecified in the source, and the model is independent of it.
- CurrentFiles: `glob("*" + ext)` is taken as a case-sensitive suffix test ("the name ends with ext") over the given listing, which is how pathlib matches on POSIX. On Windows glob ignores case, which is not modelled. Glob metacharacters inside an extension are not modelled either. Names stand for the paths under the watched directory.
- GetUnprocessedFiles: the result is a set; the order of the returned list is not modelled.
- ParseResume: when the repaired text decodes to JSON null the model returns `Some(Null)`. The source returns Python's `None` there, which its caller cannot tell apart from a failure.
- ProcessFile: the asyncio dispatch of `process_resume` is represented by the outcome `Dispatched(path)`. The console messages are the other outcomes.
- FileName: paths use '/' only, and `pathlib` normalisation (repeated or trailing separators, "." components, Windows drive letters) is not modelled.
- Suffix: this is `pathlib`'s rule for suffixes before Python 3.14, where a name ending in a dot has no suffix.
- **Monitor wiring:** the watchdog `Observer`, `FileMonitor.start` and the constructor only register callbacks and are not modelled.
