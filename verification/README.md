# quizlit live quiz pages — a Dafny model

This project models the client-side logic of quizlit, a live-quiz web
application. A host authors a quiz, opens a session for it, and steps
through its questions. Participants join with a six-character session code
and a display name, and answer the question on screen. Results are then
aggregated per session and across all of a host's sessions. A separate
single-player practice page runs generated questions.

The database is modelled as plain rows (`Domain.Store`): the ids of the
`quizzes` rows, and the rows of the `sessions`, `questions` and `responses`
tables.
- A read that has to find exactly one row (`.single()` / `.maybeSingle()`)
  returns data only when exactly one row matches (`Domain.Single`).
- Every write takes its outcome as a parameter (`Common.Call`: `Ok` or
  `Failed`), and so does every read of the participant page
  (`Participate.Reads`), of the join page and of the reports page. Their
  error paths are modelled next to the success path. The reads that are
  not, and what that leaves out, are listed under "Left out".

Modules:

- `Common`: JavaScript's `trim` (the ECMAScript white-space set), `.length`
  in UTF-16 code units, ASCII `toUpperCase`, `Math.round` of a non-negative
  ratio (exact, as `RoundedRatio`), and order-preserving deduplication
  (`new Set`, `Map` keys).
- `Domain`: the rows of the tables, the session status and the
  `.single()` read.
- `Results`: `SessionResults.tsx`. It covers participant count, average
  score, per-question statistics, overall accuracy and the CSV export.
- `Present`: `SessionPresent.tsx`. It covers the host's start, next-question
  and end actions, the page's question index, and the buttons the page
  offers.
- `Participate`: `Participate.tsx`. It covers mounting, loading the session
  and the current question, the realtime session update, and answering.
  React's stale closures are modelled explicitly.
- `Join`: `Join.tsx`. It covers the join form's checks and the lookup of the
  session by code.
- `QuizBuilder`: `QuizBuilder.tsx`. It covers the question editor's edits
  and the save, with its three writes.
- `Practice` and `PracticeJsx`: `Practice.tsx` and its JavaScript variant
  `Practice.jsx`. They cover generation, submit with its delayed step,
  restart and the result screen.
- `Reports`: `DashboardReports.tsx`. It covers session and response totals
  and the per-quiz lines.

A few modelling choices apply throughout:
- A `setTimeout` callback is a `Pending` step fixed when it is scheduled and
  applied later by `Fire`.
- A React callback that captured the state of an earlier render reads a
  `Closure` value. `FirstRender` is the state of the first render, and
  `Live(v)` is the current state.
- Floating-point comparisons of small ratios against 0.5, 0.7 and 0.9 are
  compared exactly in integers (`10 * score >= 9 * n`). For a ratio of two
  small integers the quotient either equals the literal or lies at least
  1/(10n) from it.

## Model

| member | source | states |
|---|---|---|
| Common.TrimEmptyIffBlank | src/pages/Join.tsx:22 | `!s.trim()` holds exactly when every character of `s` is JavaScript white space |
| Common.Utf16Length | src/pages/Join.tsx:22 | `.length` lies between the number of characters and twice it, and equals it inside the Basic Multilingual Plane |
| Common.AsciiUpperIdempotent | src/pages/Join.tsx:46 | upper-casing an already upper-cased code changes nothing |
| Common.RoundedRatioUnique | src/pages/SessionResults.tsx:160 | `Math.round` of a non-negative ratio is the unique integer r with 2·den·r ≤ 2·num+den < 2·den·(r+1) |
| Common.RoundedPercent | src/pages/SessionResults.tsx:160 | a rounded percentage of a part of a whole is at most 100, 0 for no part and 100 for the whole |
| Common.Dedup | src/pages/SessionResults.tsx:128 | a `Set` of the values keeps each value once, and has exactly the values of the input |
| Common.DedupSnoc | src/pages/DashboardReports.tsx:68-79 | a value not seen before goes at the end; a repeated one changes nothing (insertion order) |
| Common.DedupLengthIsDistinctCount | src/pages/SessionResults.tsx:129 | `new Set(...).size` is the number of distinct values |
| Domain.InQuiz | src/pages/Participate.tsx:77-83 | the questions of a quiz are exactly the stored questions with that quiz id |
| Results.Keyed | src/pages/SessionResults.tsx:134 | `responses.filter(r => r.<column> === v)` keeps exactly the responses with that value, none added |
| Results.LabelCountsPartition | src/pages/SessionResults.tsx:148-153 | the four answer counts plus the responses carrying no label add up to all responses |
| Results.LabelledResponsesCovered | src/pages/SessionResults.tsx:148-153 | when every response to a question carries a label, the answer distribution covers all of them |
| Results.Partition | src/pages/SessionResults.tsx:143-163 | counting per distinct key value covers every response, and every correct response, exactly once |
| Results.StatsFor | src/pages/SessionResults.tsx:143-163 | correct plus incorrect is the total, the percentage is the rounded ratio and at most 100 (0 with no responses), and each answer count is at most the total |
| Results.QuestionStatsList | src/pages/SessionResults.tsx:143 | one statistics entry per question, in question order |
| Results.NamesMembers | src/pages/SessionResults.tsx:128 | the mapped names are exactly the names of some response |
| Results.Participants | src/pages/SessionResults.tsx:128 | the participants are the distinct response names, each once, and there are none exactly when there are no responses |
| Results.DistinctParticipants | src/pages/SessionResults.tsx:129 | the participant count is the number of distinct names |
| Results.AverageScore | src/pages/SessionResults.tsx:132-140 | the mean of the per-participant percentages is the rounded 100·(correct responses)/(questions·participants); the previous value stays with no participant or no question |
| Results.AverageScoreAtMost100 | src/pages/SessionResults.tsx:132-140 | when nobody has more correct answers than the quiz has questions, the average score is at most 100 |
| Results.CorrectOverBound | src/pages/SessionResults.tsx:133-137 | a bound on each participant's correct count bounds the sum over the participants |
| Results.RatioAtMost | src/pages/SessionResults.tsx:139 | a ratio at most k rounds to at most k |
| Results.CalculateStats | src/pages/SessionResults.tsx:126-166 | the participant count is the number of distinct names (0 exactly without responses), with the average score and one statistics entry per question |
| Results.StatsSums | src/pages/SessionResults.tsx:219-222 | the summed per-question totals are the per-question-id counts of the ledger |
| Results.OverallCountsEveryResponse | src/pages/SessionResults.tsx:219-222 | with distinct question ids, and every response answering a quiz question, the overall totals are exactly the number of responses and of correct responses |
| Results.OverallStats | src/pages/SessionResults.tsx:219-222 | the overall correct count never exceeds the overall total; both are 0 without statistics |
| Results.Accuracy | src/pages/SessionResults.tsx:281-283 | the accuracy is the rounded percentage of correct responses, at most 100, and 0 with no responses |
| Results.FindQuestion | src/pages/SessionResults.tsx:183 | `find` returns a question with the id, or none when no question has it |
| Results.RowFields | src/pages/SessionResults.tsx:184-190 | a row's five fields: name, question text or 'Unknown', selected answer, correct answer or '', 'Yes'/'No' |
| Results.CsvRows | src/pages/SessionResults.tsx:182-191 | one row per response, in ledger order |
| Results.ExportCsv | src/pages/SessionResults.tsx:168-194 | no export without responses; otherwise the header and then the rows, which split back exactly at the line breaks when no field holds one |
| Results.SplitJoin | src/pages/SessionResults.tsx:191 | splitting lines joined by a separator none of them holds gives the lines back |
| Results.RowsWithoutLineBreaks | src/pages/SessionResults.tsx:190 | a row holds no line break unless one of its fields does |
| Results.QuotedRowsCollide | src/pages/SessionResults.tsx:168-194 | as written, two responses of one export, on two questions of the same quiz, with different fields export the very same row |
| Results.EscapedRowDecodes | src/pages/SessionResults.tsx:190 | with quotes doubled, every row reads back as exactly its response's five fields |
| Results.EscapedRowAgreesWithoutQuotes | src/pages/SessionResults.tsx:190 | doubling quotes changes no row whose fields hold no quote |
| Results.ParseEscapedRow | src/pages/SessionResults.tsx:190 | reading a row of escaped, quoted fields gives the fields back |
| Results.ExportCsvEscaped | src/pages/SessionResults.tsx:168-194 | the corrected export is absent exactly when there are no responses; otherwise it is the header followed by one escaped row per response, in order, joined by newlines, and every row decodes to its response's fields |
| Results.EscapedRowsDecode | src/pages/SessionResults.tsx:182-191 | every row of the corrected export decodes to its response's fields |
| Present.UpdateSessions | src/pages/SessionPresent.tsx:123-129 | an `update ... eq('id', id)` changes exactly the rows with that id, and keeps every row's id |
| Present.ApplyPatch | src/pages/SessionPresent.tsx:125-133 | an update never changes a row's id, join code or quiz |
| Present.StartSession | src/pages/SessionPresent.tsx:119-145 | with a session and questions, a successful start makes the session active on the first question in the store and in the page; otherwise nothing changes; the index is untouched |
| Present.NextQuestion | src/pages/SessionPresent.tsx:147-172 | nothing on the last question, without a session or on failure; otherwise the index moves on by one and the session points at that question |
| Present.EndSession | src/pages/SessionPresent.tsx:174-200 | a successful end marks the session row ended at the given time; the page state is not touched |
| Present.RunNextIndex | src/pages/SessionPresent.tsx:147-172 | any run of presses moves the index by one per successful update, stopping at the last question |
| Present.RunNextStaysInRange | src/pages/SessionPresent.tsx:43 | from index 0 the index stays within the question list and never exceeds the number of successful updates |
| Present.StartLinesUpIndex | src/pages/SessionPresent.tsx:119-145 | a successful start from index 0 points the session at the question at the index |
| Present.NextKeepsIndexInStep | src/pages/SessionPresent.tsx:147-172 | from any page whose session points at the question at the index, a next press, successful or not, keeps it so |
| Present.RunNextKeepsIndexInStep | src/pages/SessionPresent.tsx:147-172 | any run of next presses keeps the session pointing at the question at the index |
| Present.ActionsKeepIdentity | src/pages/SessionPresent.tsx:119-200 | no action changes a session's id, join code or quiz, in the page or the store |
| Present.FailedUpdateChangesNothing | src/pages/SessionPresent.tsx:131-144 | a failed update leaves page and store as they were |
| Present.OfferedActionsMoveStatusForward | src/pages/SessionPresent.tsx:259-287 | through the offered buttons a status only moves forward: ended stays ended, active never returns to waiting |
| Present.StartAndNextKeepSync | src/pages/SessionPresent.tsx:119-172 | start and next keep the page's session equal to its row in the store |
| Participate.Answers | src/pages/Participate.tsx:125-131 | the existing-response query matches exactly the responses with that session, question and name |
| Participate.FetchQuestion | src/pages/Participate.tsx:101-139 | a failed question read, or no single matching row, changes nothing; otherwise the question is shown with the selection cleared, numbered one past the questions ordered before it (1 when that count fails), and answered exactly when the existing-answer read succeeds and finds one response of the looked-up name |
| Participate.FetchSessionData | src/pages/Participate.tsx:55-99 | a failed session read, no single session, or a session whose quiz row is gone sends the participant away; an ended session only sets the status; otherwise the question count is the quiz's (0 when the count fails) and the current question is loaded through the closure's name when set, with nothing else changed |
| Participate.Mount | src/pages/Participate.tsx:34-53 | no session id or no stored name leaves the page; otherwise the stored name is taken over and loading ends |
| Participate.OnSessionUpdate | src/pages/Participate.tsx:154-169 | the status is taken over; a set question different from the one the closure sees is loaded; otherwise nothing else changes |
| Participate.AnswerSelect | src/pages/Participate.tsx:174-204 | once answered or with no question nothing happens; otherwise one response is appended with correctness fixed by the answer key; on failure the selection is cleared and nothing is stored |
| Participate.BelowShifted | src/pages/Participate.tsx:116-122 | among consecutively ordered questions, the count ordered before an index is its distance from the first |
| Participate.QuestionNumberIsPosition | src/pages/Participate.tsx:116-122 | with densely ordered questions and both reads succeeding, the number shown for the k-th question is k+1 |
| Participate.AnswersOfUniqueKeys | src/pages/Participate.tsx:125-135 | when each participant answered each question at most once, the single-row read finds an answer exactly when one exists |
| Participate.LiveFetchSyncs | src/pages/Participate.tsx:101-139 | loading a question with the live name, when the existing-answer read succeeds, keeps "answered" in agreement with the store |
| Participate.AnswerKeepsUniqueAndSynced | src/pages/Participate.tsx:174-204 | answering from a page in agreement with the store keeps answers unique and the page in agreement |
| Participate.OtherAnswerKeepsSync | src/pages/Participate.tsx:174-204 | someone else's answer does not disturb a page's agreement with the store |
| Participate.LiveMountSyncs | src/pages/Participate.tsx:34-53 | mounting with the live name, when the existing-answer read succeeds, leaves the page in agreement with the store |
| Participate.LiveUpdateSyncs | src/pages/Participate.tsx:154-169 | the realtime handler with the live state, when the existing-answer read succeeds, keeps the page in agreement with the store |
| Participate.ReloadAnswersTwice | src/pages/Participate.tsx:125-135 | as written, a participant who reloads sees an answered question as unanswered and can store a second response |
| Participate.RepeatedSnapshotForgetsAnswer | src/pages/Participate.tsx:166-167 | as written, a snapshot repeating the shown question reloads it and forgets that it was answered |
| Participate.FailedLookupAnswersTwice | src/pages/Participate.tsx:125-135 | a failed existing-answer read shows an answered question as unanswered, even with the live name, and the next pick stores a second response |
| Participate.DeletedQuizAndFailedCounts | src/pages/Participate.tsx:59-83 | a session whose quiz row is gone sends the participant away; failed counts show the question as number 1 of 0 |
| Join.SessionsWithCode | src/pages/Join.tsx:43-47 | the lookup matches exactly the sessions whose code equals the upper-cased entry |
| Join.HandleJoin | src/pages/Join.tsx:19-70 | the checks in order: bad code, missing name, unknown code or failed read, ended session; a join stores the name under `participant_<id>` for the one open session with that code |
| Join.CaseInsensitive | src/pages/Join.tsx:46 | two entries that upper-case alike lead to the same outcome |
| Join.UpperKeepsLength | src/pages/Join.tsx:22 | upper-casing keeps the UTF-16 length and blankness of the code |
| Join.JoinedSessionIsOpen | src/pages/Join.tsx:53-58 | a join lands in a waiting or active session with that code, under a non-blank name stored per session |
| QuizBuilder.AddQuestion | src/pages/QuizBuilder.tsx:185-198 | one empty question at the end, numbered by the old length, the others unchanged |
| QuizBuilder.RemoveQuestion | src/pages/QuizBuilder.tsx:200-202 | exactly the question at the index is removed; an index outside the list removes nothing |
| QuizBuilder.UpdateQuestion | src/pages/QuizBuilder.tsx:204-208 | the named field of the indexed question reads the new value; every other field and question is as before |
| QuizBuilder.AppendGenerated | src/pages/QuizBuilder.tsx:210-222 | generated questions follow the existing ones with their contents, no id, and order numbers continuing from the old length |
| QuizBuilder.ValidMembers | src/pages/QuizBuilder.tsx:95-111 | the filter keeps exactly the complete questions |
| QuizBuilder.ValidAppend | src/pages/QuizBuilder.tsx:95-111 | filtering a concatenation is concatenating the filtered parts |
| QuizBuilder.ValidIdempotent | src/pages/QuizBuilder.tsx:95-111 | filtering twice is filtering once |
| QuizBuilder.ValidKeepsComplete | src/pages/QuizBuilder.tsx:95-111 | a list of complete questions passes unchanged |
| QuizBuilder.AddDoesNotChangeSave | src/pages/QuizBuilder.tsx:185-198 | adding an empty question does not change what a save writes |
| QuizBuilder.RemoveSplitsSave | src/pages/QuizBuilder.tsx:200-202 | after removing question i, a save writes the filtered questions before i and then those after i |
| QuizBuilder.RemoveAndSave | src/pages/QuizBuilder.tsx:200-202 | removing an incomplete question changes nothing saved; removing a complete one drops exactly its row |
| QuizBuilder.QuestionRows | src/pages/QuizBuilder.tsx:151-160 | the inserted rows carry the questions' contents under the quiz, the k-th with order index k |
| QuizBuilder.WithoutQuiz | src/pages/QuizBuilder.tsx:141-147 | deleting a quiz's questions keeps exactly the other quizzes' questions |
| QuizBuilder.HandleSave | src/pages/QuizBuilder.tsx:85-183 | a blank title or no complete question refuses; a failed quiz write changes nothing; a save replaces (edit) or adds the quiz's questions |
| QuizBuilder.SavedQuizIsDense | src/pages/QuizBuilder.tsx:115-166 | after a successful save the quiz's questions are its complete drafts numbered densely from 0, and other quizzes are untouched |
| QuizBuilder.FailedInsertEmptiesQuiz | src/pages/QuizBuilder.tsx:141-166 | an edit whose insert fails after the delete leaves the quiz with no questions |
| QuizBuilder.InQuizAppend | src/pages/QuizBuilder.tsx:151-166 | a quiz's questions in concatenated tables are those of each part, in order |
| Practice.SetFlag | src/pages/Practice.tsx:136-138 | setting a flag sets it, growing the array with unset holes past its end, and changes no other flag |
| Practice.Generate | src/pages/Practice.tsx:70-118 | a blank topic changes nothing; otherwise progress resets, and returned questions are taken over with no flag set |
| Practice.Submit | src/pages/Practice.tsx:120-159 | no selection does nothing; otherwise the score rises exactly on a matching label, the question is flagged, the selection is cleared and the next step is scheduled |
| Practice.Fire | src/pages/Practice.tsx:150-158 | the scheduled step moves to the next question or shows the result |
| Practice.Restart | src/pages/Practice.tsx:161-169 | restart clears questions, progress, selection and topic, and keeps the difficulty and question count |
| Practice.RestartForgets | src/pages/Practice.tsx:26-36 | states with the same difficulty and count restart alike; the first state restarts to itself; restarting twice is restarting once |
| Practice.RestartWaitsForTopic | src/pages/Practice.tsx:161-169 | after a restart, generating does nothing until a topic is typed |
| Practice.Percent | src/pages/Practice.tsx:334 | the percentage is the rounded score ratio, at most 100 |
| Practice.ResultBand | src/pages/Practice.tsx:337-343 | each message band holds exactly for its range of score/n |
| Practice.BandExtremes | src/pages/Practice.tsx:334-343 | a perfect run is outstanding at 100%, a run without correct answers is lowest at 0% |
| Practice.BandMonotone | src/pages/Practice.tsx:337-343 | a higher score never gets a lower band |
| Practice.CountCorrect | src/pages/Practice.tsx:130 | the correct picks number at most the picks |
| Practice.PlayScores | src/pages/Practice.tsx:120-159 | answering the remaining questions adds one point per matching pick, flags them all and ends on the result screen |
| Practice.FullGameBounded | src/pages/Practice.tsx:70-159 | after a generation, a full game scores at most the question count, at most 100%, with every question flagged |
| PracticeJsx.Choose | src/pages/Practice.jsx:279 | a click stores the option's text as the selection |
| PracticeJsx.SubmitJsx | src/pages/Practice.jsx:111-148 | as on the other page, except that the selection stays until the delayed step |
| PracticeJsx.FireJsx | src/pages/Practice.jsx:140-147 | moving on clears the selection; showing the result keeps it |
| PracticeJsx.RestartJsx | src/pages/Practice.jsx:150-158 | restart gives the same state as on the other page |
| PracticeJsx.GreatOrKeepPracticing | src/pages/Practice.jsx:329-331 | the two-level message is the upper one exactly from the 0.7 band up |
| PracticeJsx.ChoiceScoresOnText | src/pages/Practice.jsx:122 | as written, a choice scores exactly when the option's text equals the answer key |
| PracticeJsx.LabelKeyNeverMatches | src/pages/Practice.jsx:122 | as written, with a label as key and ordinary option texts, no choice scores |
| PracticeJsx.GameNeverScores | src/pages/Practice.jsx:111-148 | as written, a whole game over label-keyed questions ends with the score it started with |
| PracticeJsx.CorrectOptionMissed | src/pages/Practice.jsx:271-282 | as written, the correct option of a concrete question earns nothing; choosing it by label earns the point |
| PracticeJsx.ChooseLabel | src/pages/Practice.tsx:285-290 | the corrected click stores the option's label and changes nothing else |
| PracticeJsx.LabelChoiceScores | src/pages/Practice.jsx:122 | with labels as selections a submit scores exactly when the label is the key, as on the TypeScript page |
| PracticeJsx.SomeLabelScores | src/pages/Practice.jsx:122 | with labels as selections, a label-keyed question can always be answered correctly |
| Reports.Completed | src/pages/DashboardReports.tsx:52 | the completed sessions are at most all sessions; all exactly when every session ended, none exactly when none did |
| Reports.TotalResponses | src/pages/DashboardReports.tsx:54-66 | no sessions means a total of 0; the total never exceeds the responses |
| Reports.Find | src/pages/DashboardReports.tsx:72 | `quizMap.has` finds an entry exactly when one has the quiz id |
| Reports.AddSession | src/pages/DashboardReports.tsx:71-91 | a seen quiz's entry gains one session and its responses; a new quiz gets a new entry at the end with this session's title |
| Reports.FetchReports | src/pages/DashboardReports.tsx:34-116 | a failed read keeps the report; otherwise the session total, the count of ended sessions, the response total, the rounded average (0 without sessions) and the quiz lines |
| Reports.AggregateIds | src/pages/DashboardReports.tsx:68-92 | the quiz lines are the distinct quizzes in order of first appearance |
| Reports.AggregateDescribes | src/pages/DashboardReports.tsx:68-92 | each quiz line has the title of its quiz's first session, counts its sessions and adds up their responses |
| Reports.QuizLines | src/pages/DashboardReports.tsx:94-98 | the report's quiz lines, one per distinct quiz, each describing its quiz |
| Reports.AggregateTotals | src/pages/DashboardReports.tsx:68-92 | the quiz lines' session counts add up to the sessions, their responses to the per-session counts |
| Reports.InSessionsIsCountOver | src/pages/DashboardReports.tsx:55-65 | with distinct ids, counting responses in the listed sessions equals adding up per-session counts |
| Reports.QuizLinesMatchTotal | src/pages/DashboardReports.tsx:55-92 | with distinct session ids the quiz lines account for exactly the headline response total |
| Reports.RoundsToZero | src/pages/DashboardReports.tsx:104 | the rounded average is 0 exactly when the total is below half the sessions |
| Reports.ReportFigures | src/pages/DashboardReports.tsx:100-106 | completed at most total, participants equal the response total, one line per distinct quiz, lines adding up to the headline figures |

## Left out

- Network, authentication and navigation: the `getUser` checks, redirects,
  toasts, loading spinners and `localStorage` are outside the model. The
  stored name is a parameter of `Participate.Mount`.
- Realtime delivery: the subscription is modelled as calls of
  `Participate.OnSessionUpdate` with a snapshot. Ordering, loss and
  duplication of events are not modelled.
- Concurrency: the pages run one action at a time here. Two participants
  inserting at once, and a second submit during the 1.5 s practice delay,
  are not modelled.
- The participant count query on the host page (`SessionPresent.tsx`) and
  the question loading of `fetchSessionData` there are not modelled; the
  host view starts from loaded questions.
- Dates: `new Date().toISOString()` is the `now` parameter of
  `Present.EndSession`. The CSV file name and the download itself are left
  out.
- The AI quiz generator and the edge function are foreign calls. Their
  output is the parameter `Practice.Generation`, or a list of generated
  questions for `QuizBuilder.AppendGenerated`. The request's
  arguments (the trimmed topic, the difficulty and the parsed question
  count) are not modelled.
- The results page's three reads (`fetchResultsData`) are not modelled:
  `Results.CalculateStats` starts from the rows they return. Their failure
  only shows a toast and sends the host to the dashboard.
- Reports.TotalResponses: a count query that fails reads as 0 in the source.
  The model assumes every count query succeeds and returns the exact count.
- Reports.FetchReports: the `quizzes!inner` join drops sessions without a
  quiz. The model takes the joined rows as its input. A missing user
  (`if (!user) return`) is not modelled.
- Floating point: `Math.round((part / whole) * 100)` is computed in the
  model on the exact ratio, rounding halves up (`Common.RoundedPercent`).
  The page rounds a double. The two differ when the exact percentage ends
  in .5: the double product can fall just below the half, and the page
  then rounds down. With 23 of 40, `(23 / 40) * 100` is 57.49999999999999,
  so the page shows 57 and the model 58; 29 of 200 shows 14 against 15.
  There are ten such pairs with a whole of at most 300; everywhere else the
  two agree. `Math.round(total / sessions)` on the reports page and the
  score bands' comparisons with 0.9, 0.7 and 0.5 are exact in the double
  arithmetic too, so they agree with the model.
- Results.StatsFor: the correct percentage can be one higher than the
  page's when the exact percentage ends in .5 (23 correct of 40: 58 against
  57).
- Results.Accuracy: the same one-higher difference at .5 (23 of 40).
- Results.AverageScore: the same one-higher difference when the exact mean
  ends in .5; the page also sums the per-participant doubles before
  dividing (one participant, 23 of 40 questions right: 58 against 57).
- Practice.Percent: the same one-higher difference at .5 (23 of 40).
- `toUpperCase` is modelled for ASCII letters only.
- `QuizBuilder.fetchQuiz`, the description field and the quiz row's own
  columns are not modelled. The save models the question rows, and the
  quiz write only through its outcome.
- The JSX duplicates of the dashboard and results pages are not modelled.
  They match the TypeScript pages.

## Where the code and the written specification differ

The model follows the code in each of these cases.

- The specification describes a deduplicated answer ledger. The code has
  no uniqueness check on the server; only the page's `hasAnswered` flag
  prevents a second answer. `Participate.ReloadAnswersTwice` shows a
  second response being stored.
- Ending a session is described as idempotent, with the end time set once.
  The code writes `ended_at` again on every end (`Present.EndSession`).
- Advancing past the last question and answering a stale question are
  described as errors. In the code, the first is a silent no-op and the
  second is not checked.
- A session with no participants is described as reporting an average of 0.
  The code leaves the previous average in place (`Results.AverageScore`).
- The reports page's "participants" figure is the number of responses, not
  of distinct people.

## Findings

| source | as written | input that shows it | evidently intended | confidence | as-written member | corrected member |
|---|---|---|---|---|---|---|
| src/pages/SessionResults.tsx:190 | each CSV field is wrapped in quotes, but a quote inside a field is not doubled | in one export, participant `a","b` on a question with text `c`, and participant `a` on another question with text `b","c`: both give the same row | double embedded quotes, so that every row reads back as its fields | high, not executed | Results.QuotedRowsCollide | Results.EscapedRowDecodes |
| src/pages/Participate.tsx:125-135 | the mount-time fetch and the realtime handler read the first render's state: an empty participant name and no question shown | participant Al answered q1 in s1, reloads, and picks "B": a second response is stored | look the answer up under the live participant name | high, not executed | Participate.ReloadAnswersTwice | Participate.AnswerKeepsUniqueAndSynced |
| src/pages/Practice.jsx:279 | clicking an option stores its text, which is compared with the label answer key | question "Capital of France?", key "B", option B "Paris": choosing Paris scores 0 | store the option's label, as `Practice.tsx` does | high, not executed | PracticeJsx.CorrectOptionMissed | PracticeJsx.LabelChoiceScores |
