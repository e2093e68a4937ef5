# Hebrew voice arithmetic tutor — a verified model of its core

The tutor asks a child five spoken addition questions per level ("label" 1:
adding 1, label 2: adding 2), listens to the spoken answer, grades it, and
when the five are done either replays the whole label (some answer was
wrong), moves from label 1 to label 2, or ends the lesson. This project
models, in Dafny:

- `QuestionService` (question_service.dfy): the question bank, session
  creation, grading, advancing, the summary, and the two speech formatters
  (`formatQuestionForSpeech` as a loop over the expression's pieces, and
  `formatErrorsForSpeech` as a loop over the errors), each method proved
  equal to a specification function whose properties are lemmas.
- `VoiceService` (voice_service.dfy): `parseHebrewNumber` — clean the
  utterance, exact lookup (which skips a value of 0, as JavaScript's
  truthiness does), `parseInt` accepted in 0..20, then the first lexicon
  entry, in declaration order, that contains the text or is contained in it.
  The lexicon is a parameter of `ParseNumber`; `ParseHebrewNumber` fixes it
  to `HEBREW_NUMBERS`.
- `Types` (types.dfy): `Question`, `Session`, the label type (1 or 2) and
  `HEBREW_NUMBERS` as an ordered sequence of (key, value) pairs in
  declaration order, with its keys proved distinct and Hebrew, its values
  proved in 0..20.
- `VoiceController` (voice_controller.dfy): the decisions of the React
  controller — ask the next question or complete, what an utterance does to
  the session, what is said after grading, where a completed session leads,
  and the answer-history filter — as functions returning the next `Step`.
- `RoundTrip` (round_trip.dfy): the word the tutor speaks for a number is
  read back by the parser as that number for 0..20, and as nothing otherwise.
- `JsText` (js_text.dfy): the JavaScript string built-ins the core relies
  on — `trim` with JavaScript's white-space set, `toLowerCase` (on ASCII),
  `parseInt(s, 10)`, `Number.prototype.toString`, `includes`, and `split`
  on a one-character separator.

The hook `useVoiceRecognition` hands utterances to a method
`parseRussianNumber` that `VoiceService` does not define. The controller's
listening step `Hear` is modelled with `ParseSpokenNumber`, the corrected
form of `parseHebrewNumber` that reads silence as no answer (see
"## Findings"); `HearAsWritten` is the same step with `ParseHebrewNumber`
as written, and the as-written members of that finding use it.

## Model

| member | source | states |
|---|---|---|
| Types.Label | russian-math-tutor/src/types/index.ts:12 | a level is 1 or 2 and nothing else |
| Types.Question | russian-math-tutor/src/types/index.ts:3-9 | id, expression and correct answer always present; the user's answer and its grade optional, absent until answered |
| Types.Session | russian-math-tutor/src/types/index.ts:11-17 | the label, the questions, the index of the current one, the errors and the completion flag |
| QuestionService.QuestionBank | russian-math-tutor/src/services/QuestionService.ts:5-20 | each label has exactly five (expression, answer) pairs |
| QuestionService.QuestionId | russian-math-tutor/src/services/QuestionService.ts:26 | the label's decimal text, a dash and the 1-based position (distinctness is stated by SessionIdsDistinct) |
| QuestionService.CreateSession | russian-math-tutor/src/services/QuestionService.ts:22-38 | the label's five questions in bank order, ids "label-(i+1)", index 0, no errors, not complete, nothing answered or graded |
| QuestionService.SessionIdsDistinct | russian-math-tutor/src/services/QuestionService.ts:25-29 | the five ids of a fresh session are pairwise different |
| QuestionService.CreateSessionIsValid | russian-math-tutor/src/services/QuestionService.ts:22-38 | a fresh session satisfies the session invariant (answered exactly before the index, graded, errors are the wrong answers so far) |
| QuestionService.ValidateAnswer | russian-math-tutor/src/services/QuestionService.ts:40-47 | keeps id, expression and answer; records the user's answer; correct exactly when it equals the right answer |
| QuestionService.GetNextQuestion | russian-math-tutor/src/services/QuestionService.ts:49-54 | none exactly when the index is past the questions, otherwise the question at the index |
| QuestionService.ProcessAnswer | russian-math-tutor/src/services/QuestionService.ts:56-81 | index +1, completion iff past the end, only the current slot changes (to its graded form), label and length kept, errors grow by that question iff the answer is wrong |
| QuestionService.Valid | russian-math-tutor/src/services/QuestionService.ts:56-81 | the session invariant: the index is within the questions, answered exactly before it, every answer graded, errors the in-order wrong answers so far, complete iff the index reached the end |
| QuestionService.ProcessAnswerKeepsValid | russian-math-tutor/src/services/QuestionService.ts:56-81 | answering keeps the session invariant, so errors stay the in-order wrong answers of the answered prefix |
| QuestionService.Mistakes | russian-math-tutor/src/services/QuestionService.ts:64-68 | the collected errors are wrongly answered questions of the session, and every wrongly answered one is among them |
| QuestionService.MistakesAppend | russian-math-tutor/src/services/QuestionService.ts:64-68 | the errors among a concatenation are the errors among each part, in order |
| QuestionService.MistakesNone | russian-math-tutor/src/services/QuestionService.ts:64-68 | with no wrong answer there are no errors |
| QuestionService.GetSessionSummary | russian-math-tutor/src/services/QuestionService.ts:83-93 | total is the number of questions, incorrect count and list are the session's errors |
| QuestionService.SummaryOfCompleteSession | russian-math-tutor/src/services/QuestionService.ts:83-93 | for a completed session the incorrect count is the number of wrong answers, and it is 0 iff every question is marked correct |
| QuestionService.NumberWordsAreHebrew | russian-math-tutor/src/services/QuestionService.ts:141-163 | the table has 21 words, each Hebrew letters and spaces |
| QuestionService.NumberToHebrewWord | russian-math-tutor/src/services/QuestionService.ts:140-166 | non-empty and trimmed; for 0..20 the table's word for that number, a Hebrew word; for any other number its canonical decimal text (`IntToString`), which parseInt reads back as that number; "NaN" for NaN |
| QuestionService.NumberWords | russian-math-tutor/src/services/QuestionService.ts:141-163 | the words for 0..20, in order (their count and letters are stated by NumberWordsAreHebrew) |
| QuestionService.OperatorSpeech | russian-math-tutor/src/services/QuestionService.ts:103-110 | each arithmetic sign is spoken as a Hebrew word followed by one space |
| QuestionService.FormatQuestionForSpeech | russian-math-tutor/src/services/QuestionService.ts:95-119 | the loop's result is the trimmed concatenation of the spoken pieces of the expression split on spaces |
| QuestionService.TokenSpeech | russian-math-tutor/src/services/QuestionService.ts:101-115 | one trimmed piece: a sign's word, else the word of its parseInt value and a space (its cases are stated by OperatorPieceSpeech, NumberPieceSpeech, NonNumericPieceIsNaN) |
| QuestionService.SpeakBinary | russian-math-tutor/src/services/QuestionService.ts:95-119 | "a op b" is spoken as a's word, a space, the sign's word, b's word |
| QuestionService.NumberPieceSpeech | russian-math-tutor/src/services/QuestionService.ts:111-114 | a decimal piece is spoken as its number's word and a space |
| QuestionService.OperatorPieceSpeech | russian-math-tutor/src/services/QuestionService.ts:103-110 | a sign piece is spoken as the sign's word |
| QuestionService.NonNumericPieceIsNaN | russian-math-tutor/src/services/QuestionService.ts:111-114 | a piece that is neither a sign nor starts like a number is spoken as "NaN " |
| QuestionService.IntToStringHasNoSpace | russian-math-tutor/src/services/QuestionService.ts:165 | a number's decimal text has no space and is no sign, so it stays one piece |
| QuestionService.SplitBinary | russian-math-tutor/src/services/QuestionService.ts:97 | "x op y" splits on spaces into exactly [x, op, y] |
| QuestionService.FormatErrorsForSpeech | russian-math-tutor/src/services/QuestionService.ts:121-138 | the loop's result is "" for no errors, otherwise the opening followed by the items joined by ", " |
| QuestionService.ErrorItem | russian-math-tutor/src/services/QuestionService.ts:127-130 | the question's speech, " שווה " and the answer's word (the words are stated by CorrectionWords) |
| QuestionService.ErrorsSpeechAppend | russian-math-tutor/src/services/QuestionService.ts:126-135 | one more error adds ", " and its item at the end |
| QuestionService.JoinItemsStep | russian-math-tutor/src/services/QuestionService.ts:130-134 | the separator goes between items, never before the first |
| JsText.Trim | russian-math-tutor/src/services/QuestionService.ts:118 | the result starts and ends with no white space and is no longer than the input |
| JsText.TrimPadding | russian-math-tutor/src/services/VoiceService.ts:109 | white space added around a text does not change its trimmed form |
| JsText.TrimmedIsFixed | russian-math-tutor/src/services/QuestionService.ts:101 | trimming a trimmed text leaves it as it is |
| JsText.ToLower | russian-math-tutor/src/services/VoiceService.ts:109 | same length, each character lower-cased on its own |
| JsText.LowerConcat | russian-math-tutor/src/services/VoiceService.ts:109 | lower-casing distributes over concatenation |
| JsText.DigitPrefix | russian-math-tutor/src/services/VoiceService.ts:117 | the longest run of digits at the start of the text |
| JsText.ParseIntDigits | russian-math-tutor/src/services/VoiceService.ts:117 | digits followed by a non-digit are read as the digits' value |
| JsText.ParseIntNoNumeral | russian-math-tutor/src/services/QuestionService.ts:113 | a text starting with neither digit nor sign is NaN |
| JsText.ParseIntNegative | russian-math-tutor/src/services/QuestionService.ts:113 | "-" and digits are read as the negated value |
| JsText.ParseInt | russian-math-tutor/src/services/QuestionService.ts:113 | after leading white space and an optional sign, the value of the longest run of digits, negated after "-"; NaN when there is no digit there |
| JsText.NatToString | russian-math-tutor/src/services/QuestionService.ts:165 | the decimal digits of the number, with no leading zero |
| JsText.IntToString | russian-math-tutor/src/services/QuestionService.ts:165 | the canonical decimal text: digits without a leading zero for a non-negative number, "-" and the digits of the magnitude for a negative one; trimmed, and parseInt reads it back as the same number |
| JsText.Split | russian-math-tutor/src/services/QuestionService.ts:97 | at least one piece, no piece holds the separator, joining the pieces with it gives the text back |
| JsText.Includes | russian-math-tutor/src/services/VoiceService.ts:124 | `includes`: the second text occurs at some position of the first (its cases are stated by IncludesEmpty and MissingNotIncluded) |
| JsText.IncludesEmpty | russian-math-tutor/src/services/VoiceService.ts:124 | every text contains the empty text |
| JsText.MissingNotIncluded | russian-math-tutor/src/services/VoiceService.ts:124 | a text lacking the first character of another does not contain it |
| Types.HebrewNumbers | russian-math-tutor/src/types/index.ts:36-76 | the lexicon's 39 (word, value) entries in declaration order (its properties are stated by KeysDistinct, KeysAreHebrewWords, ValuesInRange) |
| Types.KeysDistinct | russian-math-tutor/src/types/index.ts:36-76 | the 39 keys are pairwise different |
| Types.KeysAreHebrewWords | russian-math-tutor/src/types/index.ts:36-76 | every key is Hebrew letters and spaces, starting and ending with a letter |
| Types.ValuesInRange | russian-math-tutor/src/types/index.ts:36-76 | every value is in 0..20 |
| Types.LexiconLayout | russian-math-tutor/src/types/index.ts:36-45 | the first entry is zero's word with 0; the pointed and the two plain spellings of four are three different keys all worth 4 |
| RoundTrip.EveryNumberHasKey | russian-math-tutor/src/types/index.ts:36-76 | every number 0..20 is the value of some key |
| RoundTrip.SpokenWordsAreKeys | russian-math-tutor/src/services/QuestionService.ts:141-163 | the word spoken for each of 0..20 is a key of the lexicon worth that number |
| RoundTrip.SpokenNumberIsHeard | russian-math-tutor/src/services/VoiceService.ts:108-130 | what the tutor says for a number is read back as that number for 0..20 and as nothing otherwise, by both parsers |
| VoiceService.Clean | russian-math-tutor/src/services/VoiceService.ts:109 | the cleaned text is trimmed |
| VoiceService.KeyIndex | russian-math-tutor/src/services/VoiceService.ts:112 | the first entry whose key is the text, and none iff no key is |
| VoiceService.Related | russian-math-tutor/src/services/VoiceService.ts:124 | the text contains the key or the key contains the text |
| VoiceService.MatchIndex | russian-math-tutor/src/services/VoiceService.ts:123-127 | the first entry, in order, whose key and the text contain one another, and none iff there is none |
| VoiceService.ParseNumber | russian-math-tutor/src/services/VoiceService.ts:108-130 | with values in 0..20, every number read is in 0..20 |
| VoiceService.ParseHebrewNumber | russian-math-tutor/src/services/VoiceService.ts:108-130 | every number read is in 0..20 |
| VoiceService.LowerTwice | russian-math-tutor/src/services/VoiceService.ts:109 | lower-casing twice is lower-casing once |
| VoiceService.CleanIgnoresPadding | russian-math-tutor/src/services/VoiceService.ts:109 | white space around an utterance does not change its cleaned form |
| VoiceService.ParseIgnoresCase | russian-math-tutor/src/services/VoiceService.ts:109 | an utterance and its lower-cased form are read the same |
| VoiceService.ParseIgnoresPadding | russian-math-tutor/src/services/VoiceService.ts:109 | white space around an utterance does not change what it is read as |
| VoiceService.KeyIndexOfKey | russian-math-tutor/src/services/VoiceService.ts:112 | with distinct keys, a key finds its own entry |
| VoiceService.ParseExactKey | russian-math-tutor/src/services/VoiceService.ts:112-114 | a clean key with a non-zero value, padded or not, is read as its value |
| VoiceService.ParseNumeral | russian-math-tutor/src/services/VoiceService.ts:117-120 | when no key with a non-zero value matches and parseInt gives 0..20, that is the result |
| VoiceService.ParsePartial | russian-math-tutor/src/services/VoiceService.ts:123-129 | otherwise the result is the value of the first related entry, or nothing |
| VoiceService.NoHebrewUnrelated | russian-math-tutor/src/services/VoiceService.ts:124 | a non-blank text without Hebrew neither contains a Hebrew key nor is contained in one |
| VoiceService.ParseNonHebrew | russian-math-tutor/src/services/VoiceService.ts:108-130 | over a Hebrew lexicon, clean text without Hebrew is read by parseInt alone, in 0..20 or nothing |
| VoiceService.ParseBlank | russian-math-tutor/src/services/VoiceService.ts:109-125 | blank text is read as the first entry's value |
| VoiceService.KeysAreClean | russian-math-tutor/src/types/index.ts:36-76 | every key is non-empty, trimmed and without capitals |
| VoiceService.HebrewKeyIsRead | russian-math-tutor/src/services/VoiceService.ts:112-114 | every key worth non-zero, padded or not, is read as its value |
| VoiceService.ZeroWordIsRead | russian-math-tutor/src/services/VoiceService.ts:112-125 | zero's word is found but skipped by the exact lookup (0 is falsy), is no numeral, and is still read as 0 through its own entry in the partial matches |
| VoiceService.BlankIsZero | russian-math-tutor/src/services/VoiceService.ts:109-125 | as written, silence or white space is read as 0 |
| VoiceService.NonHebrewIsNumeral | russian-math-tutor/src/services/VoiceService.ts:117-129 | clean text without Hebrew is read by parseInt alone, in 0..20 or nothing |
| VoiceService.SmallNumeralIsRead | russian-math-tutor/src/services/VoiceService.ts:117-120 | a numeral of 0..20 is read as its value |
| VoiceService.LargeNumeralIsRejected | russian-math-tutor/src/services/VoiceService.ts:117-129 | a numeral past 20 is read as nothing |
| VoiceService.ForeignWordIsRejected | russian-math-tutor/src/services/VoiceService.ts:117-129 | clean text without Hebrew that starts with neither digit nor sign is read as nothing |
| VoiceService.ParseSpokenNumber | russian-math-tutor/src/services/VoiceService.ts:108-130 | the corrected parser: every number read is in 0..20 |
| VoiceService.BlankIsNotHeard | russian-math-tutor/src/services/VoiceService.ts:109-125 | the corrected parser reads silence or white space as nothing |
| VoiceService.TrimmedIsHeardAlike | russian-math-tutor/src/services/VoiceService.ts:108-130 | on every non-empty trimmed text the corrected parser reads what the written one reads |
| VoiceController.AskNext | russian-math-tutor/src/components/VoiceController.tsx:41-50 | completes exactly when no question is left, otherwise asks the question at the index of the same session; never ends the lesson |
| VoiceController.Start | russian-math-tutor/src/components/VoiceController.tsx:28-33 | the lesson begins with the first question of a fresh label-1 session |
| VoiceController.Answer | russian-math-tutor/src/components/VoiceController.tsx:74-95 | grades the answer, then summarises the updated session if it is complete, else asks its next question |
| VoiceController.Hear | russian-math-tutor/src/components/VoiceController.tsx:57-67 | an utterance read as a number answers the question; one read as nothing asks the same question of the same session again |
| VoiceController.HearAsWritten | russian-math-tutor/src/components/VoiceController.tsx:57-67 | the same step with the written parser |
| VoiceController.SilenceIsGradedAsZero | russian-math-tutor/src/components/VoiceController.tsx:57-61 | as written, silence answers the first question with 0 and records it as an error |
| VoiceController.SilenceIsAskedAgain | russian-math-tutor/src/components/VoiceController.tsx:60-67 | with the corrected parser, silence asks the same question of the same session again |
| VoiceController.GradedQuestion | russian-math-tutor/src/components/VoiceController.tsx:78 | the question just before the updated index (what it holds is stated by GradedQuestionIsValidated) |
| VoiceController.GradedQuestionIsValidated | russian-math-tutor/src/components/VoiceController.tsx:75-80 | the question before the updated index is the asked question graded with the answer, correct iff the answer is right |
| VoiceController.Feedback | russian-math-tutor/src/components/VoiceController.tsx:78-86 | praise exactly when the graded question is marked correct, otherwise the correction of that question |
| VoiceController.AnswerFeedback | russian-math-tutor/src/components/VoiceController.tsx:78-86 | praise when the answer is right, otherwise the correction of the question that was asked |
| VoiceController.Complete | russian-math-tutor/src/components/VoiceController.tsx:98-136 | with errors, a fresh session of the same label from its first question; clean label 1, a fresh label 2; clean label 2, the end |
| VoiceController.AnsweredQuestions | russian-math-tutor/src/components/VoiceController.tsx:147-150 | empty without a session; otherwise holds exactly the session's questions that carry an answer |
| VoiceController.Answered | russian-math-tutor/src/components/VoiceController.tsx:149 | the filter keeps no more questions than it is given (membership and order are stated by AnsweredMembers and AnsweredAppend) |
| VoiceController.AnsweredMembers | russian-math-tutor/src/components/VoiceController.tsx:147-150 | the history holds exactly the answered questions of the session |
| VoiceController.AnsweredAppend | russian-math-tutor/src/components/VoiceController.tsx:149 | the filter of a concatenation is the concatenation of the filters, so order is kept |
| VoiceController.AnsweredAll | russian-math-tutor/src/components/VoiceController.tsx:149 | when every question is answered the history is all of them |
| VoiceController.AnsweredNone | russian-math-tutor/src/components/VoiceController.tsx:149 | when none is answered the history is empty |
| VoiceController.AnsweredPrefix | russian-math-tutor/src/components/VoiceController.tsx:149 | questions answered up to a point and not after have exactly that prefix as history |
| VoiceController.HistoryIsAskedPrefix | russian-math-tutor/src/components/VoiceController.tsx:147-150 | in a valid session the history is the questions before the index, in order |
| VoiceController.StepValid | russian-math-tutor/src/components/VoiceController.tsx:41-50 | the step invariant: a question is asked as the current one of a valid five-question session, or a valid complete five-question session is summarised |
| VoiceController.StartIsValid | russian-math-tutor/src/components/VoiceController.tsx:28-33 | the first step asks the current question of a valid five-question session |
| VoiceController.AskNextIsValid | russian-math-tutor/src/components/VoiceController.tsx:41-47 | asking from a valid session keeps the step invariant |
| VoiceController.HearKeepsValid | russian-math-tutor/src/components/VoiceController.tsx:57-67 | whatever is heard, the next step asks the current question of a valid session or summarises a valid complete one |
| VoiceController.CompleteKeepsValid | russian-math-tutor/src/components/VoiceController.tsx:98-136 | completing a valid session keeps the step invariant |
| VoiceController.Run | russian-math-tutor/src/services/QuestionService.ts:56-81 | answering in turn keeps label and length, moves the index by the number of answers, grades each answered slot with its answer, leaves earlier and later slots alone, and completes iff the index reaches the end (unchanged when nothing is answered) |
| VoiceController.RunErrors | russian-math-tutor/src/services/QuestionService.ts:64-68 | after answering in turn, the errors are the earlier errors followed, in order, by the wrongly answered questions among those just answered |
| QuestionService.MistakesSingle | russian-math-tutor/src/services/QuestionService.ts:64-68 | one question's errors are that question iff it is answered wrongly, otherwise none |
| VoiceController.RunKeepsValid | russian-math-tutor/src/services/QuestionService.ts:56-81 | answering in turn keeps the session invariant |
| VoiceController.FreshRunGrades | russian-math-tutor/src/services/QuestionService.ts:40-47 | after five answers to a fresh session, question k holds answer k and is wrong iff it differs from the bank's answer |
| VoiceController.FullRun | russian-math-tutor/src/components/VoiceController.tsx:98-106 | five answers complete a fresh session, which has errors iff some answer differs from its question's correct answer |
| VoiceController.CleanLabelOneMovesOn | russian-math-tutor/src/components/VoiceController.tsx:119-127 | five right answers on label 1 lead to the first question of a fresh label 2 |
| VoiceController.CleanLabelTwoFinishes | russian-math-tutor/src/components/VoiceController.tsx:128-134 | five right answers on label 2 end the lesson |
| VoiceController.MistakeReplaysLabel | russian-math-tutor/src/components/VoiceController.tsx:106-117 | one wrong answer anywhere replays the whole label from a fresh session's first question |
| VoiceController.SpeakEquation | russian-math-tutor/src/components/VoiceController.tsx:84 | "a op b = c" is spoken with "NaN" in place of the "=" |
| VoiceController.CorrectionAsWritten | russian-math-tutor/src/components/VoiceController.tsx:84 | as written, the correction starts with the opening "Неправильно. Правильный ответ: " |
| VoiceController.CorrectionAsWrittenWords | russian-math-tutor/src/components/VoiceController.tsx:84 | as written, the correction is the opening, the question's words, "NaN" and the answer's word |
| VoiceController.CorrectionAsWrittenSaysNaN | russian-math-tutor/src/components/VoiceController.tsx:84 | as written, the correction of any "a op b" question contains "NaN" |
| VoiceController.FirstQuestionCorrectionSaysNaN | russian-math-tutor/src/components/VoiceController.tsx:84 | the correction of the first label-1 question, "2 + 1", contains "NaN" |
| VoiceController.Correction | russian-math-tutor/src/components/VoiceController.tsx:84 | the corrected correction starts with the same opening, followed by the question's item as the error report words it |
| VoiceController.CorrectionWords | russian-math-tutor/src/components/VoiceController.tsx:84 | the corrected correction is the opening, the question's words, "equals" in Hebrew and the answer's word |
| VoiceController.CorrectionSaysNoNaN | russian-math-tutor/src/components/VoiceController.tsx:84 | for numbers in 0..20 the corrected correction contains no "NaN" |

## Left out

- Speaking, listening, timers, React state, the status line, `stopSession`
  and the rendered page: these are browser I/O and presentation. The model
  returns the controller's next `Step` instead of scheduling it.
- The Russian greeting, status and closing phrases, and the spoken summary
  of totals (VoiceController.tsx:102), which are fixed text around the modelled
  decisions.
- `toLowerCase` beyond ASCII: only A–Z are lower-cased. The lexicon and
  numerals hold no other cased letter, so nothing read from them changes.
- Property names inherited by a plain object (such as "constructor") in the
  exact lookup at VoiceService.ts:112: the lexicon is modelled as its own
  39 entries only.
- `parseInt` and `toString` on numbers outside the safe-integer range, on
  -0 and on fractions: the core only handles small whole numbers.
- The voice selection and configuration of `VoiceService`, and the hook's
  call to `parseRussianNumber`, which `VoiceService` does not define.
- QuestionService.Mistakes: its own contract states which questions are
  among the errors, not their order. The order is stated by
  QuestionService.MistakesAppend and QuestionService.MistakesSingle, and by
  `ProcessAnswer`'s contract, which appends each wrong answer at the end.

## Findings

| source | as written | input that shows it | evidently intended | confidence | as-written member | corrected member |
|---|---|---|---|---|---|---|
| russian-math-tutor/src/components/VoiceController.tsx:84 | the correction re-serialises "<expression> = <answer>" through `formatQuestionForSpeech`, whose "=" piece goes through `parseInt` and is spoken as "NaN" | the first label-1 question "2 + 1" answered wrong is corrected as "… שניים פלוס אחד NaN שלוש" | say the question, "equals" and the answer, as the error report does | not executed | VoiceController.CorrectionAsWrittenSaysNaN, VoiceController.FirstQuestionCorrectionSaysNaN | VoiceController.CorrectionSaysNoNaN (of VoiceController.Correction, used by VoiceController.Feedback) |
| russian-math-tutor/src/services/VoiceService.ts:124 | an empty utterance is contained in every key, so it is read as 0 and graded as an answer | a recognition that ends with no result and no error while the first question is asked: `listen` resolves "" (VoiceService.ts:95-98), and, with the hook's call at useVoiceRecognition.ts:62 pointed at `parseHebrewNumber`, the question is answered 0 and recorded as an error; a browser that reports silence as a `no-speech` error rejects at VoiceService.ts:91-93 instead and never reaches this path | an empty utterance is no answer, and the same question is asked again (VoiceController.tsx:60-67) | not executed | VoiceService.BlankIsZero, VoiceController.SilenceIsGradedAsZero | VoiceService.BlankIsNotHeard, VoiceController.SilenceIsAskedAgain (of VoiceService.ParseSpokenNumber, used by VoiceController.Hear) |
