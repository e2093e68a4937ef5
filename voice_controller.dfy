/** The decisions of the lesson controller: which question to ask, what an
    utterance does to the session, what is said after grading, and where a
    finished session leads. The browser's speaking, listening and timers are
    left out; each step returns what the controller does next. */
module VoiceController {
  import opened Wrappers
  import opened JsText
  import opened Types
  import opened QuestionService
  import opened VoiceService

  /** What the controller does next. */
  datatype Step =
    | Ask(session: Session, question: Question)  // speak the question and listen
    | Summarize(session: Session)                // handleSessionComplete
    | Finished                                   // the lesson is over; onSessionComplete

  /** askNextQuestion: the next question of the session, or the session's
      completion when it has none left. */
  function AskNext(s: Session): (r: Step)
    ensures r.Summarize? <==> s.currentQuestionIndex >= |s.questions|
    ensures r.Summarize? ==> r.session == s
    ensures r.Ask? ==> r.session == s && r.question == s.questions[s.currentQuestionIndex]
    ensures !r.Finished?
  {
    match GetNextQuestion(s)
    case None => Summarize(s)
    case Some(q) => Ask(s, q)
  }

  /** startSession: a label-1 session, and its first question. */
  function Start(): (r: Step)
    ensures r == Ask(CreateSession(1), CreateSession(1).questions[0])
  {
    AskNext(CreateSession(1))
  }

  /** processAnswer: grade the current question; summarise a finished session,
      otherwise ask the next question. */
  function Answer(s: Session, answer: int): (r: Step)
    requires s.currentQuestionIndex < |s.questions|
    ensures var u := ProcessAnswer(s, answer);
      if u.isComplete then r == Summarize(u) else r == Ask(u, u.questions[u.currentQuestionIndex])
  {
    var updated := ProcessAnswer(s, answer);
    if updated.isComplete then Summarize(updated) else AskNext(updated)
  }

  /** The listening step of askNextQuestion, with the utterance read by the
      corrected parser: one that reads as a number answers the question; one
      that does not, silence included, asks the same question of the same
      session again. */
  function Hear(s: Session, speech: string): (r: Step)
    requires s.currentQuestionIndex < |s.questions|
    ensures ParseSpokenNumber(speech).None? ==> r == Ask(s, s.questions[s.currentQuestionIndex])
    ensures ParseSpokenNumber(speech).Some? ==> r == Answer(s, ParseSpokenNumber(speech).value)
  {
    match ParseSpokenNumber(speech)
    case None => AskNext(s)
    case Some(answer) => Answer(s, answer)
  }

  /** The listening step as written, with parseHebrewNumber reading the
      utterance. */
  function HearAsWritten(s: Session, speech: string): (r: Step)
    requires s.currentQuestionIndex < |s.questions|
    ensures ParseHebrewNumber(speech).None? ==> r == Ask(s, s.questions[s.currentQuestionIndex])
    ensures ParseHebrewNumber(speech).Some? ==> r == Answer(s, ParseHebrewNumber(speech).value)
  {
    match ParseHebrewNumber(speech)
    case None => AskNext(s)
    case Some(answer) => Answer(s, answer)
  }

  /** As written, a listen that hears nothing grades the question with the
      answer 0, which is wrong for every question in the bank. */
  lemma SilenceIsGradedAsZero(level: Label, speech: string)
    requires IsBlank(speech)
    ensures var s := CreateSession(level);
      HearAsWritten(s, speech) == Answer(s, 0) &&
      ProcessAnswer(s, 0).errors == [ProcessAnswer(s, 0).questions[0]]
  {
    BlankIsZero(speech);
  }

  /** With the corrected parser, silence asks the same question again and
      leaves the session as it was. */
  lemma SilenceIsAskedAgain(s: Session, speech: string)
    requires s.currentQuestionIndex < |s.questions| && IsBlank(speech)
    ensures Hear(s, speech) == Ask(s, s.questions[s.currentQuestionIndex])
  {
    BlankIsNotHeard(speech);
  }

  /** The question just graded: the one before the updated session's index. */
  function GradedQuestion(u: Session): Question
    requires 0 < u.currentQuestionIndex <= |u.questions|
  {
    u.questions[u.currentQuestionIndex - 1]
  }

  /** After grading, the question before the new index is the old current
      question with the answer and its grade filled in. */
  lemma GradedQuestionIsValidated(s: Session, answer: int)
    requires s.currentQuestionIndex < |s.questions|
    ensures var u := ProcessAnswer(s, answer);
      0 < u.currentQuestionIndex <= |u.questions| &&
      GradedQuestion(u) == ValidateAnswer(s.questions[s.currentQuestionIndex], answer) &&
      (GradedQuestion(u).isCorrect == Some(true) <==> answer == s.questions[s.currentQuestionIndex].correctAnswer)
  {
  }

  /** handleSessionComplete: a session with wrong answers is replayed in full
      from a fresh session of the same label; a clean label 1 moves on to a
      fresh label 2; a clean label 2 ends the lesson. */
  function Complete(s: Session): (r: Step)
    ensures |s.errors| > 0 ==> r == AskNext(CreateSession(s.currentLabel))
    ensures |s.errors| == 0 && s.currentLabel == 1 ==> r == AskNext(CreateSession(2))
    ensures |s.errors| == 0 && s.currentLabel == 2 ==> r == Finished
  {
    var summary := GetSessionSummary(s);
    if summary.incorrectCount > 0 then AskNext(CreateSession(s.currentLabel))
    else if s.currentLabel == 1 then AskNext(CreateSession(2))
    else Finished
  }

  /** The answer history: the questions of the session that carry an answer,
      in session order; none without a session. */
  function AnsweredQuestions(session: Option<Session>): (r: seq<Question>)
    ensures session.None? ==> r == []
    ensures session.Some? ==> forall q :: q in r <==> q in session.value.questions && q.userAnswer.Some?
  {
    match session
    case None => []
    case Some(s) => AnsweredMembers(s.questions); Answered(s.questions)
  }

  /** The filter of the history: the questions that carry an answer, in order. */
  function Answered(qs: seq<Question>): (r: seq<Question>)
    ensures |r| <= |qs|
  {
    if qs == [] then []
    else
      var last := qs[|qs| - 1];
      Answered(qs[..|qs| - 1]) + (if last.userAnswer.Some? then [last] else [])
  }

  /** The history holds exactly the answered questions. */
  lemma {:induction false} AnsweredMembers(qs: seq<Question>)
    ensures forall q :: q in Answered(qs) <==> q in qs && q.userAnswer.Some?
  {
    if qs != [] {
      var init, last := qs[..|qs| - 1], qs[|qs| - 1];
      AnsweredMembers(init);
      assert qs == init + [last];
    }
  }

  lemma {:induction false} AnsweredAll(qs: seq<Question>)
    requires forall i :: 0 <= i < |qs| ==> qs[i].userAnswer.Some?
    ensures Answered(qs) == qs
  {
    if qs != [] {
      AnsweredAll(qs[..|qs| - 1]);
      assert qs[..|qs| - 1] + [qs[|qs| - 1]] == qs;
    }
  }

  lemma {:induction false} AnsweredNone(qs: seq<Question>)
    requires forall i :: 0 <= i < |qs| ==> qs[i].userAnswer.None?
    ensures Answered(qs) == []
  {
    if qs != [] {
      AnsweredNone(qs[..|qs| - 1]);
    }
  }

  lemma {:induction false} AnsweredAppend(a: seq<Question>, b: seq<Question>)
    ensures Answered(a + b) == Answered(a) + Answered(b)
    decreases |b|
  {
    if b == [] {
      assert a + b == a;
    } else {
      var b' := b[..|b| - 1];
      assert (a + b)[..|a + b| - 1] == a + b';
      AnsweredAppend(a, b');
    }
  }

  /** In a session the tutor built, the history is the questions before the
      index, that is the questions asked so far, in order. */
  lemma HistoryIsAskedPrefix(s: Session)
    requires Valid(s)
    ensures AnsweredQuestions(Some(s)) == s.questions[..s.currentQuestionIndex]
  {
    AnsweredPrefix(s.questions, s.currentQuestionIndex);
  }

  /** Questions answered up to some point and unanswered after it: the
      filter keeps exactly the answered prefix. */
  lemma {:induction false} AnsweredPrefix(qs: seq<Question>, i: nat)
    requires i <= |qs|
    requires forall k :: 0 <= k < |qs| ==> (qs[k].userAnswer.Some? <==> k < i)
    ensures Answered(qs) == qs[..i]
  {
    if qs != [] {
      var init, last := qs[..|qs| - 1], qs[|qs| - 1];
      if i == |qs| {
        AnsweredPrefix(init, |init|);
        assert init + [last] == qs;
      } else {
        AnsweredPrefix(init, i);
        assert init[..i] == qs[..i];
      }
    }
  }

  // ---------------------------------------------------------------------------
  // The controller's invariant

  /** A question being asked is the current one of a valid, unfinished
      session; a session being summarised is valid and finished. */
  predicate StepValid(st: Step) {
    match st
    case Ask(s, q) =>
      Valid(s) && |s.questions| == 5 &&
      s.currentQuestionIndex < |s.questions| && q == s.questions[s.currentQuestionIndex]
    case Summarize(s) => Valid(s) && |s.questions| == 5 && s.isComplete
    case Finished => true
  }

  lemma StartIsValid()
    ensures StepValid(Start())
  {
    CreateSessionIsValid(1);
  }

  lemma AskNextIsValid(s: Session)
    requires Valid(s) && |s.questions| == 5
    ensures StepValid(AskNext(s))
  {
  }

  /** Hearing an utterance, whatever it is, keeps the invariant. */
  lemma HearKeepsValid(s: Session, q: Question, speech: string)
    requires StepValid(Ask(s, q))
    ensures StepValid(Hear(s, speech))
  {
    var answer := ParseSpokenNumber(speech);
    if answer.Some? {
      ProcessAnswerKeepsValid(s, answer.value);
    }
  }

  /** Completing a session keeps the invariant. */
  lemma CompleteKeepsValid(s: Session)
    requires StepValid(Summarize(s))
    ensures StepValid(Complete(s))
  {
    CreateSessionIsValid(s.currentLabel);
    CreateSessionIsValid(2);
  }

  // ---------------------------------------------------------------------------
  // Whole sessions

  /** The errors of `after` are those of `before` followed by the mistakes
      among the `n` questions answered from `before`'s current question. */
  ghost predicate ErrorsCover(before: Session, n: nat, after: Session)
    requires before.currentQuestionIndex + n <= |after.questions|
  {
    after.errors == before.errors +
      Mistakes(after.questions[before.currentQuestionIndex..before.currentQuestionIndex + n])
  }

  /** The session after answering `answers` one by one from the current question. */
  function Run(s: Session, answers: seq<int>): (r: Session)
    requires s.currentQuestionIndex + |answers| <= |s.questions|
    ensures r.currentLabel == s.currentLabel && |r.questions| == |s.questions|
    ensures r.currentQuestionIndex == s.currentQuestionIndex + |answers|
    ensures forall k :: 0 <= k < |answers| ==>
      r.questions[s.currentQuestionIndex + k] ==
        ValidateAnswer(s.questions[s.currentQuestionIndex + k], answers[k])
    ensures forall i :: 0 <= i < s.currentQuestionIndex ==> r.questions[i] == s.questions[i]
    ensures forall i :: s.currentQuestionIndex + |answers| <= i < |s.questions| ==> r.questions[i] == s.questions[i]
    ensures r.isComplete == if answers == [] then s.isComplete else r.currentQuestionIndex >= |r.questions|
    decreases |answers|
  {
    if answers == [] then
      assert s.questions[s.currentQuestionIndex..s.currentQuestionIndex] == [];
      s
    else
      var next := ProcessAnswer(s, answers[0]);
      var rest := answers[1..];
      var r := Run(next, rest);
      assert forall k :: 1 <= k < |answers| ==> rest[k - 1] == answers[k];
      r
  }

  /** Running the answers appends exactly the mistakes among the newly
      answered questions to the errors. */
  lemma {:induction false} RunErrors(s: Session, answers: seq<int>)
    requires s.currentQuestionIndex + |answers| <= |s.questions|
    ensures ErrorsCover(s, |answers|, Run(s, answers))
    decreases |answers|
  {
    if answers == [] {
      assert Run(s, answers).questions[s.currentQuestionIndex..s.currentQuestionIndex] == [];
    } else {
      var next := ProcessAnswer(s, answers[0]);
      var rest := answers[1..];
      RunErrors(next, rest);
      ProcessAnswerErrors(s, answers[0]);
      RunErrorsStep(s, next, Run(next, rest), |answers|, |rest|);
      assert Run(s, answers) == Run(next, rest);
    }
  }

  /** One step of `Run`'s account of the errors: the first answered question
      is followed by the rest. */
  lemma RunErrorsStep(s: Session, next: Session, r: Session, n: nat, m: nat)
    requires n == m + 1 && s.currentQuestionIndex + n <= |r.questions| == |next.questions|
    requires next.currentQuestionIndex == s.currentQuestionIndex + 1
    requires r.questions[s.currentQuestionIndex] == next.questions[s.currentQuestionIndex]
    requires var q := next.questions[s.currentQuestionIndex];
      next.errors == s.errors + (if IsMistake(q) then [q] else [])
    requires ErrorsCover(next, m, r)
    ensures ErrorsCover(s, n, r)
  {
    var i := s.currentQuestionIndex;
    ErrorsSplit(s.errors, next.errors, r.errors, r.questions, next.questions[i], i, n, next.currentQuestionIndex, m);
  }

  /** The errors after the first answered question, followed by the mistakes
      among the rest, are the mistakes among all of them. */
  lemma ErrorsSplit(e0: seq<Question>, e1: seq<Question>, e2: seq<Question>, qs: seq<Question>,
                    q: Question, i: nat, n: nat, j: nat, m: nat)
    requires 0 < n && i + n <= |qs| && j == i + 1 && j + m == i + n && qs[i] == q
    requires e1 == e0 + (if IsMistake(q) then [q] else [])
    requires e2 == e1 + Mistakes(qs[j..j + m])
    ensures e2 == e0 + Mistakes(qs[i..i + n])
  {
    var rest := qs[j..j + m];
    SliceFirst(qs, i, n, j, m);
    MistakesAppend([q], rest);
    MistakesSingle(q);
    SeqAssoc(e0, Mistakes([q]), Mistakes(rest));
  }

  /** A run of questions is its first one followed by the rest. */
  lemma SliceFirst(qs: seq<Question>, i: nat, n: nat, j: nat, m: nat)
    requires 0 < n && i + n <= |qs| && j == i + 1 && j + m == i + n
    ensures qs[i..i + n] == [qs[i]] + qs[j..j + m]
  {
  }

  lemma SeqAssoc(a: seq<Question>, b: seq<Question>, c: seq<Question>)
    ensures a + b + c == a + (b + c)
  {
  }

  /** Answering question after question keeps the session invariant. */
  lemma {:induction false} RunKeepsValid(s: Session, answers: seq<int>)
    requires Valid(s) && s.currentQuestionIndex + |answers| <= |s.questions|
    ensures Valid(Run(s, answers))
    decreases |answers|
  {
    if answers != [] {
      ProcessAnswerKeepsValid(s, answers[0]);
      RunKeepsValid(ProcessAnswer(s, answers[0]), answers[1..]);
    }
  }

  /** After a run from a fresh session, question k holds answer k, graded
      against the bank's answer for k. */
  lemma FreshRunGrades(level: Label, answers: seq<int>, k: nat)
    requires |answers| == 5 && k < 5
    ensures var r := Run(CreateSession(level), answers);
      r.questions[k].userAnswer == Some(answers[k]) &&
      (IsMistake(r.questions[k]) <==> answers[k] != QuestionBank(level)[k].1)
  {
    var s := CreateSession(level);
    assert s.questions[k].correctAnswer == QuestionBank(level)[k].1;
    assert Run(s, answers).questions[0 + k] == ValidateAnswer(s.questions[0 + k], answers[k]);
  }

  /** Running a fresh session through all of its questions finishes it, and
      it has wrong answers exactly when some answer differs from the
      question's correct one. */
  lemma FullRun(level: Label, answers: seq<int>)
    requires |answers| == 5
    ensures var r := Run(CreateSession(level), answers);
      Valid(r) && r.isComplete && r.currentLabel == level &&
      (|r.errors| > 0 <==> exists k :: 0 <= k < 5 && answers[k] != QuestionBank(level)[k].1)
  {
    var s := CreateSession(level);
    CreateSessionIsValid(level);
    RunKeepsValid(s, answers);
    var r := Run(s, answers);
    assert r.questions[..r.currentQuestionIndex] == r.questions;
    if exists k :: 0 <= k < 5 && answers[k] != QuestionBank(level)[k].1 {
      var k :| 0 <= k < 5 && answers[k] != QuestionBank(level)[k].1;
      FreshRunGrades(level, answers, k);
      assert r.questions[k] in r.errors;
    } else {
      forall k | 0 <= k < 5
        ensures !IsMistake(r.questions[k])
      {
        FreshRunGrades(level, answers, k);
      }
      MistakesNone(r.questions);
    }
  }

  /** Five right answers on label 1 lead to the first question of label 2. */
  lemma CleanLabelOneMovesOn(answers: seq<int>)
    requires |answers| == 5
    requires forall k :: 0 <= k < 5 ==> answers[k] == QuestionBank(1)[k].1
    ensures Complete(Run(CreateSession(1), answers)) == Ask(CreateSession(2), CreateSession(2).questions[0])
  {
    FullRun(1, answers);
  }

  /** Five right answers on label 2 end the lesson. */
  lemma CleanLabelTwoFinishes(answers: seq<int>)
    requires |answers| == 5
    requires forall k :: 0 <= k < 5 ==> answers[k] == QuestionBank(2)[k].1
    ensures Complete(Run(CreateSession(2), answers)) == Finished
  {
    FullRun(2, answers);
  }

  /** One wrong answer anywhere replays the whole label from its first question. */
  lemma MistakeReplaysLabel(level: Label, answers: seq<int>, k: nat)
    requires |answers| == 5 && k < 5 && answers[k] != QuestionBank(level)[k].1
    ensures Complete(Run(CreateSession(level), answers)) ==
      Ask(CreateSession(level), CreateSession(level).questions[0])
  {
    FullRun(level, answers);
  }

  // ---------------------------------------------------------------------------
  // What is said after grading

  const Praise: string := "Правильно!"
  const CorrectionOpening: string := "Неправильно. Правильный ответ: "

  /** The correction as written: the question is re-serialised with
      " = <answer>" appended to its expression, so the "=" piece goes
      through parseInt as well. */
  function CorrectionAsWritten(q: Question): (r: string)
    ensures |CorrectionOpening| <= |r| && r[..|CorrectionOpening|] == CorrectionOpening
  {
    CorrectionOpening + QuestionSpeech(q.expression + " = " + IntToString(q.correctAnswer))
  }

  /** The correction as evidently intended: the question, "equals" and the
      answer, worded as in the error report. */
  function Correction(q: Question): (r: string)
    ensures |CorrectionOpening| <= |r| && r[..|CorrectionOpening|] == CorrectionOpening
    ensures ErrorsSpeech([q]) == CorrectAnswersIntro + r[|CorrectionOpening|..]
  {
    var r := CorrectionOpening + ErrorItem(q);
    assert r[|CorrectionOpening|..] == ErrorItem(q);
    r
  }

  /** What processAnswer says about the question just graded. */
  function Feedback(u: Session): (r: string)
    requires 0 < u.currentQuestionIndex <= |u.questions|
    ensures r == Praise <==> GradedQuestion(u).isCorrect == Some(true)
    ensures r != Praise ==> r == Correction(GradedQuestion(u))
  {
    var q := GradedQuestion(u);
    if q.isCorrect == Some(true) then Praise else Correction(q)
  }

  /** What is said after an answer: praise when it is right, otherwise the
      correction of the question that was asked. */
  lemma AnswerFeedback(s: Session, answer: int)
    requires s.currentQuestionIndex < |s.questions|
    ensures var q := s.questions[s.currentQuestionIndex];
      Feedback(ProcessAnswer(s, answer)) == if answer == q.correctAnswer then Praise else Correction(q)
  {
    GradedQuestionIsValidated(s, answer);
  }

  lemma SplitEquation(x: string, op: string, y: string, z: string)
    requires ' ' !in x && ' ' !in op && ' ' !in y && ' ' !in z
    ensures Split(x + " " + op + " " + y + " = " + z, ' ') == [x, op, y, "=", z]
  {
    var tail := "=" + [' '] + z;
    EquationPieces(x, op, y, z);
    SplitAt(x, ' ', op + [' '] + (y + [' '] + tail));
    SplitAt(op, ' ', y + [' '] + tail);
    SplitAt(y, ' ', tail);
    SplitAt("=", ' ', z);
    SplitWithout(z, ' ');
  }

  lemma EquationPieces(x: string, op: string, y: string, z: string)
    ensures x + " " + op + " " + y + " = " + z == x + [' '] + (op + [' '] + (y + [' '] + ("=" + [' '] + z)))
  {
    assert " = " == [' '] + "=" + [' '];
  }

  lemma SpeechOfFive(x: string, op: string, y: string, e: string, z: string)
    ensures SpeechOf([x, op, y, e, z]) ==
      TokenSpeech(x) + TokenSpeech(op) + TokenSpeech(y) + TokenSpeech(e) + TokenSpeech(z)
  {
    SpeechOfThree(x, op, y);
    assert [x, op, y, e][..3] == [x, op, y];
    assert [x, op, y, e, z][..4] == [x, op, y, e];
  }

  lemma RegroupEquation(wa: string, wo: string, wb: string, nan: string, wc: string)
    ensures (wa + " ") + wo + (wb + " ") + nan + (wc + " ") == (wa + " " + wo + wb + " " + nan + wc) + " "
  {
  }

  lemma TrimEquationWords(wa: string, wo: string, wb: string, nan: string, wc: string)
    requires wa != [] && wc != [] && IsTrimmed(wa) && IsTrimmed(wc)
    ensures Trim((wa + " " + wo + wb + " " + nan + wc) + " ") == wa + " " + wo + wb + " " + nan + wc
  {
    var spoken := wa + " " + wo + wb + " " + nan + wc;
    assert IsBlank(" ");
    TrimBlankSuffix(spoken, " ");
    assert spoken[0] == wa[0];
    assert spoken[|spoken| - 1] == wc[|wc| - 1];
    TrimmedIsFixed(spoken);
  }

  /** The spoken pieces of "<x> <op> <y> = <z>". */
  lemma SpeakEquationPieces(x: string, op: string, y: string, z: string)
    requires ' ' !in x && ' ' !in op && ' ' !in y && ' ' !in z
    ensures QuestionSpeech(x + " " + op + " " + y + " = " + z) ==
      Trim(TokenSpeech(x) + TokenSpeech(op) + TokenSpeech(y) + TokenSpeech("=") + TokenSpeech(z))
  {
    SplitEquation(x, op, y, z);
    SpeechOfFive(x, op, y, "=", z);
  }

  /** The "=" of an equation is no sign and no number: it is spoken as NaN. */
  lemma EqualsSignIsNaN()
    ensures TokenSpeech("=") == "NaN "
  {
    NonNumericPieceIsNaN("=");
  }

  /** The words spoken for "<x> <op> <y> = <z>", given the words of its pieces. */
  lemma SpeakEquationWords(x: string, op: string, y: string, z: string, wa: string, wo: string, wb: string, wc: string)
    requires ' ' !in x && ' ' !in op && ' ' !in y && ' ' !in z
    requires TokenSpeech(x) == wa + " " && TokenSpeech(op) == wo
    requires TokenSpeech(y) == wb + " " && TokenSpeech(z) == wc + " "
    requires wa != [] && wc != [] && IsTrimmed(wa) && IsTrimmed(wc)
    ensures QuestionSpeech(x + " " + op + " " + y + " = " + z) == wa + " " + wo + wb + " " + "NaN " + wc
  {
    SpeakEquationPieces(x, op, y, z);
    EqualsSignIsNaN();
    RegroupEquation(wa, wo, wb, "NaN ", wc);
    TrimEquationWords(wa, wo, wb, "NaN ", wc);
  }

  /** Serialising "<a> <op> <b> = <c>" speaks the "=" as "NaN": it is neither
      a sign nor a number. */
  lemma SpeakEquation(a: int, op: string, b: int, c: int)
    requires IsOperator(op)
    ensures QuestionSpeech(IntToString(a) + " " + op + " " + IntToString(b) + " = " + IntToString(c)) ==
      NumberToHebrewWord(Some(a)) + " " + OperatorSpeech(op) + NumberToHebrewWord(Some(b)) +
        " " + "NaN " + NumberToHebrewWord(Some(c))
  {
    IntToStringHasNoSpace(a);
    IntToStringHasNoSpace(b);
    IntToStringHasNoSpace(c);
    NumberPieceSpeech(a);
    NumberPieceSpeech(b);
    NumberPieceSpeech(c);
    OperatorPieceSpeech(op);
    SpeakEquationWords(IntToString(a), op, IntToString(b), IntToString(c),
      NumberToHebrewWord(Some(a)), OperatorSpeech(op), NumberToHebrewWord(Some(b)), NumberToHebrewWord(Some(c)));
  }

  lemma IncludesInside(o: string, p: string, t: string, q: string, n: nat)
    requires n <= |t|
    ensures Includes(o + (p + t + q), t[..n])
  {
    var s := o + (p + t + q);
    assert s[|o| + |p|..|o| + |p| + n] == t[..n];
    assert OccursAt(s, t[..n], |o| + |p|);
  }

  /** As written, the correction for a question "<a> <op> <b>" speaks the
      question's words, "NaN" for the "=", and the answer's word. */
  lemma CorrectionAsWrittenWords(q: Question, a: int, op: string, b: int)
    requires IsOperator(op)
    requires q.expression == IntToString(a) + " " + op + " " + IntToString(b)
    ensures CorrectionAsWritten(q) == CorrectionOpening + (NumberToHebrewWord(Some(a)) + " " + OperatorSpeech(op) +
      NumberToHebrewWord(Some(b)) + " " + "NaN " + NumberToHebrewWord(Some(q.correctAnswer)))
  {
    SpeakEquation(a, op, b, q.correctAnswer);
  }

  /** As written, the correction for a question "<a> <op> <b>" says "NaN". */
  lemma CorrectionAsWrittenSaysNaN(q: Question, a: int, op: string, b: int)
    requires IsOperator(op)
    requires q.expression == IntToString(a) + " " + op + " " + IntToString(b)
    ensures Includes(CorrectionAsWritten(q), "NaN")
  {
    CorrectionAsWrittenWords(q, a, op, b);
    var wa, wo, wb, wc := NumberToHebrewWord(Some(a)), OperatorSpeech(op), NumberToHebrewWord(Some(b)), NumberToHebrewWord(Some(q.correctAnswer));
    SpokenNaNIncluded(CorrectionAsWritten(q), CorrectionOpening, wa + " " + wo + wb + " ", wc);
  }

  lemma SpokenNaNIncluded(s: string, o: string, p: string, wc: string)
    requires s == o + (p + "NaN " + wc)
    ensures Includes(s, "NaN")
  {
    IncludesInside(o, p, "NaN ", wc, 3);
    assert "NaN "[..3] == "NaN";
  }

  /** The first question of label 1, "2 + 1", answered wrong, is corrected as
      written with "NaN" in the middle. */
  lemma FirstQuestionCorrectionSaysNaN()
    ensures Includes(CorrectionAsWritten(CreateSession(1).questions[0]), "NaN")
  {
    var q := CreateSession(1).questions[0];
    assert q.expression == IntToString(2) + " " + "+" + " " + IntToString(1);
    CorrectionAsWrittenSaysNaN(q, 2, "+", 1);
  }

  lemma HebrewWordHasNoLatin(w: string, c: char)
    requires IsHebrewWord(w) && !IsHebrew(c) && c != ' '
    ensures c !in w
  {
  }

  /** The intended correction of a question "<a> <op> <b>" is the words of
      the question, "equals" and the answer's word. */
  lemma CorrectionWords(q: Question, a: int, op: string, b: int)
    requires IsOperator(op)
    requires q.expression == IntToString(a) + " " + op + " " + IntToString(b)
    ensures Correction(q) == CorrectionOpening + (NumberToHebrewWord(Some(a)) + " " + OperatorSpeech(op) +
      NumberToHebrewWord(Some(b)) + " שווה " + NumberToHebrewWord(Some(q.correctAnswer)))
  {
    SpeakBinary(a, op, b);
  }

  /** With the question's numbers and the answer from 0 to 20, the intended
      correction is all Hebrew words and has no Latin letter N. */
  lemma CorrectionHasNoN(q: Question, a: int, op: string, b: int)
    requires IsOperator(op) && 0 <= a <= 20 && 0 <= b <= 20 && 0 <= q.correctAnswer <= 20
    requires q.expression == IntToString(a) + " " + op + " " + IntToString(b)
    ensures 'N' !in Correction(q)
  {
    CorrectionWords(q, a, op, b);
    WordHasNoN(a);
    WordHasNoN(b);
    WordHasNoN(q.correctAnswer);
    OperatorHasNoN(op);
    FixedTextHasNoN();
    NoLetterInWords(CorrectionOpening, NumberToHebrewWord(Some(a)), OperatorSpeech(op), NumberToHebrewWord(Some(b)),
      NumberToHebrewWord(Some(q.correctAnswer)), 'N');
  }

  /** So the intended correction says no "NaN". */
  lemma CorrectionSaysNoNaN(q: Question, a: int, op: string, b: int)
    requires IsOperator(op) && 0 <= a <= 20 && 0 <= b <= 20 && 0 <= q.correctAnswer <= 20
    requires q.expression == IntToString(a) + " " + op + " " + IntToString(b)
    ensures !Includes(Correction(q), "NaN")
  {
    CorrectionHasNoN(q, a, op, b);
    MissingNotIncluded(Correction(q), "NaN");
  }

  lemma OperatorHasNoN(op: string)
    requires IsOperator(op)
    ensures 'N' !in OperatorSpeech(op)
  {
  }

  lemma FixedTextHasNoN()
    ensures 'N' !in CorrectionOpening && 'N' !in " שווה "
  {
  }

  lemma WordHasNoN(n: int)
    requires 0 <= n <= 20
    ensures 'N' !in NumberToHebrewWord(Some(n))
  {
    HebrewWordHasNoLatin(NumberToHebrewWord(Some(n)), 'N');
  }

  lemma NoLetterInWords(o: string, wa: string, wo: string, wb: string, wc: string, c: char)
    requires c !in o && c !in wa && c !in wo && c !in wb && c !in wc && c != ' '
    requires c !in " שווה "
    ensures c !in o + (wa + " " + wo + wb + " שווה " + wc)
  {
  }
}
