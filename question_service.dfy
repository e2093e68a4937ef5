/** The question bank and the session state machine: sessions are values, and
    every operation returns a new session built from the old one. Also the
    serialiser that turns an expression such as "2 + 1" into Hebrew words. */
module QuestionService {
  import opened Wrappers
  import opened JsText
  import opened Types

  /** LABEL1_QUESTIONS: adding one. */
  const Label1Questions: seq<(string, int)> :=
    [("2 + 1", 3), ("5 + 1", 6), ("7 + 1", 8), ("3 + 1", 4), ("9 + 1", 10)]

  /** LABEL2_QUESTIONS: adding two. */
  const Label2Questions: seq<(string, int)> :=
    [("2 + 2", 4), ("5 + 2", 7), ("7 + 2", 9), ("4 + 2", 6), ("9 + 2", 11)]

  function QuestionBank(level: Label): (bank: seq<(string, int)>)
    ensures |bank| == 5
  {
    if level == 1 then Label1Questions else Label2Questions
  }

  /** The id of the question at `index`: the level, a dash, the 1-based position. */
  function QuestionId(level: Label, index: nat): string {
    IntToString(level) + "-" + IntToString(index + 1)
  }

  /** createSession: the level's five questions in bank order, none answered. */
  function CreateSession(level: Label): (s: Session)
    ensures s.currentLabel == level
    ensures s.currentQuestionIndex == 0 && s.errors == [] && !s.isComplete
    ensures |s.questions| == 5
    ensures forall i :: 0 <= i < 5 ==>
      && s.questions[i].id == QuestionId(level, i)
      && (s.questions[i].expression, s.questions[i].correctAnswer) == QuestionBank(level)[i]
      && s.questions[i].userAnswer.None? && s.questions[i].isCorrect.None?
  {
    var bank := QuestionBank(level);
    var questions := seq(|bank|, i requires 0 <= i < |bank| =>
      Question(QuestionId(level, i), bank[i].0, bank[i].1, None, None));
    Session(level, questions, 0, [], false)
  }

  /** validateAnswer: the question with the answer and its grade filled in. */
  function ValidateAnswer(q: Question, answer: int): (r: Question)
    ensures r.id == q.id && r.expression == q.expression && r.correctAnswer == q.correctAnswer
    ensures r.userAnswer == Some(answer)
    ensures r.isCorrect == Some(answer == q.correctAnswer)
    ensures IsGraded(r) && (IsMistake(r) <==> answer != q.correctAnswer)
  {
    q.(userAnswer := Some(answer), isCorrect := Some(answer == q.correctAnswer))
  }

  /** getNextQuestion: the question at the index, or none once the index has
      passed the last question. */
  function GetNextQuestion(s: Session): (r: Option<Question>)
    ensures r.None? <==> s.currentQuestionIndex >= |s.questions|
    ensures r.Some? ==> r.value == s.questions[s.currentQuestionIndex]
  {
    if s.currentQuestionIndex >= |s.questions| then None
    else Some(s.questions[s.currentQuestionIndex])
  }

  /** processAnswer: grades the current question, writes it back into its slot,
      appends it to the errors when the answer is wrong and moves the index on.
      The source reads the current question without a check, so a caller must
      not call it on a finished session. */
  function ProcessAnswer(s: Session, answer: int): (r: Session)
    requires s.currentQuestionIndex < |s.questions|
    ensures r.currentLabel == s.currentLabel
    ensures r.currentQuestionIndex == s.currentQuestionIndex + 1
    ensures r.isComplete <==> r.currentQuestionIndex >= |r.questions|
    ensures |r.questions| == |s.questions|
    ensures forall i :: 0 <= i < |s.questions| && i != s.currentQuestionIndex ==>
      r.questions[i] == s.questions[i]
    ensures r.questions[s.currentQuestionIndex] == ValidateAnswer(s.questions[s.currentQuestionIndex], answer)
    ensures answer == s.questions[s.currentQuestionIndex].correctAnswer ==> r.errors == s.errors
    ensures answer != s.questions[s.currentQuestionIndex].correctAnswer ==>
      r.errors == s.errors + [r.questions[s.currentQuestionIndex]]
  {
    var index := s.currentQuestionIndex;
    var validated := ValidateAnswer(s.questions[index], answer);
    var errors := if validated.isCorrect == Some(true) then s.errors else s.errors + [validated];
    var nextIndex := index + 1;
    s.(questions := s.questions[index := validated],
       currentQuestionIndex := nextIndex,
       errors := errors,
       isComplete := nextIndex >= |s.questions|)
  }

  /** The counts reported when a session ends. */
  datatype Summary = Summary(totalQuestions: nat, incorrectCount: nat, errors: seq<Question>)

  /** getSessionSummary */
  function GetSessionSummary(s: Session): (r: Summary)
    ensures r.totalQuestions == |s.questions|
    ensures r.incorrectCount == |s.errors| && r.errors == s.errors
  {
    Summary(|s.questions|, |s.errors|, s.errors)
  }

  // ---------------------------------------------------------------------------
  // The session invariant

  /** `isCorrect` is present exactly when `userAnswer` is, and says whether the
      answer was the correct one. */
  predicate IsGraded(q: Question) {
    match q.userAnswer
    case None => q.isCorrect.None?
    case Some(a) => q.isCorrect == Some(a == q.correctAnswer)
  }

  predicate IsMistake(q: Question) {
    q.userAnswer.Some? && q.userAnswer.value != q.correctAnswer
  }

  /** The wrongly answered questions of `qs`, in order. */
  function Mistakes(qs: seq<Question>): (r: seq<Question>)
    ensures |r| <= |qs|
    ensures forall q :: q in r ==> q in qs && IsMistake(q)
    ensures forall q :: q in qs && IsMistake(q) ==> q in r
  {
    if qs == [] then []
    else
      var last := qs[|qs| - 1];
      assert qs == qs[..|qs| - 1] + [last];
      Mistakes(qs[..|qs| - 1]) + (if IsMistake(last) then [last] else [])
  }

  lemma {:induction false} MistakesNone(qs: seq<Question>)
    requires forall i :: 0 <= i < |qs| ==> !IsMistake(qs[i])
    ensures Mistakes(qs) == []
  {
    if qs != [] {
      MistakesNone(qs[..|qs| - 1]);
    }
  }

  /** The wrong answers of two runs of questions, one after the other, are
      those of the first followed by those of the second. */
  lemma {:induction false} MistakesAppend(a: seq<Question>, b: seq<Question>)
    ensures Mistakes(a + b) == Mistakes(a) + Mistakes(b)
    decreases |b|
  {
    if b == [] {
      assert a + b == a;
    } else {
      var b' := b[..|b| - 1];
      assert (a + b)[..|a + b| - 1] == a + b';
      MistakesAppend(a, b');
    }
  }

  /** Answering adds the graded question to the errors exactly when it is wrong. */
  lemma ProcessAnswerErrors(s: Session, answer: int)
    requires s.currentQuestionIndex < |s.questions|
    ensures var u := ProcessAnswer(s, answer); var q := u.questions[s.currentQuestionIndex];
      u.errors == s.errors + (if IsMistake(q) then [q] else [])
  {
  }

  /** A single question is an error exactly when it is answered wrongly. */
  lemma MistakesSingle(x: Question)
    ensures Mistakes([x]) == if IsMistake(x) then [x] else []
  {
  }

  /** The invariant of every session the tutor builds: the questions before the
      index are answered and those from it on are not, every answer is graded,
      `errors` is the in-order list of wrongly answered questions, and
      `isComplete` says whether the index has reached the end. */
  predicate Valid(s: Session) {
    && s.currentQuestionIndex <= |s.questions|
    && s.isComplete == (s.currentQuestionIndex >= |s.questions|)
    && (forall i :: 0 <= i < |s.questions| ==>
          (s.questions[i].userAnswer.Some? <==> i < s.currentQuestionIndex))
    && (forall i :: 0 <= i < |s.questions| ==> IsGraded(s.questions[i]))
    && s.errors == Mistakes(s.questions[..s.currentQuestionIndex])
  }

  lemma CreateSessionIsValid(level: Label)
    ensures Valid(CreateSession(level))
  {
  }

  /** Answering keeps the invariant: the answered prefix grows by the graded
      question, and `errors` by that question exactly when it was answered wrong. */
  lemma ProcessAnswerKeepsValid(s: Session, answer: int)
    requires Valid(s) && s.currentQuestionIndex < |s.questions|
    ensures Valid(ProcessAnswer(s, answer))
  {
    var r := ProcessAnswer(s, answer);
    var i := s.currentQuestionIndex;
    assert r.questions[..i + 1] == s.questions[..i] + [r.questions[i]];
    assert r.questions[..i + 1][..i] == s.questions[..i];
  }

  /** Once a valid session is complete, the summary counts its wrong answers,
      and it counts none exactly when every question was answered correctly. */
  lemma SummaryOfCompleteSession(s: Session)
    requires Valid(s) && s.isComplete
    ensures GetSessionSummary(s).incorrectCount == |Mistakes(s.questions)|
    ensures GetSessionSummary(s).incorrectCount == 0 <==>
      forall i :: 0 <= i < |s.questions| ==> s.questions[i].isCorrect == Some(true)
  {
    assert s.questions[..s.currentQuestionIndex] == s.questions;
    if forall i :: 0 <= i < |s.questions| ==> s.questions[i].isCorrect == Some(true) {
      assert forall i :: 0 <= i < |s.questions| ==> !IsMistake(s.questions[i]);
      MistakesNone(s.questions);
    } else {
      var i :| 0 <= i < |s.questions| && s.questions[i].isCorrect != Some(true);
      assert s.questions[i] in Mistakes(s.questions);
    }
  }

  /** The ids of a fresh session are pairwise different. */
  lemma SessionIdsDistinct(level: Label)
    ensures forall i, j :: 0 <= i < j < 5 ==>
      CreateSession(level).questions[i].id != CreateSession(level).questions[j].id
  {
    forall i, j | 0 <= i < j < 5
      ensures CreateSession(level).questions[i].id != CreateSession(level).questions[j].id
    {
      var a, b := QuestionId(level, i), QuestionId(level, j);
      assert a[2] == DigitChar(i + 1) && b[2] == DigitChar(j + 1);
    }
  }

  // ---------------------------------------------------------------------------
  // Speech

  /** The words of numberToHebrewWord, indexed by the number. Four is the
      pointed spelling. */
  const NumberWords: seq<string> := [
    "אפס", "אחד", "שניים", "שלוש", "אַרבע", "חמש", "שש", "שבע", "שמונה", "תשע", "עשר",
    "אחת עשרה", "שתיים עשרה", "שלוש עשרה", "ארבע עשרה", "חמש עשרה", "שש עשרה",
    "שבע עשרה", "שמונה עשרה", "תשע עשרה", "עשרים"
  ]

  lemma NumberWordsAreHebrew()
    ensures |NumberWords| == 21
    ensures forall n :: 0 <= n < 21 ==> IsHebrewWord(NumberWords[n])
  {
  }

  lemma HebrewWordIsTrimmed(w: string)
    requires IsHebrewWord(w)
    ensures IsTrimmed(w) && HasNoCapitals(w)
  {
  }

  /** numberToHebrewWord. `None` stands for NaN, which no entry matches and
      which prints as "NaN"; any other number without a word prints in decimal. */
  function NumberToHebrewWord(n: Option<int>): (w: string)
    ensures w != [] && IsTrimmed(w)
    ensures n.Some? && 0 <= n.value <= 20 ==> IsHebrewWord(w)
    ensures n.Some? && 0 <= n.value <= 20 ==> w == NumberWords[n.value]
    ensures n.Some? && !(0 <= n.value <= 20) ==> w == IntToString(n.value) && ParseInt(w) == n
    ensures n.None? ==> w == "NaN"
  {
    NumberWordsAreHebrew();
    match n
    case None => "NaN"
    case Some(v) =>
      if 0 <= v < |NumberWords| then HebrewWordIsTrimmed(NumberWords[v]); NumberWords[v]
      else IntToString(v)
  }

  predicate IsOperator(p: string) {
    p == "+" || p == "-" || p == "×" || p == "*" || p == "÷" || p == "/"
  }

  /** What an arithmetic sign is spoken as, with the space that follows it. */
  function OperatorSpeech(p: string): (w: string)
    requires IsOperator(p)
    ensures |w| > 1 && w[|w| - 1] == ' ' && IsHebrewWord(w[..|w| - 1])
  {
    if p == "+" then "פלוס "
    else if p == "-" then "מינוס "
    else if p == "×" || p == "*" then "כפול "
    else "חלקי "
  }

  /** What one space-separated piece of an expression is spoken as: a sign's
      word, or else the word of the number parseInt reads from it; each is
      followed by a space. */
  function TokenSpeech(part: string): string {
    var p := Trim(part);
    if IsOperator(p) then OperatorSpeech(p) else NumberToHebrewWord(ParseInt(p)) + " "
  }

  function SpeechOf(parts: seq<string>): string {
    if parts == [] then "" else SpeechOf(parts[..|parts| - 1]) + TokenSpeech(parts[|parts| - 1])
  }

  /** What formatQuestionForSpeech says for an expression. */
  function QuestionSpeech(expression: string): string {
    Trim(SpeechOf(Split(expression, ' ')))
  }

  /** formatQuestionForSpeech */
  method FormatQuestionForSpeech(question: Question) returns (speech: string)
    ensures speech == QuestionSpeech(question.expression)
  {
    var parts := Split(question.expression, ' ');
    speech := "";
    for i := 0 to |parts|
      invariant speech == SpeechOf(parts[..i])
    {
      assert parts[..i + 1][..i] == parts[..i];
      var part := Trim(parts[i]);
      if part == "+" {
        speech := speech + "פלוס ";
      } else if part == "-" {
        speech := speech + "מינוס ";
      } else if part == "×" || part == "*" {
        speech := speech + "כפול ";
      } else if part == "÷" || part == "/" {
        speech := speech + "חלקי ";
      } else {
        var number := ParseInt(part);
        speech := speech + NumberToHebrewWord(number) + " ";
      }
    }
    assert parts[..|parts|] == parts;
    speech := Trim(speech);
  }

  lemma IntToStringHasNoSpace(n: int)
    ensures ' ' !in IntToString(n)
    ensures !IsOperator(IntToString(n))
  {
    var s := IntToString(n);
    if n < 0 {
      assert s[1..] == NatToString(-n);
      assert |s| >= 2;
    } else {
      assert IsDigit(s[0]);
    }
  }

  lemma SplitBinary(x: string, op: string, y: string)
    requires ' ' !in x && ' ' !in op && ' ' !in y
    ensures Split(x + " " + op + " " + y, ' ') == [x, op, y]
  {
    assert x + " " + op + " " + y == x + [' '] + (op + [' '] + y);
    SplitAt(x, ' ', op + [' '] + y);
    SplitAt(op, ' ', y);
    SplitWithout(y, ' ');
  }

  lemma SpeechOfThree(x: string, op: string, y: string)
    ensures SpeechOf([x, op, y]) == TokenSpeech(x) + TokenSpeech(op) + TokenSpeech(y)
  {
    var parts := [x, op, y];
    assert SpeechOf([x]) == TokenSpeech(x) by { assert [x][..0] == []; }
    assert SpeechOf([x, op]) == SpeechOf([x]) + TokenSpeech(op) by { assert [x, op][..1] == [x]; }
    assert parts[..2] == [x, op];
  }

  /** An integer written in decimal is spoken as its word. */
  lemma NumberPieceSpeech(n: int)
    ensures TokenSpeech(IntToString(n)) == NumberToHebrewWord(Some(n)) + " "
  {
    IntToStringHasNoSpace(n);
    TrimmedIsFixed(IntToString(n));
  }

  lemma OperatorPieceSpeech(op: string)
    requires IsOperator(op)
    ensures TokenSpeech(op) == OperatorSpeech(op)
  {
    TrimmedIsFixed(op);
  }

  /** A sum, difference, product or quotient of two integers written with single
      spaces, as in the question banks, is spoken as the first number's word,
      the sign's word and the second number's word, separated by single spaces. */
  lemma SpeakBinary(a: int, op: string, b: int)
    requires IsOperator(op)
    ensures QuestionSpeech(IntToString(a) + " " + op + " " + IntToString(b)) ==
      NumberToHebrewWord(Some(a)) + " " + OperatorSpeech(op) + NumberToHebrewWord(Some(b))
  {
    var x, y := IntToString(a), IntToString(b);
    IntToStringHasNoSpace(a);
    IntToStringHasNoSpace(b);
    SpeakPieces(x, op, y);
    NumberPieceSpeech(a);
    NumberPieceSpeech(b);
    OperatorPieceSpeech(op);
    var wa, wo, wb := NumberToHebrewWord(Some(a)), OperatorSpeech(op), NumberToHebrewWord(Some(b));
    Regroup(wa, wo, wb, " ");
    TrimWords(wa, wo, wb);
  }

  /** The spoken pieces of an expression of three space-separated pieces. */
  lemma SpeakPieces(x: string, op: string, y: string)
    requires ' ' !in x && ' ' !in op && ' ' !in y
    ensures QuestionSpeech(x + " " + op + " " + y) == Trim(TokenSpeech(x) + TokenSpeech(op) + TokenSpeech(y))
  {
    SplitBinary(x, op, y);
    SpeechOfThree(x, op, y);
  }

  /** Trimming the three words with a final space gives them back. */
  lemma TrimWords(wa: string, wo: string, wb: string)
    requires wa != [] && wb != [] && IsTrimmed(wa) && IsTrimmed(wb)
    ensures Trim((wa + " " + wo + wb) + " ") == wa + " " + wo + wb
  {
    var spoken := wa + " " + wo + wb;
    assert IsBlank(" ");
    TrimBlankSuffix(spoken, " ");
    assert spoken[0] == wa[0];
    assert spoken[|spoken| - 1] == wb[|wb| - 1];
    TrimmedIsFixed(spoken);
  }

  lemma Regroup(p: string, q: string, r: string, sp: string)
    ensures (p + sp) + q + (r + sp) == (p + sp + q + r) + sp
  {
  }

  /** A piece that is neither a sign nor a number, such as "=", is spoken as "NaN". */
  lemma NonNumericPieceIsNaN(part: string)
    requires IsTrimmed(part) && part != [] && !IsDigit(part[0]) && part[0] != '+' && part[0] != '-'
    requires !IsOperator(part)
    ensures TokenSpeech(part) == "NaN "
  {
    TrimmedIsFixed(part);
    ParseIntNoNumeral(part);
  }

  /** The opening of formatErrorsForSpeech: "the correct answers are: ". */
  const CorrectAnswersIntro: string := "התשובות הנכונות הן: "

  /** One question of the error report: the question, "equals", the answer. */
  function ErrorItem(q: Question): string {
    QuestionSpeech(q.expression) + " שווה " + NumberToHebrewWord(Some(q.correctAnswer))
  }

  /** The error items separated by ", ". */
  function JoinItems(errors: seq<Question>): string
    requires |errors| > 0
  {
    if |errors| == 1 then ErrorItem(errors[0])
    else JoinItems(errors[..|errors| - 1]) + ", " + ErrorItem(errors[|errors| - 1])
  }

  /** What formatErrorsForSpeech says: nothing for no errors, otherwise the
      opening followed by the items separated by ", ". */
  function ErrorsSpeech(errors: seq<Question>): string {
    if errors == [] then "" else CorrectAnswersIntro + JoinItems(errors)
  }

  /** formatErrorsForSpeech */
  method FormatErrorsForSpeech(errors: seq<Question>) returns (speech: string)
    ensures speech == ErrorsSpeech(errors)
  {
    if |errors| == 0 {
      return "";
    }
    speech := CorrectAnswersIntro;
    for index := 0 to |errors|
      invariant index == 0 ==> speech == CorrectAnswersIntro
      invariant 0 < index < |errors| ==> speech == CorrectAnswersIntro + JoinItems(errors[..index]) + ", "
      invariant 0 < index == |errors| ==> speech == CorrectAnswersIntro + JoinItems(errors[..index])
    {
      var questionSpeech := FormatQuestionForSpeech(errors[index]);
      var answerSpeech := NumberToHebrewWord(Some(errors[index].correctAnswer));
      speech := speech + (questionSpeech + " שווה " + answerSpeech);
      JoinItemsStep(errors, index);
      if 0 < index {
        ConcatAssoc(CorrectAnswersIntro, JoinItems(errors[..index]), ", ", ErrorItem(errors[index]));
      }
      if index < |errors| - 1 {
        speech := speech + ", ";
      }
    }
    assert errors[..|errors|] == errors;
  }

  /** The items of the first `n + 1` errors: the first item alone, or the
      items of the first `n` errors, ", " and the next item. */
  lemma JoinItemsStep(errors: seq<Question>, n: nat)
    requires n < |errors|
    ensures n == 0 ==> JoinItems(errors[..n + 1]) == ErrorItem(errors[n])
    ensures 0 < n ==> JoinItems(errors[..n + 1]) == JoinItems(errors[..n]) + ", " + ErrorItem(errors[n])
  {
    assert errors[..n + 1][..n] == errors[..n];
  }

  /** Reporting one more error adds ", " and that error's item to the report. */
  lemma ErrorsSpeechAppend(errors: seq<Question>, q: Question)
    requires errors != []
    ensures ErrorsSpeech(errors + [q]) == ErrorsSpeech(errors) + ", " + ErrorItem(q)
  {
    JoinItemsAppend(errors, q);
    ConcatAssoc(CorrectAnswersIntro, JoinItems(errors), ", ", ErrorItem(q));
  }

  lemma JoinItemsAppend(errors: seq<Question>, q: Question)
    requires errors != []
    ensures JoinItems(errors + [q]) == JoinItems(errors) + ", " + ErrorItem(q)
  {
    assert (errors + [q])[..|errors|] == errors;
  }

  lemma ConcatAssoc(a: string, b: string, c: string, d: string)
    ensures a + (b + c + d) == a + b + c + d
  {
  }
}
