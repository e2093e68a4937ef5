/** The records of the tutor and its number lexicon, as declared in the
    application's type definitions. */
module Types {
  import opened Wrappers


  /** A difficulty level: the literal type `1 | 2`. */
  type Label = l: int | l == 1 || l == 2 witness 1

  /** A drill question. `userAnswer` and `isCorrect` are the optional fields,
      absent until the question is answered. */
  datatype Question = Question(
    id: string,
    expression: string,
    correctAnswer: int,
    userAnswer: Option<int>,
    isCorrect: Option<bool>)

  /** One run through the five questions of a label. */
  datatype Session = Session(
    currentLabel: Label,
    questions: seq<Question>,
    currentQuestionIndex: nat,
    errors: seq<Question>,
    isComplete: bool)

  /** The HEBREW_NUMBERS record as its entries in declaration order, which is
      the order in which Object.entries lists keys that are not array indices.
      The pointed form of four (with a patah under the alef) is a key of its own. */
  const HebrewNumbers: seq<(string, int)> := [
    ("אפס", 0), ("אחד", 1), ("שניים", 2), ("שתיים", 2),
    ("שלוש", 3), ("שלושה", 3), ("אַרבע", 4), ("ארבע", 4),
    ("ארבעה", 4), ("חמש", 5), ("חמישה", 5), ("שש", 6),
    ("שישה", 6), ("שבע", 7), ("שבעה", 7), ("שמונה", 8),
    ("תשע", 9), ("תשעה", 9), ("עשר", 10), ("עשרה", 10),
    ("אחת עשרה", 11), ("אחד עשר", 11), ("שתיים עשרה", 12), ("שניים עשר", 12),
    ("שלוש עשרה", 13), ("שלושה עשר", 13), ("ארבע עשרה", 14), ("ארבעה עשר", 14),
    ("חמש עשרה", 15), ("חמישה עשר", 15), ("שש עשרה", 16), ("שישה עשר", 16),
    ("שבע עשרה", 17), ("שבעה עשר", 17), ("שמונה עשרה", 18), ("שמונה עשר", 18),
    ("תשע עשרה", 19), ("תשעה עשר", 19), ("עשרים", 20)
  ]

  /** A character of the Hebrew block: the letters, points and marks. */
  predicate IsHebrew(c: char) {
    '\U{0590}' <= c <= '\U{05FF}'
  }

  /** Hebrew characters and spaces, beginning and ending with a Hebrew character. */
  predicate IsHebrewWord(w: string) {
    && |w| > 0
    && IsHebrew(w[0]) && IsHebrew(w[|w| - 1])
    && forall i :: 0 <= i < |w| ==> IsHebrew(w[i]) || w[i] == ' '
  }

  // The keys are pairwise distinct. Each row is checked on its own, with the
  // row number fixed by a case split; these lemmas share the rows out.

  lemma KeyRowsDistinctFrom0(i: nat)
    requires i < 3
    ensures forall j :: i < j < |HebrewNumbers| ==> HebrewNumbers[i].0 != HebrewNumbers[j].0
  {
    match i
    case 0 =>
    case 1 =>
    case 2 =>
  }

  lemma KeyRowsDistinctFrom3(i: nat)
    requires 3 <= i < 6
    ensures forall j :: i < j < |HebrewNumbers| ==> HebrewNumbers[i].0 != HebrewNumbers[j].0
  {
    match i
    case 3 =>
    case 4 =>
    case 5 =>
  }

  lemma KeyRowsDistinctFrom6(i: nat)
    requires 6 <= i < 9
    ensures forall j :: i < j < |HebrewNumbers| ==> HebrewNumbers[i].0 != HebrewNumbers[j].0
  {
    match i
    case 6 =>
    case 7 =>
    case 8 =>
  }

  lemma KeyRowsDistinctFrom9(i: nat)
    requires 9 <= i < 13
    ensures forall j :: i < j < |HebrewNumbers| ==> HebrewNumbers[i].0 != HebrewNumbers[j].0
  {
    match i
    case 9 =>
    case 10 =>
    case 11 =>
    case 12 =>
  }

  lemma KeyRowsDistinctFrom13(i: nat)
    requires 13 <= i < 17
    ensures forall j :: i < j < |HebrewNumbers| ==> HebrewNumbers[i].0 != HebrewNumbers[j].0
  {
    match i
    case 13 =>
    case 14 =>
    case 15 =>
    case 16 =>
  }

  lemma KeyRowsDistinctFrom17(i: nat)
    requires 17 <= i < 21
    ensures forall j :: i < j < |HebrewNumbers| ==> HebrewNumbers[i].0 != HebrewNumbers[j].0
  {
    match i
    case 17 =>
    case 18 =>
    case 19 =>
    case 20 =>
  }

  lemma KeyRowsDistinctFrom21(i: nat)
    requires 21 <= i < 26
    ensures forall j :: i < j < |HebrewNumbers| ==> HebrewNumbers[i].0 != HebrewNumbers[j].0
  {
    match i
    case 21 =>
    case 22 =>
    case 23 =>
    case 24 =>
    case 25 =>
  }

  lemma KeyRowsDistinctFrom26(i: nat)
    requires 26 <= i < 39
    ensures forall j :: i < j < |HebrewNumbers| ==> HebrewNumbers[i].0 != HebrewNumbers[j].0
  {
    match i
    case 26 =>
    case 27 =>
    case 28 =>
    case 29 =>
    case 30 =>
    case 31 =>
    case 32 =>
    case 33 =>
    case 34 =>
    case 35 =>
    case 36 =>
    case 37 =>
    case 38 =>
  }

  /** No two entries of HEBREW_NUMBERS share a key, so the ordered entries and
      the record describe the same lookup table. */
  lemma KeysDistinct()
    ensures forall i, j :: 0 <= i < j < |HebrewNumbers| ==> HebrewNumbers[i].0 != HebrewNumbers[j].0
  {
    forall i | 0 <= i < |HebrewNumbers|
      ensures forall j :: i < j < |HebrewNumbers| ==> HebrewNumbers[i].0 != HebrewNumbers[j].0
    {
      if i < 3 { KeyRowsDistinctFrom0(i); }
      else if i < 6 { KeyRowsDistinctFrom3(i); }
      else if i < 9 { KeyRowsDistinctFrom6(i); }
      else if i < 13 { KeyRowsDistinctFrom9(i); }
      else if i < 17 { KeyRowsDistinctFrom13(i); }
      else if i < 21 { KeyRowsDistinctFrom17(i); }
      else if i < 26 { KeyRowsDistinctFrom21(i); }
      else { KeyRowsDistinctFrom26(i); }
    }
  }

  lemma KeysAreHebrewWordsFrom0()
    ensures forall i :: 0 <= i < 10 ==> IsHebrewWord(HebrewNumbers[i].0)
  {
  }

  lemma KeysAreHebrewWordsFrom10()
    ensures forall i :: 10 <= i < 20 ==> IsHebrewWord(HebrewNumbers[i].0)
  {
  }

  lemma KeysAreHebrewWordsFrom20()
    ensures forall i :: 20 <= i < 30 ==> IsHebrewWord(HebrewNumbers[i].0)
  {
  }

  lemma KeysAreHebrewWordsFrom30()
    ensures forall i :: 30 <= i < 39 ==> IsHebrewWord(HebrewNumbers[i].0)
  {
  }

  /** Every key is written in Hebrew characters, with spaces only inside. */
  lemma KeysAreHebrewWords()
    ensures forall i :: 0 <= i < |HebrewNumbers| ==> IsHebrewWord(HebrewNumbers[i].0)
  {
    KeysAreHebrewWordsFrom0();
    KeysAreHebrewWordsFrom10();
    KeysAreHebrewWordsFrom20();
    KeysAreHebrewWordsFrom30();
  }

  /** Every value of the lexicon is a number from 0 to 20. */
  lemma ValuesInRange()
    ensures forall i :: 0 <= i < |HebrewNumbers| ==> 0 <= HebrewNumbers[i].1 <= 20
  {
  }

  /** Zero comes first; the pointed and the two plain spellings of four are
      three different keys with the same value. */
  lemma LexiconLayout()
    ensures HebrewNumbers[0] == ("אפס", 0)
    ensures HebrewNumbers[6] == ("אַרבע", 4) && HebrewNumbers[7] == ("ארבע", 4) && HebrewNumbers[8] == ("ארבעה", 4)
    ensures "אַרבע" != "ארבע" && "אַרבע" != "ארבעה" && "ארבע" != "ארבעה"
  {
  }
}
