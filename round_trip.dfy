/** Saying a number and hearing it back: the words the serialiser speaks for
    0 to 20 are keys of the lexicon the parser reads, each worth its number. */
module RoundTrip {
  import opened Wrappers
  import opened JsText
  import opened Types
  import opened QuestionService
  import opened VoiceService

  /** The row of HEBREW_NUMBERS holding the word numberToHebrewWord speaks for
      each number from 0 to 20. */
  const WordRows: seq<nat> :=
    [0, 1, 2, 4, 6, 9, 11, 13, 15, 16, 18, 20, 22, 24, 26, 28, 30, 32, 34, 36, 38]

  lemma WordRowsMatchBelow11()
    ensures forall n :: 0 <= n < 11 ==>
      WordRows[n] < |HebrewNumbers| && HebrewNumbers[WordRows[n]] == (NumberWords[n], n)
  {
  }

  lemma WordRowsMatchFrom11()
    ensures forall n :: 11 <= n < 21 ==>
      WordRows[n] < |HebrewNumbers| && HebrewNumbers[WordRows[n]] == (NumberWords[n], n)
  {
  }

  /** The spoken word of every number from 0 to 20 is a key of the lexicon
      whose value is that number. */
  lemma SpokenWordsAreKeys()
    ensures |WordRows| == 21
    ensures forall n :: 0 <= n <= 20 ==>
      WordRows[n] < |HebrewNumbers| &&
      HebrewNumbers[WordRows[n]] == (NumberToHebrewWord(Some(n)), n)
  {
    WordRowsMatchBelow11();
    WordRowsMatchFrom11();
  }

  /** Every number from 0 to 20 has a key. */
  lemma EveryNumberHasKey(n: int)
    requires 0 <= n <= 20
    ensures exists i :: 0 <= i < |HebrewNumbers| && HebrewNumbers[i].1 == n
  {
    SpokenWordsAreKeys();
    assert HebrewNumbers[WordRows[n]].1 == n;
  }

  /** A negative number is spoken as a minus sign and digits, which hold no
      Hebrew and no capital. */
  lemma DecimalIsClean(i: int)
    ensures HasNoCapitals(IntToString(i)) && HasNoHebrew(IntToString(i))
  {
    var s := IntToString(i);
    if i < 0 {
      var ds := NatToString(-i);
      assert s == "-" + ds;
      assert forall k :: 1 <= k < |s| ==> s[k] == ds[k - 1];
    }
  }

  lemma WordIsHeard(n: int)
    requires 0 <= n <= 20
    ensures ParseHebrewNumber(NumberToHebrewWord(Some(n))) == Some(n)
  {
    var w := NumberToHebrewWord(Some(n));
    SpokenWordsAreKeys();
    assert [] + w + [] == w;
    if n == 0 {
      ZeroWordIsRead([], []);
    } else {
      HebrewKeyIsRead(WordRows[n], [], []);
    }
  }

  lemma DecimalIsRefused(n: int)
    requires !(0 <= n <= 20)
    ensures ParseHebrewNumber(NumberToHebrewWord(Some(n))) == None
  {
    DecimalIsClean(n);
    NonHebrewIsNumeral(NumberToHebrewWord(Some(n)));
  }

  /** What the tutor says for a number, the listener reads back as that number
      when it is from 0 to 20, and as nothing otherwise: a larger or negative
      number is spoken in decimal, which parseHebrewNumber refuses. */
  lemma SpokenNumberIsHeard(n: int)
    ensures ParseHebrewNumber(NumberToHebrewWord(Some(n))) == if 0 <= n <= 20 then Some(n) else None
    ensures ParseSpokenNumber(NumberToHebrewWord(Some(n))) == if 0 <= n <= 20 then Some(n) else None
  {
    TrimmedIsHeardAlike(NumberToHebrewWord(Some(n)));
    if 0 <= n <= 20 {
      WordIsHeard(n);
    } else {
      DecimalIsRefused(n);
    }
  }
}
