/** The number parser of the voice service: what a recognised utterance is
    read as. Speaking and listening themselves are browser services and are
    not part of this module. */
module VoiceService {
  import opened Wrappers
  import opened JsText
  import opened Types

  /** The utterance lower-cased, then trimmed. */
  function Clean(speech: string): (c: string)
    ensures IsTrimmed(c)
  {
    Trim(ToLower(speech))
  }

  /** The keys of a lexicon are pairwise different. */
  predicate DistinctKeys(lex: seq<(string, int)>) {
    forall i, j :: 0 <= i < j < |lex| ==> lex[i].0 != lex[j].0
  }

  /** The position of the entry whose key is `c`: the record lookup of the
      cleaned text, for a lexicon whose keys are different. */
  function KeyIndex(c: string, lex: seq<(string, int)>): (r: Option<nat>)
    ensures r.Some? ==> r.value < |lex| && lex[r.value].0 == c
    ensures r.Some? ==> forall j :: 0 <= j < r.value ==> lex[j].0 != c
    ensures r.None? <==> forall j :: 0 <= j < |lex| ==> lex[j].0 != c
  {
    if lex == [] then None
    else if lex[0].0 == c then Some(0)
    else
      match KeyIndex(c, lex[1..])
      case None => None
      case Some(k) => Some(k + 1)
  }

  /** Either text contains the other: the test of the partial-match loop. */
  predicate Related(c: string, key: string) {
    Includes(c, key) || Includes(key, c)
  }

  /** The position of the first entry, in declaration order, whose key and the
      text contain one another. */
  function MatchIndex(c: string, lex: seq<(string, int)>): (r: Option<nat>)
    ensures r.Some? ==> r.value < |lex| && Related(c, lex[r.value].0)
    ensures r.Some? ==> forall j :: 0 <= j < r.value ==> !Related(c, lex[j].0)
    ensures r.None? <==> forall j :: 0 <= j < |lex| ==> !Related(c, lex[j].0)
  {
    if lex == [] then None
    else if Related(c, lex[0].0) then Some(0)
    else
      match MatchIndex(c, lex[1..])
      case None => None
      case Some(k) => Some(k + 1)
  }

  /** parseHebrewNumber over a given lexicon. The exact lookup counts only when
      its value is truthy, so a key worth 0 falls through to the later steps;
      a numeral counts only from 0 to 20; otherwise the first related key wins. */
  function ParseNumber(speech: string, lex: seq<(string, int)>): (r: Option<int>)
    ensures (forall i :: 0 <= i < |lex| ==> 0 <= lex[i].1 <= 20) ==>
      (r.Some? ==> 0 <= r.value <= 20)
  {
    var cleaned := Clean(speech);
    var exact := KeyIndex(cleaned, lex);
    if exact.Some? && lex[exact.value].1 != 0 then Some(lex[exact.value].1)
    else
      var numeric := ParseInt(cleaned);
      if numeric.Some? && 0 <= numeric.value <= 20 then numeric
      else
        match MatchIndex(cleaned, lex)
        case None => None
        case Some(k) => Some(lex[k].1)
  }

  /** parseHebrewNumber: the number heard, from 0 to 20, or none. */
  function ParseHebrewNumber(speech: string): (r: Option<int>)
    ensures r.Some? ==> 0 <= r.value <= 20
  {
    ValuesInRange();
    ParseNumber(speech, HebrewNumbers)
  }

  /** The parser as evidently intended: an utterance that cleans to nothing,
      such as the empty result of a listen that heard nothing, is no answer;
      any other is read as parseHebrewNumber reads it. */
  function ParseSpokenNumber(speech: string): (r: Option<int>)
    ensures r.Some? ==> 0 <= r.value <= 20
  {
    if Clean(speech) == [] then None else ParseHebrewNumber(speech)
  }

  // ---------------------------------------------------------------------------
  // Cleaning

  lemma WhiteHasNoCapitals(w: string)
    requires IsBlank(w)
    ensures HasNoCapitals(w)
  {
  }

  lemma {:induction false} LowerTwice(s: string)
    ensures ToLower(ToLower(s)) == ToLower(s)
  {
    var l := ToLower(s);
    assert forall i :: 0 <= i < |s| ==> ToLower(l)[i] == l[i];
  }

  /** White space around an utterance does not change what it is cleaned to. */
  lemma CleanIgnoresPadding(w1: string, s: string, w2: string)
    requires IsBlank(w1) && IsBlank(w2)
    ensures Clean(w1 + s + w2) == Clean(s)
  {
    LowerConcat(w1 + s, w2);
    LowerConcat(w1, s);
    WhiteHasNoCapitals(w1);
    WhiteHasNoCapitals(w2);
    LowerKeeps(w1);
    LowerKeeps(w2);
    TrimPadding(w1, ToLower(s), w2);
  }

  /** Text that is trimmed and has no capitals is its own cleaned form. */
  lemma CleanKeepsClean(c: string)
    requires IsTrimmed(c) && HasNoCapitals(c)
    ensures Clean(c) == c
  {
    LowerKeeps(c);
    TrimmedIsFixed(c);
  }

  /** Upper- or lower-case, an utterance is read the same. */
  lemma ParseIgnoresCase(speech: string, lex: seq<(string, int)>)
    ensures ParseNumber(ToLower(speech), lex) == ParseNumber(speech, lex)
  {
    LowerTwice(speech);
  }

  /** White space around an utterance does not change what it is read as. */
  lemma ParseIgnoresPadding(w1: string, speech: string, w2: string, lex: seq<(string, int)>)
    requires IsBlank(w1) && IsBlank(w2)
    ensures ParseNumber(w1 + speech + w2, lex) == ParseNumber(speech, lex)
  {
    CleanIgnoresPadding(w1, speech, w2);
  }

  // ---------------------------------------------------------------------------
  // The three steps

  /** In a lexicon with different keys, an entry's key finds that entry. */
  lemma KeyIndexOfKey(lex: seq<(string, int)>, i: nat)
    requires DistinctKeys(lex) && i < |lex|
    ensures KeyIndex(lex[i].0, lex) == Some(i)
  {
    var r := KeyIndex(lex[i].0, lex);
    assert r.Some?;
    assert r.value == i by {
      assert lex[r.value].0 == lex[i].0;
    }
  }

  /** A key worth a truthy number is read as that number, whatever white space
      surrounds it. */
  lemma ParseExactKey(lex: seq<(string, int)>, i: nat, w1: string, w2: string)
    requires DistinctKeys(lex) && i < |lex|
    requires IsTrimmed(lex[i].0) && HasNoCapitals(lex[i].0)
    requires lex[i].1 != 0
    requires IsBlank(w1) && IsBlank(w2)
    ensures ParseNumber(w1 + lex[i].0 + w2, lex) == Some(lex[i].1)
  {
    ParseIgnoresPadding(w1, lex[i].0, w2, lex);
    CleanKeepsClean(lex[i].0);
    KeyIndexOfKey(lex, i);
  }

  /** Text that matches no key exactly, or only a key worth 0, and that
      parseInt reads as a number from 0 to 20, is read as that number. */
  lemma ParseNumeral(speech: string, lex: seq<(string, int)>)
    requires var c := Clean(speech);
      forall i :: 0 <= i < |lex| && lex[i].0 == c ==> lex[i].1 == 0
    requires var n := ParseInt(Clean(speech)); n.Some? && 0 <= n.value <= 20
    ensures ParseNumber(speech, lex) == ParseInt(Clean(speech))
  {
  }

  /** Text that is no key worth a truthy number and no numeral from 0 to 20 is
      read as the value of the first related key, or as nothing if none is. */
  lemma ParsePartial(speech: string, lex: seq<(string, int)>)
    requires var c := Clean(speech);
      forall i :: 0 <= i < |lex| && lex[i].0 == c ==> lex[i].1 == 0
    requires var n := ParseInt(Clean(speech)); !(n.Some? && 0 <= n.value <= 20)
    ensures var m := MatchIndex(Clean(speech), lex);
      ParseNumber(speech, lex) == if m.None? then None else Some(lex[m.value].1)
  {
  }

  // ---------------------------------------------------------------------------
  // Text without Hebrew

  predicate HasNoHebrew(s: string) {
    forall i :: 0 <= i < |s| ==> !IsHebrew(s[i])
  }

  /** Text with no Hebrew character, and that is not all spaces, neither
      contains a Hebrew key nor is contained in one. */
  lemma NoHebrewUnrelated(c: string, key: string)
    requires HasNoHebrew(c) && c != [] && c[0] != ' '
    requires IsHebrewWord(key)
    ensures !Related(c, key)
  {
    assert key[0] !in c;
    MissingNotIncluded(c, key);
    assert c[0] !in key;
    MissingNotIncluded(key, c);
  }

  /** Cleaned text with no Hebrew character in it is read by parseInt alone:
      as the number it starts with when that is from 0 to 20, else as nothing. */
  lemma ParseNonHebrew(c: string, lex: seq<(string, int)>)
    requires IsTrimmed(c) && HasNoCapitals(c) && HasNoHebrew(c) && c != []
    requires forall i :: 0 <= i < |lex| ==> IsHebrewWord(lex[i].0)
    ensures var n := ParseInt(c);
      ParseNumber(c, lex) == if n.Some? && 0 <= n.value <= 20 then n else None
  {
    CleanKeepsClean(c);
    assert !IsWhite(c[0]);
    forall i | 0 <= i < |lex|
      ensures lex[i].0 != c && !Related(c, lex[i].0)
    {
      NoHebrewUnrelated(c, lex[i].0);
      assert IsHebrew(lex[i].0[0]);
    }
  }

  /** Blank text matches no key exactly and no numeral, and every key contains
      the empty text, so it is read as the first entry's value. */
  lemma ParseBlank(speech: string, lex: seq<(string, int)>)
    requires IsBlank(speech) && lex != []
    requires forall i :: 0 <= i < |lex| ==> lex[i].0 != []
    ensures ParseNumber(speech, lex) == Some(lex[0].1)
  {
    CleanIgnoresPadding(speech, [], []);
    assert speech + [] + [] == speech;
    CleanKeepsClean([]);
    IncludesEmpty(lex[0].0);
    assert Related([], lex[0].0);
  }

  // ---------------------------------------------------------------------------
  // The tutor's lexicon

  lemma KeysAreClean()
    ensures forall i :: 0 <= i < |HebrewNumbers| ==>
      IsTrimmed(HebrewNumbers[i].0) && HasNoCapitals(HebrewNumbers[i].0) && HebrewNumbers[i].0 != []
  {
    KeysAreHebrewWords();
    forall i | 0 <= i < |HebrewNumbers|
      ensures IsTrimmed(HebrewNumbers[i].0) && HasNoCapitals(HebrewNumbers[i].0)
    {
      var w := HebrewNumbers[i].0;
      assert IsHebrew(w[0]) && IsHebrew(w[|w| - 1]);
    }
  }

  /** Every key of HEBREW_NUMBERS except zero's is read as its own value, with
      or without white space around it. */
  lemma HebrewKeyIsRead(i: nat, w1: string, w2: string)
    requires i < |HebrewNumbers| && HebrewNumbers[i].1 != 0
    requires IsBlank(w1) && IsBlank(w2)
    ensures ParseHebrewNumber(w1 + HebrewNumbers[i].0 + w2) == Some(HebrewNumbers[i].1)
  {
    KeysDistinct();
    KeysAreClean();
    ParseExactKey(HebrewNumbers, i, w1, w2);
  }

  /** Silence, or only white space, is read as zero: it is contained in the
      first key, zero's. */
  lemma BlankIsZero(speech: string)
    requires IsBlank(speech)
    ensures ParseHebrewNumber(speech) == Some(0)
  {
    KeysAreClean();
    ParseBlank(speech, HebrewNumbers);
  }

  /** The corrected parser reads silence, or only white space, as no answer. */
  lemma BlankIsNotHeard(speech: string)
    requires IsBlank(speech)
    ensures ParseSpokenNumber(speech) == None
  {
    CleanIgnoresPadding(speech, [], []);
    assert speech + [] + [] == speech;
    CleanKeepsClean([]);
  }

  lemma LowerKeepsWhite(c: char)
    ensures IsWhite(LowerChar(c)) == IsWhite(c)
  {
  }

  /** Lower-casing keeps a non-empty trimmed text non-empty and trimmed, so it
      cleans to something. */
  lemma TrimmedCleansToSomething(c: string)
    requires c != [] && IsTrimmed(c)
    ensures Clean(c) != []
  {
    var l := ToLower(c);
    LowerKeepsWhite(c[0]);
    LowerKeepsWhite(c[|c| - 1]);
    assert IsTrimmed(l);
    TrimmedIsFixed(l);
  }

  /** On every non-empty trimmed text (every key, every numeral, every word
      the tutor speaks) the corrected parser reads what parseHebrewNumber reads. */
  lemma TrimmedIsHeardAlike(c: string)
    requires c != [] && IsTrimmed(c)
    ensures ParseSpokenNumber(c) == ParseHebrewNumber(c)
  {
    TrimmedCleansToSomething(c);
  }

  /** Text without Hebrew is read by parseInt alone. */
  lemma NonHebrewIsNumeral(c: string)
    requires IsTrimmed(c) && HasNoCapitals(c) && HasNoHebrew(c) && c != []
    ensures var n := ParseInt(c);
      ParseHebrewNumber(c) == if n.Some? && 0 <= n.value <= 20 then n else None
  {
    KeysAreHebrewWords();
    ParseNonHebrew(c, HebrewNumbers);
  }

  /** A numeral from 0 to 20 is read as its value. */
  lemma SmallNumeralIsRead(ds: string)
    requires ds != [] && IsDigits(ds) && DigitsValue(ds) <= 20
    ensures ParseHebrewNumber(ds) == Some(DigitsValue(ds))
  {
    DigitsAreClean(ds);
    ParseIntDigits(ds, []);
    assert ds + [] == ds;
    NonHebrewIsNumeral(ds);
  }

  /** A numeral past 20 is no key and no allowed number, so it is read as nothing. */
  lemma LargeNumeralIsRejected(ds: string)
    requires ds != [] && IsDigits(ds) && DigitsValue(ds) > 20
    ensures ParseHebrewNumber(ds) == None
  {
    DigitsAreClean(ds);
    ParseIntDigits(ds, []);
    assert ds + [] == ds;
    NonHebrewIsNumeral(ds);
  }

  lemma DigitsAreClean(ds: string)
    requires ds != [] && IsDigits(ds)
    ensures IsTrimmed(ds) && HasNoCapitals(ds) && HasNoHebrew(ds)
  {
    assert IsDigit(ds[0]) && IsDigit(ds[|ds| - 1]);
  }

  /** Text without Hebrew that does not start with a digit or a sign, such as
      an English word, is read as nothing. */
  lemma ForeignWordIsRejected(c: string)
    requires IsTrimmed(c) && HasNoCapitals(c) && HasNoHebrew(c) && c != []
    requires !IsDigit(c[0]) && c[0] != '+' && c[0] != '-'
    ensures ParseHebrewNumber(c) == None
  {
    ParseIntNoNumeral(c);
    NonHebrewIsNumeral(c);
  }

  /** Zero's word is found by the exact lookup, but its value 0 is falsy, so
      the lookup is passed over; the word is no numeral, and the partial
      matches begin with zero's own entry, so it is read as zero after all. */
  lemma ZeroWordIsRead(w1: string, w2: string)
    requires IsBlank(w1) && IsBlank(w2)
    ensures KeyIndex(HebrewNumbers[0].0, HebrewNumbers) == Some(0) && HebrewNumbers[0].1 == 0
    ensures ParseInt(HebrewNumbers[0].0) == None
    ensures ParseHebrewNumber(w1 + HebrewNumbers[0].0 + w2) == Some(0)
  {
    var zero := HebrewNumbers[0].0;
    KeysAreClean();
    ParseIgnoresPadding(w1, zero, w2, HebrewNumbers);
    CleanKeepsClean(zero);
    ParseIntNoNumeral(zero);
    IncludesSelf(zero);
    assert Related(zero, HebrewNumbers[0].0);
  }
}
