/**
 The pronunciation resources both scripts consult, as oracles, and the pieces of
 phonetic logic the two analysers share.

 - CMUdict (`nltk.corpus.cmudict.dict()`) maps a word to its pronunciations, each a
   list of ARPAbet phones; vowels carry a trailing stress digit. A failed load is `None`.
 - `syllables.estimate` is an arbitrary function that may raise; `syllablesInstalled`
   says whether the `syllables` package can be imported at all.
 - `pronouncing` is `None` when it cannot be imported; otherwise it supplies
   `phones_for_word` and a `rhyming_part` that may raise.
 - The espeak phonemizer is an arbitrary function that may raise.
 */
module Phonetics {
  import opened Outcome
  import opened Text

  /** CMUdict never stores an empty phone ... */
  type Phone = p: string | |p| > 0 witness "AH0"
  type Pronunciation = seq<Phone>
  /** ... nor a word without a pronunciation. */
  type Entry = e: seq<Pronunciation> | |e| > 0 witness [[]]
  type CmuDict = map<string, Entry>

  datatype Pronouncer = Pronouncer(
    phonesForWord: string -> seq<string>,
    rhymingPart: string -> Result<string>)

  /** Everything outside the scripts that the analysers consult. */
  datatype Oracles = Oracles(
    dict: Option<CmuDict>,
    estimate: string -> Result<int>,
    syllablesInstalled: bool,
    pronouncing: Option<Pronouncer>,
    phonemize: string -> Result<string>)

  predicate IsBinary(s: string) {
    forall i | 0 <= i < |s| :: s[i] == '0' || s[i] == '1'
  }

  /** The letters counted as vowels by both scripts' fallbacks: "aeiouy". */
  predicate IsVowel(c: char) {
    c == 'a' || c == 'e' || c == 'i' || c == 'o' || c == 'u' || c == 'y'
  }

  /** The last character of a phone: its stress digit when the phone is a vowel. */
  function FinalChar(ph: Phone): char {
    ph[|ph| - 1]
  }

  /** The stress digits of a pronunciation: the last character of every phone ending in a digit. */
  function StressDigits(p: Pronunciation): (d: seq<char>)
    ensures |d| <= |p|
    ensures forall i | 0 <= i < |d| :: IsDigit(d[i])
    ensures (forall i | 0 <= i < |p| :: IsDigit(FinalChar(p[i]))) ==>
      |d| == |p| && forall i | 0 <= i < |p| :: d[i] == FinalChar(p[i])
    ensures (forall i | 0 <= i < |p| :: !IsDigit(FinalChar(p[i]))) ==> d == []
  {
    if p == [] then []
    else
      var c := FinalChar(p[0]);
      var rest := StressDigits(p[1..]);
      assert forall i | 1 <= i < |p| :: p[i] == p[1..][i - 1];
      (if IsDigit(c) then [c] else []) + rest
  }

  /** Phones are read in order: the digits of a concatenation are the digits of each part. */
  lemma {:induction false} StressDigitsAppend(p: Pronunciation, q: Pronunciation)
    ensures StressDigits(p + q) == StressDigits(p) + StressDigits(q)
  {
    if p == [] {
      assert p + q == q;
    } else {
      assert (p + q)[0] == p[0];
      assert (p + q)[1..] == p[1..] + q;
      StressDigitsAppend(p[1..], q);
    }
  }

  /** One phone contributes its final character exactly when that is a digit. */
  lemma StressDigitsOfPhone(ph: Phone)
    ensures StressDigits([ph]) == if IsDigit(FinalChar(ph)) then [FinalChar(ph)] else []
  {
    assert [ph][1..] == [];
  }

  /** `"0" * k`, which is empty for every k <= 0. */
  function Zeros(k: int): (z: string)
    ensures |z| == Max(0, k)
    ensures forall i | 0 <= i < |z| :: z[i] == '0'
    decreases k
  {
    if k <= 0 then [] else ['0'] + Zeros(k - 1)
  }

  /** `"1" + "0" * (syll - 1)`: the first-syllable-stressed guess for a word the dictionary lacks. */
  function FirstSyllableStress(syll: int): (r: string)
    ensures |r| == Max(1, syll)
    ensures r[0] == '1'
    ensures forall i | 1 <= i < |r| :: r[i] == '0'
    ensures IsBinary(r)
  {
    ['1'] + Zeros(syll - 1)
  }

  /** The last word of a line, lower-cased and cut down to its letters; `None` when the line has no word. */
  function LastWord(text: string): (w: Option<string>)
    ensures w.None? <==> AllSpace(text)
    ensures w.Some? ==> forall i | 0 <= i < |w.value| :: IsLetter(w.value[i]) && !IsUpper(w.value[i])
  {
    var words := Words(Lower(text));
    if words == [] then
      assert forall i | 0 <= i < |text| :: IsSpace(Lower(text)[i]);
      None
    else
      var last := words[|words| - 1];
      var w := Letters(last);
      assert forall i | 0 <= i < |w| :: w[i] in last;
      assert forall i | 0 <= i < |w| :: w[i] in Lower(text);
      Some(w)
  }

  /** Only the last word decides `LastWord`: whatever precedes it is ignored. */
  lemma LastWordIgnoresPrefix(a: string, b: string)
    requires !AllSpace(b)
    ensures LastWord(a + [' '] + b) == LastWord(b)
  {
    WordsOfLowerJoin(a, b);
    NonBlankHasWords(b);
    var ws := Words(Lower(b));
    var all := Words(Lower(a + [' '] + b));
    assert all[|all| - 1] == ws[|ws| - 1];
    LastWordByWords(b);
    LastWordByWords(a + [' '] + b);
  }

  /** A text with a non-space character has at least one word. */
  lemma NonBlankHasWords(text: string)
    requires !AllSpace(text)
    ensures Words(Lower(text)) != []
  {
    assert LastWord(text).Some?;
  }

  /** `LastWord` is the letters of the last lower-cased word. */
  lemma LastWordByWords(text: string)
    requires Words(Lower(text)) != []
    ensures var ws := Words(Lower(text)); LastWord(text) == Some(Letters(ws[|ws| - 1]))
  {
  }

  /** A line ending in a single token: the last word is that token's letters, lower-cased. */
  lemma LastWordOfLine(a: string, w: string)
    requires w != [] && NoSpace(w)
    ensures LastWord(a + [' '] + w) == Some(Letters(Lower(w)))
  {
    assert NoSpace(Lower(w));
    WordsOfToken(Lower(w));
    LastWordIgnoresPrefix(a, w);
  }

  /**
   The rhyme sound of one word: the rhyming part of its first pronunciation, or the whole
   phone string when that part is empty; `None` when the word has no pronunciation, the
   library is missing or `rhyming_part` raises.
   */
  function RhymeOfWord(word: string, pr: Option<Pronouncer>): (r: Option<string>)
    ensures r.Some? <==>
      pr.Some? && pr.value.phonesForWord(word) != []
      && pr.value.rhymingPart(pr.value.phonesForWord(word)[0]).Ok?
    ensures r.Some? ==>
      var phone := pr.value.phonesForWord(word)[0];
      var part := pr.value.rhymingPart(phone).value;
      r.value == (if part != [] then part else phone)
  {
    match pr
    case None => None
    case Some(p) =>
      var phones := p.phonesForWord(word);
      if phones == [] then None
      else
        match p.rhymingPart(phones[0])
        case Raised => None
        case Ok(part) => Some(if part != [] then part else phones[0])
  }
}
