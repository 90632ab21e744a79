/**
 The per-line analyser of the import script (scripts/import_fragments.py):
 syllable count, binary stress pattern and end-rhyme sound of one line.

 In this version an exception from `syllables.estimate` is caught while counting
 syllables but NOT while building the stress pattern, so the stress pattern and the
 line analysis are `Result`s.
 */
module ImportProsody {
  import opened Outcome
  import opened Text
  import opened Phonetics

  datatype LineProsody = LineProsody(
    line: nat,
    text: string,
    syllables: int,
    stress: string,
    endRhyme: Option<string>)

  /** A dictionary that failed to load is replaced by an empty one. */
  function Dict(o: Oracles): CmuDict {
    if o.dict.Some? then o.dict.value else map[]
  }

  /** After a failed load every token is unknown, so its stress comes from the estimator. */
  lemma FailedLoadUsesEstimates(w: string, o: Oracles)
    requires o.dict.None? && w != []
    ensures WordStress(w, o).Raised? <==> o.estimate(w).Raised?
    ensures WordStress(w, o).Ok? ==> WordStress(w, o).value == FirstSyllableStress(o.estimate(w).value)
  {
  }

  /** Number of letters of `w` among "aeiouy". */
  function VowelLetters(w: string): (n: nat)
    ensures n <= |w|
    ensures n == 0 <==> forall i | 0 <= i < |w| :: !IsVowel(w[i])
  {
    if w == [] then 0 else (if IsVowel(w[0]) then 1 else 0) + VowelLetters(w[1..])
  }

  /** Vowel letters are counted one by one: the count of a concatenation is the sum. */
  lemma {:induction false} VowelLettersAppend(a: string, b: string)
    ensures VowelLetters(a + b) == VowelLetters(a) + VowelLetters(b)
  {
    if a == [] {
      assert a + b == b;
    } else {
      assert (a + b)[0] == a[0];
      assert (a + b)[1..] == a[1..] + b;
      VowelLettersAppend(a[1..], b);
    }
  }

  /** One character counts 1 exactly when it is a vowel letter. */
  lemma VowelLettersOfChar(c: char)
    ensures VowelLetters([c]) == if IsVowel(c) then 1 else 0
  {
    assert [c][1..] == [];
  }

  /** Syllables contributed by one token once cut down to its letters. */
  function WordSyllables(w: string, estimate: string -> Result<int>): (n: int)
    ensures w == [] ==> n == 0
    ensures w != [] && estimate(w).Ok? ==> n == estimate(w).value
    ensures w != [] && estimate(w).Raised? ==> n == Max(1, VowelLetters(Lower(w)))
  {
    if w == [] then 0
    else
      match estimate(w)
      case Ok(n) => n
      case Raised => Max(1, VowelLetters(Lower(w)))
  }

  /** Sum of the contributions of the tokens, before the floor of 1 is applied. */
  function TotalSyllables(words: seq<string>, estimate: string -> Result<int>): (t: int)
    ensures words == [] ==> t == 0
    ensures |words| == 1 ==> t == WordSyllables(Letters(words[0]), estimate)
  {
    if words == [] then 0
    else WordSyllables(Letters(words[0]), estimate) + TotalSyllables(words[1..], estimate)
  }

  /** `count_syllables`. */
  function CountSyllables(text: string, estimate: string -> Result<int>): (n: int)
    ensures n >= 1
    ensures n == Max(1, TotalSyllables(Words(Lower(text)), estimate))
  {
    Max(1, TotalSyllables(Words(Lower(text)), estimate))
  }

  /** The stress symbols of a known word: '1' for primary stress, '0' for everything else. */
  function PhonesStress(p: Pronunciation): (r: string)
    ensures |r| == |StressDigits(p)|
    ensures forall i | 0 <= i < |r| :: (r[i] == '1' <==> StressDigits(p)[i] == '1')
    ensures IsBinary(r)
  {
    if p == [] then []
    else
      var c := p[0][|p[0]| - 1];
      (if IsDigit(c) then (if c == '1' then "1" else "0") else []) + PhonesStress(p[1..])
  }

  /** Stress contributed by one token once cut down to its letters. */
  function WordStress(w: string, o: Oracles): (r: Result<string>)
    ensures w == [] ==> r == Ok([])
    ensures w != [] && w in Dict(o) ==>
      var digits := StressDigits(Dict(o)[w][0]);
      && r.Ok? && |r.value| == |digits|
      && forall i | 0 <= i < |digits| :: (r.value[i] == '1' <==> digits[i] == '1')
    ensures w != [] && w !in Dict(o) ==>
      && (r.Raised? <==> o.estimate(w).Raised?)
      && (r.Ok? ==> |r.value| == Max(1, o.estimate(w).value) && r.value[0] == '1'
                    && forall i | 1 <= i < |r.value| :: r.value[i] == '0')
    ensures r.Ok? ==> IsBinary(r.value)
  {
    if w == [] then Ok([])
    else if w in Dict(o) then Ok(PhonesStress(Dict(o)[w][0]))
    else
      match o.estimate(w)
      case Raised => Raised
      case Ok(syll) => Ok(FirstSyllableStress(syll))
  }

  /** Some token is unknown to the dictionary and `syllables.estimate` raises on it. */
  predicate SomeWordRaises(words: seq<string>, o: Oracles) {
    exists i | 0 <= i < |words| :: WordStress(Letters(words[i]), o).Raised?
  }

  function StressOfWords(words: seq<string>, o: Oracles): (r: Result<string>)
    ensures r.Raised? <==> SomeWordRaises(words, o)
    ensures r.Ok? ==> IsBinary(r.value)
  {
    if words == [] then Ok([])
    else
      match WordStress(Letters(words[0]), o)
      case Raised => Raised
      case Ok(head) =>
        match StressOfWords(words[1..], o)
        case Raised =>
          var i :| 0 <= i < |words[1..]| && WordStress(Letters(words[1..][i]), o).Raised?;
          assert WordStress(Letters(words[i + 1]), o).Raised?;
          Raised
        case Ok(tail) =>
          assert forall i | 1 <= i < |words| :: words[i] == words[1..][i - 1];
          Ok(head + tail)
  }

  /** Word stresses are produced in order: the stress of a concatenation joins the parts'. */
  lemma {:induction false} StressOfWordsAppend(u: seq<string>, v: seq<string>, o: Oracles)
    ensures StressOfWords(u + v, o).Raised? <==> StressOfWords(u, o).Raised? || StressOfWords(v, o).Raised?
    ensures StressOfWords(u + v, o).Ok? ==>
      StressOfWords(u + v, o).value == StressOfWords(u, o).value + StressOfWords(v, o).value
  {
    if u == [] {
      assert u + v == v;
    } else {
      assert (u + v)[0] == u[0];
      assert (u + v)[1..] == u[1..] + v;
      StressOfWordsAppend(u[1..], v, o);
      var rest := StressOfWords(u[1..], o);
      if rest.Ok? && StressOfWords(v, o).Ok? && WordStress(Letters(u[0]), o).Ok? {
        var head := WordStress(Letters(u[0]), o).value;
        assert head + (rest.value + StressOfWords(v, o).value) == (head + rest.value) + StressOfWords(v, o).value;
      }
    }
  }

  /** A single word's stress is what the word contributes. */
  lemma StressOfWord(w: string, o: Oracles)
    ensures StressOfWords([w], o) == WordStress(Letters(w), o)
  {
    assert [w][1..] == [];
    var r := WordStress(Letters(w), o);
    if r.Ok? {
      assert r.value + [] == r.value;
    }
  }

  /** Words made only of non-letters contribute no stress. */
  lemma {:induction false} NoLetterWordsNoStress(words: seq<string>, s: string, o: Oracles)
    requires forall i | 0 <= i < |s| :: !IsLetter(s[i])
    requires forall i, j | 0 <= i < |words| && 0 <= j < |words[i]| :: words[i][j] in s
    ensures StressOfWords(words, o) == Ok([])
  {
    if words != [] {
      assert forall j | 0 <= j < |words[0]| :: !IsLetter(words[0][j]);
      assert Letters(words[0]) == [];
      assert WordStress(Letters(words[0]), o) == Ok("");
      NoLetterWordsNoStress(words[1..], s, o);
      assert "" + "" == "";
    }
  }

  /** A line without letters yields no stress symbol. */
  lemma LetterFreeLineNoStress(text: string, o: Oracles)
    ensures (forall i | 0 <= i < |text| :: !IsLetter(text[i])) ==> StressOfWords(Words(Lower(text)), o) == Ok([])
  {
    if forall i | 0 <= i < |text| :: !IsLetter(text[i]) {
      assert forall i | 0 <= i < |Lower(text)| :: !IsLetter(Lower(text)[i]);
      NoLetterWordsNoStress(Words(Lower(text)), Lower(text), o);
    }
  }

  /** The words of the line yield at least one stress symbol, so the default "1" is not used. */
  predicate Stressed(text: string, o: Oracles) {
    var p := StressOfWords(Words(Lower(text)), o);
    p.Ok? && p.value != []
  }

  /** `get_stress_pattern`: the concatenated word stresses, or "1" when they are empty. */
  function StressPattern(text: string, o: Oracles): (r: Result<string>)
    ensures r.Ok? ==> |r.value| >= 1 && IsBinary(r.value)
    ensures r.Raised? <==> SomeWordRaises(Words(Lower(text)), o)
    ensures Stressed(text, o) ==> r == StressOfWords(Words(Lower(text)), o)
    ensures r.Ok? && !Stressed(text, o) ==> r.value == "1"
    ensures (forall i | 0 <= i < |text| :: !IsLetter(text[i])) ==> r == Ok("1")
  {
    LetterFreeLineNoStress(text, o);
    match StressOfWords(Words(Lower(text)), o)
    case Raised => Raised
    case Ok(p) => Ok(if p == [] then "1" else p)
  }

  /** `get_end_rhyme_sound`. */
  function EndRhyme(text: string, o: Oracles): (r: Option<string>)
    ensures AllSpace(text) ==> r.None?
    ensures o.pronouncing.None? ==> r.None?
    ensures !AllSpace(text) ==> r == RhymeOfWord(LastWord(text).value, o.pronouncing)
  {
    match LastWord(text)
    case None => None
    case Some(w) => RhymeOfWord(w, o.pronouncing)
  }

  /** `analyze_line_prosody`, with the line number that `analyze_fragment_prosody` adds. */
  function AnalyzeLine(text: string, number: nat, o: Oracles): (r: Result<LineProsody>)
    ensures r.Raised? <==> StressPattern(text, o).Raised?
    ensures r.Ok? ==>
      && r.value.line == number && r.value.text == text
      && r.value.syllables == CountSyllables(text, o.estimate) && r.value.syllables >= 1
      && r.value.stress == StressPattern(text, o).value
      && |r.value.stress| >= 1 && IsBinary(r.value.stress)
      && r.value.endRhyme == EndRhyme(text, o)
  {
    match StressPattern(text, o)
    case Raised => Raised
    case Ok(stress) =>
      Ok(LineProsody(number, text, CountSyllables(text, o.estimate), stress, EndRhyme(text, o)))
  }

  // ---------------------------------------------------------------------------
  // Properties relating several calls
  // ---------------------------------------------------------------------------

  /** A text without a single letter (empty, blank, punctuation only) still counts one syllable. */
  lemma {:induction false} NoLettersOneSyllable(text: string, estimate: string -> Result<int>)
    requires forall i | 0 <= i < |text| :: !IsLetter(text[i])
    ensures CountSyllables(text, estimate) == 1
  {
    var words := Words(Lower(text));
    assert forall i | 0 <= i < |Lower(text)| :: !IsLetter(Lower(text)[i]);
    NoLetterWordsAddNothing(words, Lower(text), estimate);
  }

  lemma {:induction false} NoLetterWordsAddNothing(words: seq<string>, s: string, estimate: string -> Result<int>)
    requires forall i | 0 <= i < |s| :: !IsLetter(s[i])
    requires forall i, j | 0 <= i < |words| && 0 <= j < |words[i]| :: words[i][j] in s
    ensures TotalSyllables(words, estimate) == 0
  {
    if words != [] {
      assert forall j | 0 <= j < |words[0]| :: !IsLetter(words[0][j]);
      assert Letters(words[0]) == [];
      NoLetterWordsAddNothing(words[1..], s, estimate);
    }
  }

  /** The syllable total is additive over space-separated parts of a line. */
  lemma {:induction false} SyllablesAdditive(a: string, b: string, estimate: string -> Result<int>)
    ensures TotalSyllables(Words(Lower(a + [' '] + b)), estimate)
         == TotalSyllables(Words(Lower(a)), estimate) + TotalSyllables(Words(Lower(b)), estimate)
  {
    WordsOfLowerJoin(a, b);
    TotalAppend(Words(Lower(a)), Words(Lower(b)), estimate);
  }

  lemma {:induction false} TotalAppend(u: seq<string>, v: seq<string>, estimate: string -> Result<int>)
    ensures TotalSyllables(u + v, estimate) == TotalSyllables(u, estimate) + TotalSyllables(v, estimate)
  {
    if u == [] {
      assert u + v == v;
    } else {
      assert (u + v)[0] == u[0];
      assert (u + v)[1..] == u[1..] + v;
      TotalAppend(u[1..], v, estimate);
    }
  }

  /** With estimates that are never negative, adding words in front never lowers the count. */
  lemma PrefixNeverLowersCount(a: string, b: string, estimate: string -> Result<int>)
    requires forall w :: estimate(w).Ok? ==> estimate(w).value >= 0
    ensures CountSyllables(a + [' '] + b, estimate) >= CountSyllables(b, estimate)
  {
    SyllablesAdditive(a, b, estimate);
    TotalNonNegative(Words(Lower(a)), estimate);
  }

  lemma {:induction false} TotalNonNegative(words: seq<string>, estimate: string -> Result<int>)
    requires forall w :: estimate(w).Ok? ==> estimate(w).value >= 0
    ensures TotalSyllables(words, estimate) >= 0
  {
    if words != [] {
      TotalNonNegative(words[1..], estimate);
    }
  }

  /**
   The stress pattern of two space-separated parts: it raises exactly when one part's
   does, and it is the two patterns joined when both parts yield stress symbols.
   */
  lemma StressPatternOfJoin(a: string, b: string, o: Oracles)
    ensures StressPattern(a + [' '] + b, o).Raised? <==> StressPattern(a, o).Raised? || StressPattern(b, o).Raised?
    ensures Stressed(a, o) && Stressed(b, o) ==>
      StressPattern(a + [' '] + b, o) == Ok(StressPattern(a, o).value + StressPattern(b, o).value)
  {
    var u, v := Words(Lower(a)), Words(Lower(b));
    WordsOfLowerJoin(a, b);
    StressOfWordsAppend(u, v, o);
  }

  /** Words without stress in front leave the stress of the rest as it is. */
  lemma SilentPrefix(u: seq<string>, v: seq<string>, o: Oracles)
    requires StressOfWords(u, o) == Ok([])
    ensures StressOfWords(u + v, o) == StressOfWords(v, o)
  {
    StressOfWordsAppend(u, v, o);
    var r := StressOfWords(u + v, o);
    var t := StressOfWords(v, o);
    if r.Ok? {
      assert t.Ok?;
      assert [] + t.value == t.value;
      assert r == Ok(t.value);
    }
  }

  /** A part without letters in front of a line leaves its stress pattern as it is. */
  lemma LetterFreePrefixKeepsPattern(a: string, b: string, o: Oracles)
    requires forall i | 0 <= i < |a| :: !IsLetter(a[i])
    ensures StressPattern(a + [' '] + b, o) == StressPattern(b, o)
  {
    var u, v := Words(Lower(a)), Words(Lower(b));
    WordsOfLowerJoin(a, b);
    LetterFreeLineNoStress(a, o);
    SilentPrefix(u, v, o);
  }

  /** The end rhyme is decided by the last word alone. */
  lemma EndRhymeOfLastWord(a: string, b: string, o: Oracles)
    requires !AllSpace(b)
    ensures EndRhyme(a + [' '] + b, o) == EndRhyme(b, o)
  {
    LastWordIgnoresPrefix(a, b);
  }
}
