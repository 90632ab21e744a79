/**
 The per-line analyser of the re-analysis script (scripts/reanalyze_prosody.py).
 It differs from the import script's copy: the syllable count has no floor on its
 primary path, secondary stress counts as stressed, punctuation-only tokens still
 contribute, and the end rhyme comes in an American and a British form.
 */
module Reanalyze {
  import opened Outcome
  import opened Text
  import opened Phonetics
  import British

  datatype DualRhyme = DualRhyme(us: Option<string>, gb: Option<string>)

  datatype LineAnalysis = LineAnalysis(
    text: string,
    syllables: int,
    stress: string,
    endRhymeUs: Option<string>,
    endRhymeGb: Option<string>,
    endRhyme: Option<string>)

  // ---------------------------------------------------------------------------
  // Syllables
  // ---------------------------------------------------------------------------

  /** The `syllables` estimator, or `None` when the package cannot be imported. */
  function SyllablesLibrary(o: Oracles): Option<string -> Result<int>> {
    if o.syllablesInstalled then Some(o.estimate) else None
  }

  predicate AnyEstimateRaises(words: seq<string>, estimate: string -> Result<int>) {
    exists i | 0 <= i < |words| :: estimate(words[i]).Raised?
  }

  /** `sum(syllables.estimate(word) for word in words)`, which raises as soon as one estimate does. */
  function SumEstimates(words: seq<string>, estimate: string -> Result<int>): (r: Result<int>)
    ensures r.Raised? <==> AnyEstimateRaises(words, estimate)
    ensures words == [] ==> r == Ok(0)
  {
    if words == [] then Ok(0)
    else
      match estimate(words[0])
      case Raised => Raised
      case Ok(n) =>
        match SumEstimates(words[1..], estimate)
        case Raised =>
          var i :| 0 <= i < |words[1..]| && estimate(words[1..][i]).Raised?;
          assert estimate(words[i + 1]).Raised?;
          Raised
        case Ok(m) =>
          assert forall i | 1 <= i < |words| :: words[i] == words[1..][i - 1];
          Ok(n + m)
  }

  /** The sum runs over the tokens in order: it raises when either part does and otherwise adds. */
  lemma {:induction false} SumEstimatesAppend(u: seq<string>, v: seq<string>, estimate: string -> Result<int>)
    ensures SumEstimates(u + v, estimate).Raised? <==>
      SumEstimates(u, estimate).Raised? || SumEstimates(v, estimate).Raised?
    ensures SumEstimates(u + v, estimate).Ok? ==>
      SumEstimates(u + v, estimate).value == SumEstimates(u, estimate).value + SumEstimates(v, estimate).value
  {
    if u == [] {
      assert u + v == v;
    } else {
      assert (u + v)[0] == u[0];
      assert (u + v)[1..] == u[1..] + v;
      SumEstimatesAppend(u[1..], v, estimate);
    }
  }

  /** One token sums to its own estimate. */
  lemma SumEstimatesOfWord(w: string, estimate: string -> Result<int>)
    ensures SumEstimates([w], estimate) == estimate(w)
  {
    assert [w][1..] == [];
  }

  /** The fallback's loop: one count per vowel that does not follow a vowel. */
  function ScanVowelRuns(s: string, previousWasVowel: bool): nat {
    if s == [] then 0
    else
      (if IsVowel(s[0]) && !previousWasVowel then 1 else 0) + ScanVowelRuns(s[1..], IsVowel(s[0]))
  }

  /** Position `i` begins a maximal run of vowels. */
  predicate StartsRun(s: string, i: nat)
    requires i < |s|
  {
    IsVowel(s[i]) && (i == 0 || !IsVowel(s[i - 1]))
  }

  /** Number of runs of vowels beginning before position `n`. */
  function RunStarts(s: string, n: nat): nat
    requires n <= |s|
  {
    if n == 0 then 0 else RunStarts(s, n - 1) + (if StartsRun(s, n - 1) then 1 else 0)
  }

  /** The scan counts exactly the maximal runs of vowels. */
  lemma ScanCountsRuns(s: string)
    ensures ScanVowelRuns(s, false) == RunStarts(s, |s|)
  {
    ScanFrom(s, 0);
    assert s[0..] == s;
  }

  lemma {:induction false} ScanFrom(s: string, k: nat)
    requires k <= |s|
    ensures ScanVowelRuns(s[k..], k > 0 && IsVowel(s[k - 1])) + RunStarts(s, k) == RunStarts(s, |s|)
    decreases |s| - k
  {
    if k < |s| {
      ScanFrom(s, k + 1);
      assert s[k..][1..] == s[k + 1..];
      assert s[k..][0] == s[k];
    }
  }

  /** Text added at the end never lowers the number of vowel runs. */
  lemma {:induction false} RunsNeverDecrease(a: string, b: string)
    ensures RunStarts(a + b, |a + b|) >= RunStarts(a, |a|)
  {
    RunStartsPrefix(a, b, |a|);
    RunStartsMonotone(a + b, |a|, |a + b|);
  }

  lemma {:induction false} RunStartsPrefix(a: string, b: string, n: nat)
    requires n <= |a|
    ensures RunStarts(a + b, n) == RunStarts(a, n)
  {
    if n > 0 {
      RunStartsPrefix(a, b, n - 1);
      assert (a + b)[n - 1] == a[n - 1];
      assert n >= 2 ==> (a + b)[n - 2] == a[n - 2];
    }
  }

  lemma {:induction false} RunStartsMonotone(s: string, m: nat, n: nat)
    requires m <= n <= |s|
    ensures RunStarts(s, m) <= RunStarts(s, n)
    decreases n
  {
    if m < n {
      RunStartsMonotone(s, m, n - 1);
    }
  }

  lemma {:induction false} RunStartsNoVowels(s: string, n: nat)
    requires n <= |s|
    requires forall i | 0 <= i < |s| :: !IsVowel(s[i])
    ensures RunStarts(s, n) == 0
  {
    if n > 0 {
      RunStartsNoVowels(s, n - 1);
    }
  }

  /** Whitespace holds no vowel, so a blank text has no vowel run. */
  lemma BlankHasNoRuns(text: string)
    ensures AllSpace(text) ==> RunStarts(Lower(text), |text|) == 0
  {
    if AllSpace(text) {
      RunStartsNoVowels(Lower(text), |text|);
    }
  }

  /** The fallback estimate: the maximal vowel runs of the lower-cased text, at least 1. */
  function FallbackSyllables(text: string): (n: int)
    ensures n >= 1
    ensures n == Max(1, RunStarts(Lower(text), |text|))
    ensures AllSpace(text) ==> n == 1
  {
    BlankHasNoRuns(text);
    ScanCountsRuns(Lower(text));
    Max(1, ScanVowelRuns(Lower(text), false))
  }

  /**
   `count_syllables`: the sum of per-token estimates, or the fallback if any estimate
   raises. The package is imported inside the `try`, so a missing package takes the
   fallback as well, even for a line without tokens.
   */
  function CountSyllables(text: string, lib: Option<string -> Result<int>>): (n: int)
    ensures lib.None? ==> n == FallbackSyllables(text)
    ensures lib.Some? && AllSpace(text) ==> n == 0
    ensures lib.Some? && AnyEstimateRaises(Words(text), lib.value) ==> n == FallbackSyllables(text)
    ensures lib.Some? && !AnyEstimateRaises(Words(text), lib.value) ==> n == SumEstimates(Words(text), lib.value).value
  {
    match lib
    case None => FallbackSyllables(text)
    case Some(estimate) =>
      match SumEstimates(Words(text), estimate)
      case Ok(n) => n
      case Raised => FallbackSyllables(text)
  }

  /** A single token is estimated on its own, or falls back to its vowel runs. */
  lemma SingleTokenSyllables(w: string, estimate: string -> Result<int>)
    requires w != [] && NoSpace(w)
    ensures estimate(w).Ok? ==> CountSyllables(w, Some(estimate)) == estimate(w).value
    ensures estimate(w).Raised? ==> CountSyllables(w, Some(estimate)) == FallbackSyllables(w)
  {
    WordsOfToken(w);
    SumEstimatesOfWord(w, estimate);
  }

  /** With every estimate succeeding, the count of two space-separated parts is the sum of their counts. */
  lemma SyllablesAdditive(a: string, b: string, estimate: string -> Result<int>)
    requires !AnyEstimateRaises(Words(a + [' '] + b), estimate)
    ensures CountSyllables(a + [' '] + b, Some(estimate))
         == CountSyllables(a, Some(estimate)) + CountSyllables(b, Some(estimate))
  {
    WordsAppendSpace(a, ' ', b);
    SumEstimatesAppend(Words(a), Words(b), estimate);
  }

  // ---------------------------------------------------------------------------
  // Stress
  // ---------------------------------------------------------------------------

  /** The stress symbols of a known word: '1' for primary and secondary stress, '0' for none. */
  function PhonesStress(p: Pronunciation): (r: string)
    ensures |r| == |StressDigits(p)|
    ensures forall i | 0 <= i < |r| ::
      (r[i] == '1' <==> StressDigits(p)[i] == '1' || StressDigits(p)[i] == '2')
    ensures IsBinary(r)
  {
    if p == [] then []
    else
      var c := p[0][|p[0]| - 1];
      (if IsDigit(c) then (if c == '1' || c == '2' then "1" else "0") else []) + PhonesStress(p[1..])
  }

  /** Stress contributed by one lower-cased token. Its letters are looked up even when there are none. */
  function WordStress(token: string, d: CmuDict, lib: Option<string -> Result<int>>): (r: string)
    ensures |r| >= 1 || Letters(token) in d
    ensures IsBinary(r)
    ensures Letters(token) in d ==>
      var digits := StressDigits(d[Letters(token)][0]);
      && |r| == |digits|
      && forall i | 0 <= i < |r| :: (r[i] == '1' <==> digits[i] == '1' || digits[i] == '2')
    ensures Letters(token) !in d ==>
      && |r| == Max(1, CountSyllables(Letters(token), lib))
      && r[0] == '1'
      && forall i | 1 <= i < |r| :: r[i] == '0'
  {
    var clean := Letters(token);
    if clean in d then PhonesStress(d[clean][0])
    else FirstSyllableStress(CountSyllables(clean, lib))
  }

  function StressOfWords(words: seq<string>, d: CmuDict, lib: Option<string -> Result<int>>): (r: string)
    ensures IsBinary(r)
  {
    if words == [] then [] else WordStress(words[0], d, lib) + StressOfWords(words[1..], d, lib)
  }

  /** Word stresses are produced in order: the stress of a concatenation joins the parts'. */
  lemma {:induction false} StressOfWordsAppend(u: seq<string>, v: seq<string>, d: CmuDict, lib: Option<string -> Result<int>>)
    ensures StressOfWords(u + v, d, lib) == StressOfWords(u, d, lib) + StressOfWords(v, d, lib)
  {
    if u == [] {
      assert u + v == v;
    } else {
      assert (u + v)[0] == u[0];
      assert (u + v)[1..] == u[1..] + v;
      StressOfWordsAppend(u[1..], v, d, lib);
    }
  }

  /** A single token's stress is what the token contributes. */
  lemma StressOfWord(w: string, d: CmuDict, lib: Option<string -> Result<int>>)
    ensures StressOfWords([w], d, lib) == WordStress(w, d, lib)
  {
    assert [w][1..] == [];
  }

  /** The dictionary is loaded and the words of the line yield at least one stress symbol. */
  predicate Stressed(text: string, o: Oracles) {
    o.dict.Some? && StressOfWords(Words(Lower(text)), o.dict.value, SyllablesLibrary(o)) != []
  }

  /** `get_stress_pattern`. */
  function StressPattern(text: string, o: Oracles): (r: string)
    ensures |r| >= 1 && IsBinary(r)
    ensures o.dict.None? ==> r == "1"
    ensures AllSpace(text) ==> r == "1"
    ensures Stressed(text, o) ==> r == StressOfWords(Words(Lower(text)), o.dict.value, SyllablesLibrary(o))
    ensures !Stressed(text, o) ==> r == "1"
  {
    match o.dict
    case None => "1"
    case Some(d) =>
      var p := StressOfWords(Words(Lower(text)), d, SyllablesLibrary(o));
      if p == [] then "1" else p
  }

  /** The stress pattern of two space-separated parts, both yielding stress symbols, is the two patterns joined. */
  lemma StressPatternOfJoin(a: string, b: string, o: Oracles)
    requires Stressed(a, o) && Stressed(b, o)
    ensures StressPattern(a + [' '] + b, o) == StressPattern(a, o) + StressPattern(b, o)
  {
    WordsOfLowerJoin(a, b);
    StressOfWordsAppend(Words(Lower(a)), Words(Lower(b)), o.dict.value, SyllablesLibrary(o));
  }

  /** A token without letters, such as a lone dash, still adds exactly one stressed syllable. */
  lemma PunctuationTokenAddsOne(token: string, d: CmuDict, lib: Option<string -> Result<int>>)
    requires forall i | 0 <= i < |token| :: !IsLetter(token[i])
    requires [] !in d
    ensures WordStress(token, d, lib) == "1"
  {
    assert Letters(token) == [];
    assert AllSpace([]);
  }

  // ---------------------------------------------------------------------------
  // Rhymes
  // ---------------------------------------------------------------------------

  /**
   The British rhyme sound: the phonemizer's answer when it is non-empty and differs
   from the word; the converted American sound only when the phonemizer raises. The
   conversion runs the rewrite table in sequence, as the script does (see module British).
   */
  function GbRhyme(word: string, us: Option<string>, phonemize: string -> Result<string>): (gb: Option<string>)
    ensures phonemize(word).Ok? ==>
      (gb.Some? <==> phonemize(word).value != [] && phonemize(word).value != word)
    ensures phonemize(word).Ok? && gb.Some? ==> gb.value == phonemize(word).value
    ensures phonemize(word).Raised? ==> (gb.Some? <==> us.Some? && us.value != [])
    ensures phonemize(word).Raised? && gb.Some? ==>
      gb.value == British.ToBritish(us.value) && 'R' !in gb.value
  {
    match phonemize(word)
    case Ok(b) => if b != [] && b != word then Some(b) else None
    case Raised =>
      if us.Some? && us.value != [] then
        British.NoRhoticR(us.value);
        Some(British.ToBritish(us.value))
      else None
  }

  /** `GbRhyme` with the rewrite table read as a lookup: each American phone converted once. */
  function GbRhymeIntended(word: string, us: Option<string>, phonemize: string -> Result<string>): (gb: Option<string>)
    ensures phonemize(word).Ok? ==> gb == GbRhyme(word, us, phonemize)
    ensures phonemize(word).Raised? ==> (gb.Some? <==> us.Some? && us.value != [])
    ensures phonemize(word).Raised? && gb.Some? ==>
      gb.value == British.ToBritishIntended(us.value) && 'R' !in gb.value
  {
    match phonemize(word)
    case Ok(b) => if b != [] && b != word then Some(b) else None
    case Raised =>
      if us.Some? && us.value != [] then
        British.IntendedDropsR(us.value);
        Some(British.ToBritishIntended(us.value))
      else None
  }

  /** With a raising phonemizer, the script stores a TRAP-vowel rhyme with the THOUGHT vowel, not the BATH vowel. */
  lemma TrapRhymeAsWritten(word: string, phonemize: string -> Result<string>)
    requires phonemize(word).Raised?
    ensures GbRhyme(word, Some("AE1"), phonemize) == Some("AO1")
    ensures GbRhymeIntended(word, Some("AE1"), phonemize) == Some("AA1")
  {
    British.TrapVowelEndsInThought();
    British.TrapVowelBecomesBath();
  }

  /** `get_dual_rhyme_sounds`. */
  function DualRhymes(text: string, o: Oracles): (r: DualRhyme)
    ensures AllSpace(text) ==> r.us.None? && r.gb.None?
    ensures !AllSpace(text) ==>
      var w := LastWord(text).value;
      r.us == RhymeOfWord(w, o.pronouncing) && r.gb == GbRhyme(w, r.us, o.phonemize)
  {
    match LastWord(text)
    case None => DualRhyme(None, None)
    case Some(w) =>
      var us := RhymeOfWord(w, o.pronouncing);
      DualRhyme(us, GbRhyme(w, us, o.phonemize))
  }

  /** A phonemizer that echoes the word leaves the British sound unset even when the American one is known. */
  lemma EchoedWordLeavesGbUnset(text: string, o: Oracles)
    requires !AllSpace(text)
    requires o.phonemize(LastWord(text).value) == Ok(LastWord(text).value)
    ensures DualRhymes(text, o).gb.None?
  {
  }

  /** `analyze_line_prosody`. */
  function AnalyzeLine(text: string, o: Oracles): (r: LineAnalysis)
    ensures r.text == text
    ensures r.syllables == CountSyllables(text, SyllablesLibrary(o))
    ensures r.stress == StressPattern(text, o) && |r.stress| >= 1 && IsBinary(r.stress)
    ensures r.endRhymeUs == DualRhymes(text, o).us && r.endRhymeGb == DualRhymes(text, o).gb
    ensures r.endRhyme == r.endRhymeGb
    ensures AllSpace(text) ==>
      && r.syllables == (if o.syllablesInstalled then 0 else 1)
      && r.endRhymeUs.None? && r.endRhymeGb.None?
  {
    var rhymes := DualRhymes(text, o);
    LineAnalysis(text, CountSyllables(text, SyllablesLibrary(o)), StressPattern(text, o), rhymes.us, rhymes.gb, rhymes.gb)
  }
}
