/**
 The two copies of the line analyser disagree on purpose-built inputs. Each lemma
 states one divergence between the import script's version and the re-analysis
 script's version, so that a reader can see which numbers a re-analysis changes.
 */
module Versions {
  import opened Outcome
  import opened Text
  import opened Phonetics
  import ImportProsody
  import Reanalyze

  /** A vowel with secondary stress is unstressed on import and stressed on re-analysis. */
  lemma SecondaryStressDiffers(p: Pronunciation, i: nat)
    requires i < |StressDigits(p)| && StressDigits(p)[i] == '2'
    ensures ImportProsody.PhonesStress(p)[i] == '0'
    ensures Reanalyze.PhonesStress(p)[i] == '1'
  {
  }

  /** With the `syllables` package installed, a blank line counts one syllable on import and none on re-analysis. */
  lemma BlankLineSyllablesDiffer(text: string, o: Oracles)
    requires AllSpace(text) && o.syllablesInstalled
    ensures ImportProsody.CountSyllables(text, o.estimate) == 1
    ensures Reanalyze.CountSyllables(text, Reanalyze.SyllablesLibrary(o)) == 0
  {
    assert forall i | 0 <= i < |text| :: !IsLetter(text[i]) by {
      forall i | 0 <= i < |text|
        ensures !IsLetter(text[i])
      {
        assert IsSpace(text[i]);
      }
    }
    ImportProsody.NoLettersOneSyllable(text, o.estimate);
  }

  /** A token without letters adds nothing to the imported stress pattern and one '1' to the re-analysed one. */
  lemma PunctuationTokenDiffers(token: string, o: Oracles)
    requires forall i | 0 <= i < |token| :: !IsLetter(token[i])
    requires o.dict.Some? && [] !in o.dict.value
    ensures ImportProsody.WordStress(Letters(token), o) == Ok([])
    ensures Reanalyze.WordStress(token, o.dict.value, Reanalyze.SyllablesLibrary(o)) == "1"
  {
    Reanalyze.PunctuationTokenAddsOne(token, o.dict.value, Reanalyze.SyllablesLibrary(o));
  }

  /** The dictionary entry of "into": secondary stress on the first vowel, primary on the second. */
  const IntoEntry: Pronunciation := ["IH2", "N", "T", "UW1"]

  /** A line of one word is stressed like that word, on import ... */
  lemma {:induction false} ImportOneWordLine(text: string, w: string, o: Oracles)
    requires Words(Lower(text)) == [w]
    requires ImportProsody.WordStress(Letters(w), o).Ok?
    requires ImportProsody.WordStress(Letters(w), o).value != []
    ensures ImportProsody.StressPattern(text, o) == ImportProsody.WordStress(Letters(w), o)
  {
    var words := Words(Lower(text));
    assert words[1..] == [];
    assert ImportProsody.StressOfWords(words[1..], o) == Ok([]);
    var head := ImportProsody.WordStress(Letters(words[0]), o).value;
    assert head + [] == head;
    assert ImportProsody.StressOfWords(words, o) == Ok(head);
  }

  /** ... and on re-analysis. */
  lemma {:induction false} ReanalysisOneWordLine(text: string, w: string, o: Oracles)
    requires o.dict.Some?
    requires Words(Lower(text)) == [w]
    requires Reanalyze.WordStress(w, o.dict.value, Reanalyze.SyllablesLibrary(o)) != []
    ensures Reanalyze.StressPattern(text, o) == Reanalyze.WordStress(w, o.dict.value, Reanalyze.SyllablesLibrary(o))
  {
    var d := o.dict.value;
    var words := Words(Lower(text));
    assert words[1..] == [];
    assert Reanalyze.StressOfWords(words[1..], d, Reanalyze.SyllablesLibrary(o)) == [];
    var head := Reanalyze.WordStress(words[0], d, Reanalyze.SyllablesLibrary(o));
    assert head + [] == head;
    assert Reanalyze.StressOfWords(words, d, Reanalyze.SyllablesLibrary(o)) == head;
  }

  /** The entry's digits are '2' then '1', so the two copies stress it "01" and "11". */
  lemma IntoEntryStress()
    ensures ImportProsody.PhonesStress(IntoEntry) == "01"
    ensures Reanalyze.PhonesStress(IntoEntry) == "11"
  {
    var p := IntoEntry;
    assert p[1..][1..][1..] == ["UW1"] && ["UW1"][1..] == [];
    assert StressDigits(p) == ['2', '1'];
    var imp, re := ImportProsody.PhonesStress(p), Reanalyze.PhonesStress(p);
    assert |imp| == 2 && imp[0] != '1' && imp[1] == '1';
    assert |re| == 2 && re[0] == '1' && re[1] == '1';
  }

  /** The line "into" is the one token "into" ... */
  lemma IntoWords()
    ensures Words(Lower("into")) == ["into"]
  {
    assert Lower("into") == "into";
    WordsOfToken("into");
  }

  /** ... which is all letters. */
  lemma IntoLetters()
    ensures Letters("into") == "into"
  {
  }

  /** With that entry, the token "into" is stressed "01" on import and "11" on re-analysis. */
  lemma IntoWordStress(o: Oracles)
    requires o.dict == Some(map["into" := [IntoEntry]])
    ensures ImportProsody.WordStress("into", o) == Ok("01")
    ensures Reanalyze.WordStress("into", o.dict.value, Reanalyze.SyllablesLibrary(o)) == "11"
  {
    IntoEntryStress();
    assert Letters("into") == "into";
    assert "into" in ImportProsody.Dict(o) && ImportProsody.Dict(o)["into"][0] == IntoEntry;
  }

  /**
   A worked instance of `SecondaryStressDiffers` on a whole line: with that entry, the
   line "into" is stressed "01" on import and "11" on re-analysis.
   */
  lemma IntoStressDiffers(o: Oracles)
    requires o.dict == Some(map["into" := [IntoEntry]])
    ensures ImportProsody.StressPattern("into", o) == Ok("01")
    ensures Reanalyze.StressPattern("into", o) == "11"
  {
    IntoWords();
    IntoLetters();
    IntoWordStress(o);
    ImportOneWordLine("into", "into", o);
    ReanalysisOneWordLine("into", "into", o);
  }
}
