/**
 Fragment-level analysis of the import script: the text is split into its non-blank
 lines, every line is analysed and numbered from 1, and the fragment is classified
 by its number of lines.
 */
module Fragments {
  import opened Outcome
  import opened Text
  import opened Phonetics
  import ImportProsody

  datatype FragmentType = SingleLine | Couplet | Quatrain | Verse | Stanza {
    /** The label stored in front-matter and in the `fragment_type` column. */
    function Label(): string {
      match this
      case SingleLine => "single-line"
      case Couplet => "couplet"
      case Quatrain => "quatrain"
      case Verse => "verse"
      case Stanza => "stanza"
    }
  }

  /** Different types are stored under different labels, so the label identifies the type. */
  lemma LabelsDistinct(a: FragmentType, b: FragmentType)
    ensures a.Label() == b.Label() <==> a == b
  {
  }

  datatype FragmentProsody = FragmentProsody(
    lines: nat,
    prosody: seq<ImportProsody.LineProsody>,
    fragmentType: FragmentType)

  /** A line as kept by the analysis: non-empty, stripped, without a line break. */
  predicate IsCleanLine(l: string) {
    l != [] && IsStripped(l) && '\n' !in l
  }

  function KeepNonBlank(pieces: seq<string>): (r: seq<string>)
    requires forall i | 0 <= i < |pieces| :: '\n' !in pieces[i]
    ensures |r| <= |pieces|
    ensures forall i | 0 <= i < |r| :: IsCleanLine(r[i])
  {
    if pieces == [] then []
    else
      var t := Strip(pieces[0]);
      StrippedPieceClean(pieces[0]);
      var rest := KeepNonBlank(pieces[1..]);
      if t == [] then rest else [t] + rest
  }

  /** A piece without a line break strips to nothing or to a clean line. */
  lemma StrippedPieceClean(p: string)
    requires '\n' !in p
    ensures Strip(p) != [] ==> IsCleanLine(Strip(p))
  {
    var t := Strip(p);
    assert forall c | c in t :: c in p;
  }

  /** Pieces are kept in order: filtering a concatenation filters each part. */
  lemma {:induction false} KeepNonBlankAppend(u: seq<string>, v: seq<string>)
    requires forall i | 0 <= i < |u| :: '\n' !in u[i]
    requires forall i | 0 <= i < |v| :: '\n' !in v[i]
    ensures KeepNonBlank(u + v) == KeepNonBlank(u) + KeepNonBlank(v)
  {
    if u == [] {
      assert u + v == v;
    } else {
      assert (u + v)[0] == u[0];
      assert (u + v)[1..] == u[1..] + v;
      KeepNonBlankAppend(u[1..], v);
    }
  }

  /** One piece is dropped when blank and otherwise kept stripped. */
  lemma KeepNonBlankOfPiece(p: string)
    requires '\n' !in p
    ensures KeepNonBlank([p]) == if AllSpace(p) then [] else [Strip(p)]
  {
    assert [p][1..] == [];
  }

  /** `[line.strip() for line in text.split('\n') if line.strip()]`. */
  function NonBlankLines(text: string): (r: seq<string>)
    ensures forall i | 0 <= i < |r| :: IsCleanLine(r[i])
    ensures AllSpace(text) ==> r == []
  {
    var pieces := SplitOn(text, '\n');
    if AllSpace(text) then
      BlankPiecesVanish(text);
      KeepNonBlank(pieces)
    else
      KeepNonBlank(pieces)
  }

  /** A text of whitespace alone splits into pieces that are all blank. */
  lemma BlankPiecesVanish(text: string)
    requires AllSpace(text)
    ensures KeepNonBlank(SplitOn(text, '\n')) == []
  {
    var pieces := SplitOn(text, '\n');
    JoinSplitOn(text, '\n');
    AllPiecesBlank(pieces, '\n');
    BlankKeepsNothing(pieces);
  }

  /** The lines on either side of a line break are kept separately, in order. */
  lemma NonBlankLinesOfBreak(a: string, b: string)
    ensures NonBlankLines(a + ['\n'] + b) == NonBlankLines(a) + NonBlankLines(b)
  {
    SplitOnAtSep(a, b, '\n');
    KeepNonBlankAppend(SplitOn(a, '\n'), SplitOn(b, '\n'));
  }

  /** Text without a line break is one line: dropped when blank, otherwise kept stripped. */
  lemma NonBlankLinesOfLine(p: string)
    requires '\n' !in p
    ensures NonBlankLines(p) == if AllSpace(p) then [] else [Strip(p)]
  {
    SplitOnWithoutSep(p, '\n');
    KeepNonBlankOfPiece(p);
  }

  lemma {:induction false} AllPiecesBlank(parts: seq<string>, sep: char)
    requires IsSpace(sep) && AllSpace(Join(parts, sep))
    ensures forall i | 0 <= i < |parts| :: AllSpace(parts[i])
  {
    if |parts| > 1 {
      var rest := Join(parts[1..], sep);
      assert Join(parts, sep) == parts[0] + [sep] + rest;
      assert forall k | 0 <= k < |parts[0]| :: parts[0][k] == Join(parts, sep)[k];
      assert forall k | 0 <= k < |rest| :: rest[k] == Join(parts, sep)[|parts[0]| + 1 + k];
      AllPiecesBlank(parts[1..], sep);
      assert forall i | 1 <= i < |parts| :: parts[i] == parts[1..][i - 1];
    }
  }

  lemma {:induction false} BlankKeepsNothing(pieces: seq<string>)
    requires forall i | 0 <= i < |pieces| :: '\n' !in pieces[i] && AllSpace(pieces[i])
    ensures KeepNonBlank(pieces) == []
  {
    if pieces != [] {
      BlankKeepsNothing(pieces[1..]);
    }
  }

  /** Lines that are already clean survive a join with line breaks and a re-split unchanged. */
  lemma {:induction false} NonBlankLinesOfJoin(lines: seq<string>)
    requires forall i | 0 <= i < |lines| :: IsCleanLine(lines[i])
    ensures NonBlankLines(Join(lines, '\n')) == lines
  {
    if lines == [] {
      assert AllSpace(Join(lines, '\n'));
    } else {
      SplitOnJoin(lines, '\n');
      KeepCleanPieces(lines);
    }
  }

  lemma {:induction false} KeepCleanPieces(lines: seq<string>)
    requires forall i | 0 <= i < |lines| :: IsCleanLine(lines[i])
    requires forall i | 0 <= i < |lines| :: '\n' !in lines[i]
    ensures KeepNonBlank(lines) == lines
  {
    if lines != [] {
      assert IsCleanLine(lines[0]);
      StripStripped(lines[0]);
      KeepCleanPieces(lines[1..]);
    }
  }

  /** The branch chain of `analyze_fragment_prosody` on the line count. */
  function Classify(lineCount: nat): FragmentType {
    if lineCount == 1 then SingleLine
    else if lineCount == 2 then Couplet
    else if lineCount == 4 then Quatrain
    else if lineCount <= 8 then Verse
    else Stanza
  }

  /** Which line counts end up with which type. */
  lemma ClassifyByLineCount(n: nat)
    ensures Classify(n) == SingleLine <==> n == 1
    ensures Classify(n) == Couplet <==> n == 2
    ensures Classify(n) == Quatrain <==> n == 4
    ensures Classify(n) == Verse <==> n == 0 || n == 3 || 5 <= n <= 8
    ensures Classify(n) == Stanza <==> n > 8
  {
  }

  /** Some line's stress pattern raises. */
  predicate SomeLineRaises(lines: seq<string>, o: Oracles) {
    exists i | 0 <= i < |lines| :: ImportProsody.StressPattern(lines[i], o).Raised?
  }

  /** A line analyser: the text of a line and its 1-based number to its analysis or an exception. */
  type Analyser = (string, nat) -> Result<ImportProsody.LineProsody>

  /** The analyser raises on some line, numbered from `first`. */
  predicate SomeAnalysisRaises(lines: seq<string>, first: nat, analyse: Analyser) {
    exists i | 0 <= i < |lines| :: analyse(lines[i], first + i).Raised?
  }

  /** `prosody[i]` is the analysis of `lines[i]`, numbered `first + i`. */
  predicate AnalysedInOrder(lines: seq<string>, first: nat, prosody: seq<ImportProsody.LineProsody>, analyse: Analyser) {
    && |prosody| == |lines|
    && forall i | 0 <= i < |lines| :: analyse(lines[i], first + i) == Ok(prosody[i])
  }

  /** Analyses the lines in order, numbering them from `first`; the first line that raises aborts the rest. */
  function AnalyzeLines(lines: seq<string>, first: nat, analyse: Analyser): (r: Result<seq<ImportProsody.LineProsody>>)
    ensures r.Raised? <==> SomeAnalysisRaises(lines, first, analyse)
    ensures r.Ok? ==> AnalysedInOrder(lines, first, r.value, analyse)
  {
    if lines == [] then Ok([])
    else
      match analyse(lines[0], first)
      case Raised => Raised
      case Ok(head) =>
        var rest := lines[1..];
        match AnalyzeLines(rest, first + 1, analyse)
        case Raised =>
          var j :| 0 <= j < |rest| && analyse(rest[j], first + 1 + j).Raised?;
          assert rest[j] == lines[j + 1];
          Raised
        case Ok(tail) =>
          var r := [head] + tail;
          forall i | 0 <= i < |lines|
            ensures analyse(lines[i], first + i) == Ok(r[i])
          {
            if i > 0 {
              assert lines[i] == rest[i - 1] && r[i] == tail[i - 1];
            }
          }
          Ok(r)
  }

  /** `analyze_line_prosody` of the import script, as an analyser. */
  function LineAnalyser(o: Oracles): Analyser {
    (line: string, number: nat) => ImportProsody.AnalyzeLine(line, number, o)
  }

  /** What the analyser promises of every line, in terms the fragment analysis needs. */
  lemma LineAnalyserFacts(o: Oracles, line: string, number: nat)
    ensures LineAnalyser(o)(line, number) == ImportProsody.AnalyzeLine(line, number, o)
    ensures LineAnalyser(o)(line, number).Raised? <==> ImportProsody.StressPattern(line, o).Raised?
    ensures LineAnalyser(o)(line, number).Ok? ==>
      var p := LineAnalyser(o)(line, number).value;
      && p.line == number && p.text == line && p.syllables >= 1 && |p.stress| >= 1
      && p.endRhyme == ImportProsody.EndRhyme(line, o)
  {
  }

  /** The analysis of a fragment whose non-blank lines are `lines`. */
  function FragmentOfLines(lines: seq<string>, o: Oracles): (r: Result<FragmentProsody>)
    ensures r.Raised? <==> SomeLineRaises(lines, o)
    ensures r.Ok? ==>
      && r.value.lines == |r.value.prosody| == |lines|
      && r.value.fragmentType == Classify(|lines|)
      && AnalysedInOrder(lines, 1, r.value.prosody, LineAnalyser(o))
      && forall i | 0 <= i < |lines| ::
           && r.value.prosody[i].line == i + 1
           && r.value.prosody[i].text == lines[i]
           && r.value.prosody[i].syllables >= 1
           && |r.value.prosody[i].stress| >= 1
           && r.value.prosody[i].endRhyme == ImportProsody.EndRhyme(lines[i], o)
  {
    var analyse := LineAnalyser(o);
    match AnalyzeLines(lines, 1, analyse)
    case Raised =>
      var i :| 0 <= i < |lines| && analyse(lines[i], 1 + i).Raised?;
      LineAnalyserFacts(o, lines[i], 1 + i);
      Raised
    case Ok(prosody) =>
      forall i | 0 <= i < |lines|
        ensures !ImportProsody.StressPattern(lines[i], o).Raised?
        ensures prosody[i].line == i + 1 && prosody[i].text == lines[i]
        ensures prosody[i].syllables >= 1 && |prosody[i].stress| >= 1
        ensures prosody[i].endRhyme == ImportProsody.EndRhyme(lines[i], o)
      {
        LineAnalyserFacts(o, lines[i], 1 + i);
      }
      Ok(FragmentProsody(|lines|, prosody, Classify(|lines|)))
  }

  /** `analyze_fragment_prosody`. */
  function AnalyzeFragment(text: string, o: Oracles): (r: Result<FragmentProsody>)
    ensures r.Raised? <==> SomeLineRaises(NonBlankLines(text), o)
    ensures r.Ok? ==>
      var lines := NonBlankLines(text);
      && r.value.lines == |r.value.prosody| == |lines|
      && r.value.fragmentType == Classify(|lines|)
      && AnalysedInOrder(lines, 1, r.value.prosody, LineAnalyser(o))
      && forall i | 0 <= i < |lines| ::
           && r.value.prosody[i].line == i + 1
           && r.value.prosody[i].text == lines[i]
           && r.value.prosody[i].syllables >= 1
           && |r.value.prosody[i].stress| >= 1
           && r.value.prosody[i].endRhyme == ImportProsody.EndRhyme(lines[i], o)
  {
    FragmentOfLines(NonBlankLines(text), o)
  }
}
