/**
 What the import script's second phase produces for one reviewed fragment: the
 markdown front-matter, the `fragments` row, the `fragment_lines` rows and the
 vector-store metadata. Timestamps, the embedding vector and all writes are left
 out; what remains is which keys and rows exist and what they hold.
 */
module Storage {
  import opened Outcome
  import opened Text
  import opened Phonetics
  import opened Normalise
  import opened Fragments
  import ImportProsody

  /** A fragment as read back from the reviewed-tags file. */
  datatype Reviewed = Reviewed(fragment: Fragment, tags: seq<string>)

  datatype FrontMatter = FrontMatter(
    id: string,
    source: string,
    rhythmic: bool,
    tags: seq<string>,
    contextNote: string,
    prosody: Option<FragmentProsody>)

  datatype FragmentRow = FragmentRow(
    id: string,
    source: string,
    rhythmic: bool,
    fragmentType: Option<string>,
    content: string,
    tags: seq<string>,
    contextNote: string,
    embeddingId: string,
    filePath: string)

  datatype LineRow = LineRow(
    fragmentId: string,
    lineNumber: nat,
    text: string,
    syllables: int,
    stress: string,
    endRhyme: Option<string>)

  /** `syllableCounts` are the values whose mean is stored as `avg_syllables`; the rounding is not modelled. */
  datatype VectorMetadata = VectorMetadata(
    id: string,
    source: string,
    tags: seq<string>,
    rhythmic: bool,
    syllableCounts: Option<seq<int>>)

  datatype Imported = Imported(
    frontMatter: FrontMatter,
    row: FragmentRow,
    lines: seq<LineRow>,
    metadata: VectorMetadata)

  const DefaultSource: string := "JC"
  const MetadataTagLimit: nat := 10

  function Min(a: int, b: int): int {
    if a < b then a else b
  }

  /** `attribution or 'JC'`. */
  function Source(attribution: Option<string>): (s: string)
    ensures s == DefaultSource <==> attribution.None? || attribution.value == [] || attribution.value == DefaultSource
    ensures attribution.Some? && attribution.value != [] ==> s == attribution.value
  {
    if attribution.Some? && attribution.value != [] then attribution.value else DefaultSource
  }

  /** `context or ''`. */
  function ContextNote(context: Option<string>): (s: string)
    ensures s == [] <==> context.None? || context.value == []
    ensures context.Some? ==> s == context.value
  {
    if context.Some? then context.value else []
  }

  /** The prosody step: only rhythmic fragments are analysed. */
  function ProsodyData(f: Fragment, o: Oracles): (r: Result<Option<FragmentProsody>>)
    ensures !f.rhythmic ==> r == Ok(None)
    ensures f.rhythmic ==> (r.Raised? <==> AnalyzeFragment(f.text, o).Raised?)
    ensures r.Ok? && f.rhythmic ==> r.value == Some(AnalyzeFragment(f.text, o).value)
  {
    if !f.rhythmic then Ok(None)
    else
      match AnalyzeFragment(f.text, o)
      case Raised => Raised
      case Ok(p) => Ok(Some(p))
  }

  function SyllableCounts(p: seq<ImportProsody.LineProsody>): (c: seq<int>)
    ensures |c| == |p|
    ensures forall i | 0 <= i < |p| :: c[i] == p[i].syllables
  {
    seq(|p|, i requires 0 <= i < |p| => p[i].syllables)
  }

  /**
   The metadata of `save_to_vector_store`. The average divides by the number of lines,
   so a rhythmic fragment without a non-blank line raises.
   */
  function Metadata(r: Reviewed, prosody: Option<FragmentProsody>): (m: Result<VectorMetadata>)
    ensures m.Raised? <==> r.fragment.rhythmic && prosody.Some? && prosody.value.prosody == []
    ensures m.Ok? ==>
      && m.value.id == r.fragment.id
      && m.value.source == Source(r.fragment.attribution)
      && |m.value.tags| == Min(|r.tags|, MetadataTagLimit)
      && m.value.tags == r.tags[..|m.value.tags|]
      && m.value.rhythmic == r.fragment.rhythmic
      && (m.value.syllableCounts.Some? <==> r.fragment.rhythmic && prosody.Some?)
      && (m.value.syllableCounts.Some? ==> m.value.syllableCounts.value == SyllableCounts(prosody.value.prosody))
  {
    var f := r.fragment;
    var base := VectorMetadata(f.id, Source(f.attribution), Take(r.tags, MetadataTagLimit), f.rhythmic, None);
    if f.rhythmic && prosody.Some? then
      if prosody.value.prosody == [] then Raised
      else Ok(base.(syllableCounts := Some(SyllableCounts(prosody.value.prosody))))
    else Ok(base)
  }

  /** The `fragment_lines` inserts: one per analysed line. */
  function LineRows(id: string, p: seq<ImportProsody.LineProsody>): (rows: seq<LineRow>)
    ensures |rows| == |p|
    ensures forall i | 0 <= i < |p| ::
      rows[i] == LineRow(id, p[i].line, p[i].text, p[i].syllables, p[i].stress, p[i].endRhyme)
  {
    seq(|p|, i requires 0 <= i < |p| =>
      LineRow(id, p[i].line, p[i].text, p[i].syllables, p[i].stress, p[i].endRhyme))
  }

  /** The keys every stored form of the fragment shares. */
  predicate SharedKeys(r: Reviewed, out: Imported) {
    var f := r.fragment;
    && out.frontMatter.id == out.row.id == out.metadata.id == f.id
    && out.frontMatter.rhythmic == out.row.rhythmic == out.metadata.rhythmic == f.rhythmic
    && out.frontMatter.source == out.row.source == out.metadata.source == Source(f.attribution)
    && out.frontMatter.contextNote == out.row.contextNote == ContextNote(f.context)
    && out.frontMatter.tags == out.row.tags == r.tags
    && out.row.embeddingId == f.id
    && out.row.filePath == "fragments/" + f.id + ".md"
    && out.row.content == f.text
    && |out.metadata.tags| == Min(|r.tags|, MetadataTagLimit)
    && out.metadata.tags == r.tags[..|out.metadata.tags|]
  }

  /** No prosody key and no line row. */
  predicate WithoutProsody(out: Imported) {
    && out.lines == []
    && out.frontMatter.prosody.None?
    && out.row.fragmentType.None?
    && out.metadata.syllableCounts.None?
  }

  /** One line row per non-blank line of the text, numbered from 1, plus the prosody keys. */
  predicate WithProsody(text: string, out: Imported) {
    var lines := NonBlankLines(text);
    && |out.lines| == |lines| > 0
    && out.frontMatter.prosody.Some?
    && out.frontMatter.prosody.value.lines == |lines|
    && out.row.fragmentType == Some(Classify(|lines|).Label())
    && out.metadata.syllableCounts.Some?
    && |out.metadata.syllableCounts.value| == |lines|
    && forall i | 0 <= i < |lines| ::
         && out.metadata.syllableCounts.value[i] == out.lines[i].syllables
         && out.lines[i].lineNumber == i + 1
         && out.lines[i].text == lines[i]
         && out.lines[i].syllables >= 1
         && |out.lines[i].stress| >= 1
  }

  /**
   One iteration of the import loop: analyse (rhythmic only), build the metadata, the
   fragment row, the line rows and the front-matter. `Raised` means the fragment is
   counted as failed.
   */
  function ImportFragment(r: Reviewed, o: Oracles): Result<Imported> {
    var f := r.fragment;
    match ProsodyData(f, o)
    case Raised => Raised
    case Ok(prosody) =>
      match Metadata(r, prosody)
      case Raised => Raised
      case Ok(metadata) =>
        var fragmentType := if prosody.Some? then Some(prosody.value.fragmentType.Label()) else None;
        var row := FragmentRow(f.id, Source(f.attribution), f.rhythmic, fragmentType, f.text, r.tags,
                               ContextNote(f.context), f.id, "fragments/" + f.id + ".md");
        var keepProsody := f.rhythmic && prosody.Some?;
        var lines := if keepProsody then LineRows(f.id, prosody.value.prosody) else [];
        var front := FrontMatter(f.id, Source(f.attribution), f.rhythmic, r.tags, ContextNote(f.context),
                                 if keepProsody then prosody else None);
        Ok(Imported(front, row, lines, metadata))
  }

  /**
   What one import produces: it fails exactly for a rhythmic fragment whose analysis
   raises or that has no non-blank line; otherwise every stored form agrees on the
   shared keys, and prosody keys and line rows exist exactly for rhythmic fragments.
   */
  lemma ImportDecisions(r: Reviewed, o: Oracles)
    ensures ImportFragment(r, o).Raised? <==>
      r.fragment.rhythmic && (SomeLineRaises(NonBlankLines(r.fragment.text), o) || NonBlankLines(r.fragment.text) == [])
    ensures ImportFragment(r, o).Ok? ==>
      var out := ImportFragment(r, o).value;
      && SharedKeys(r, out)
      && (!r.fragment.rhythmic ==> WithoutProsody(out))
      && (r.fragment.rhythmic ==> WithProsody(r.fragment.text, out))
      && forall i | 0 <= i < |out.lines| :: out.lines[i].fragmentId == r.fragment.id
  {
    var f := r.fragment;
    var res := ImportFragment(r, o);
    if res.Ok? {
      var out := res.value;
      var prosody := ProsodyData(f, o).value;
      assert Metadata(r, prosody).Ok?;
      assert SharedKeys(r, out);
      if f.rhythmic {
        RhythmicRows(r, o);
      }
    }
  }

  /** A rhythmic fragment that imports gets one line row per non-blank line, and the prosody keys. */
  lemma RhythmicRows(r: Reviewed, o: Oracles)
    requires r.fragment.rhythmic && ImportFragment(r, o).Ok?
    ensures WithProsody(r.fragment.text, ImportFragment(r, o).value)
  {
    var f := r.fragment;
    var out := ImportFragment(r, o).value;
    var p := AnalyzeFragment(f.text, o).value;
    assert ProsodyData(f, o).value == Some(p);
    assert out.lines == LineRows(f.id, p.prosody);
  }

  /** Only rhythmic fragments ever get line rows or prosody keys. */
  lemma NonRhythmicHasNoLines(r: Reviewed, o: Oracles)
    requires !r.fragment.rhythmic
    ensures ImportFragment(r, o).Ok?
    ensures ImportFragment(r, o).value.lines == []
    ensures ImportFragment(r, o).value.frontMatter.prosody.None?
  {
    ImportDecisions(r, o);
  }

  /** One step of the import loop, as a function value so the loop can be stated for any step. */
  type Importer = Reviewed -> Result<Imported>

  /** The step the script runs for every fragment. */
  function FragmentImporter(o: Oracles): Importer {
    (r: Reviewed) => ImportFragment(r, o)
  }

  /** Number of fragments whose import raises. */
  function FailedImports(fragments: seq<Reviewed>, run: Importer): nat {
    if fragments == [] then 0
    else FailedImports(fragments[..|fragments| - 1], run)
         + (if run(fragments[|fragments| - 1]).Raised? then 1 else 0)
  }

  /** The outputs of the fragments whose import succeeds, in input order. */
  function Successes(fragments: seq<Reviewed>, run: Importer): (out: seq<Imported>)
    ensures |out| + FailedImports(fragments, run) == |fragments|
  {
    if fragments == [] then []
    else
      var last := fragments[|fragments| - 1];
      Successes(fragments[..|fragments| - 1], run)
      + (match run(last) case Ok(x) => [x] case Raised => [])
  }

  /**
   The loop of `complete_import_phase` for any step: every fragment is attempted, a
   failure is counted and does not stop the loop, and the successes are kept in input
   order.
   */
  method ImportLoop(fragments: seq<Reviewed>, run: Importer)
    returns (imported: seq<Imported>, successCount: nat, failCount: nat)
    ensures successCount + failCount == |fragments|
    ensures failCount == FailedImports(fragments, run)
    ensures imported == Successes(fragments, run) && |imported| == successCount
  {
    imported := [];
    successCount := 0;
    failCount := 0;
    var i := 0;
    while i < |fragments|
      invariant 0 <= i <= |fragments|
      invariant successCount + failCount == i
      invariant failCount == FailedImports(fragments[..i], run)
      invariant imported == Successes(fragments[..i], run)
      invariant |imported| == successCount
    {
      assert fragments[..i + 1][..i] == fragments[..i];
      var res := run(fragments[i]);
      if res.Raised? {
        failCount := failCount + 1;
      } else {
        imported := imported + [res.value];
        successCount := successCount + 1;
      }
      i := i + 1;
    }
    assert fragments[..i] == fragments;
  }

  /** `complete_import_phase`: the loop with the script's own step. */
  method CompleteImport(fragments: seq<Reviewed>, o: Oracles)
    returns (imported: seq<Imported>, successCount: nat, failCount: nat)
    ensures successCount + failCount == |fragments|
    ensures failCount == FailedImports(fragments, FragmentImporter(o))
    ensures imported == Successes(fragments, FragmentImporter(o)) && |imported| == successCount
  {
    imported, successCount, failCount := ImportLoop(fragments, FragmentImporter(o));
  }

  /** `x` is the output of running the step on one of `fragments`. */
  predicate ImportedFrom(x: Imported, fragments: seq<Reviewed>, run: Importer) {
    exists i | 0 <= i < |fragments| :: run(fragments[i]) == Ok(x)
  }

  /** Everything the import keeps came from one of the input fragments. */
  lemma {:induction false} SuccessesComeFromInputs(fragments: seq<Reviewed>, run: Importer)
    ensures forall x | x in Successes(fragments, run) :: ImportedFrom(x, fragments, run)
  {
    if fragments != [] {
      var last := |fragments| - 1;
      var init := fragments[..last];
      SuccessesComeFromInputs(init, run);
      var tail := match run(fragments[last]) case Ok(x) => [x] case Raised => [];
      assert Successes(fragments, run) == Successes(init, run) + tail;
      forall x | x in Successes(fragments, run)
        ensures ImportedFrom(x, fragments, run)
      {
        if x in Successes(init, run) {
          var i :| 0 <= i < |init| && run(init[i]) == Ok(x);
          assert fragments[i] == init[i];
        } else {
          assert x in tail;
          assert run(fragments[last]) == Ok(x);
        }
      }
    }
  }
}
