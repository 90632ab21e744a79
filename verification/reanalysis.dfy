/**
 The loop of `reanalyze_all_fragments`, with the `fragment_lines` table as a map from
 (fragment id, line number) to the stored row. Non-rhythmic fragments are skipped;
 every row of a rhythmic fragment gets five columns recomputed from its own text.
 */
module Reanalysis {
  import opened Outcome
  import opened Phonetics
  import Reanalyze

  datatype FragmentRecord = FragmentRecord(id: string, content: string, rhythmic: bool)

  datatype LineKey = LineKey(fragmentId: string, lineNumber: int)

  datatype StoredLine = StoredLine(
    text: string,
    syllables: int,
    stress: string,
    endRhyme: Option<string>,
    endRhymeUs: Option<string>,
    endRhymeGb: Option<string>)

  type LineTable = map<LineKey, StoredLine>

  /** The UPDATE of `update_line_prosody`: the analysed columns of one row, from the row's own text. */
  function Refresh(row: StoredLine, o: Oracles): (r: StoredLine)
    ensures r.text == row.text
    ensures r.syllables == Reanalyze.CountSyllables(row.text, Reanalyze.SyllablesLibrary(o))
    ensures r.stress == Reanalyze.StressPattern(row.text, o) && |r.stress| >= 1
    ensures r.endRhymeUs == Reanalyze.DualRhymes(row.text, o).us
    ensures r.endRhymeGb == Reanalyze.DualRhymes(row.text, o).gb
    ensures r.endRhyme == r.endRhymeGb
  {
    var a := Reanalyze.AnalyzeLine(row.text, o);
    row.(syllables := a.syllables, stress := a.stress,
         endRhyme := a.endRhyme, endRhymeUs := a.endRhymeUs, endRhymeGb := a.endRhymeGb)
  }

  /** Refreshing an already refreshed row changes nothing. */
  lemma RefreshIdempotent(row: StoredLine, o: Oracles)
    ensures Refresh(Refresh(row, o), o) == Refresh(row, o)
  {
  }

  /** The rows `fetch_fragment_lines` returns for one fragment. */
  function LinesOf(table: LineTable, id: string): set<LineKey> {
    set k | k in table && k.fragmentId == id
  }

  /** The ids of the rhythmic entries of the fragment list. */
  function RhythmicIds(fragments: seq<FragmentRecord>): set<string> {
    if fragments == [] then {}
    else
      var last := fragments[|fragments| - 1];
      RhythmicIds(fragments[..|fragments| - 1]) + (if last.rhythmic then {last.id} else {})
  }

  lemma {:induction false} RhythmicIdsMembers(fragments: seq<FragmentRecord>, id: string)
    ensures id in RhythmicIds(fragments) <==>
      exists i | 0 <= i < |fragments| :: fragments[i].rhythmic && fragments[i].id == id
  {
    if fragments != [] {
      var init := fragments[..|fragments| - 1];
      RhythmicIdsMembers(init, id);
      if id in RhythmicIds(init) {
        var i :| 0 <= i < |init| && init[i].rhythmic && init[i].id == id;
        assert fragments[i] == init[i];
      }
      if exists i | 0 <= i < |fragments| :: fragments[i].rhythmic && fragments[i].id == id {
        var i :| 0 <= i < |fragments| && fragments[i].rhythmic && fragments[i].id == id;
        if i < |init| {
          assert init[i] == fragments[i];
        }
      }
    }
  }

  /** `updated_lines`: the rows of every rhythmic entry, counted once per entry. */
  function RhythmicLineCount(fragments: seq<FragmentRecord>, table: LineTable): nat {
    if fragments == [] then 0
    else
      var last := fragments[|fragments| - 1];
      RhythmicLineCount(fragments[..|fragments| - 1], table)
      + (if last.rhythmic then |LinesOf(table, last.id)| else 0)
  }

  /** `skipped_fragments`. */
  function NonRhythmicCount(fragments: seq<FragmentRecord>): nat {
    if fragments == [] then 0
    else
      NonRhythmicCount(fragments[..|fragments| - 1])
      + (if fragments[|fragments| - 1].rhythmic then 0 else 1)
  }

  /** The table after re-analysis: rows of rhythmic fragments refreshed, all others as they were. */
  function Reanalyzed(table: LineTable, fragments: seq<FragmentRecord>, o: Oracles): (t: LineTable)
    ensures t.Keys == table.Keys
    ensures forall k | k in table :: t[k].text == table[k].text
  {
    map k | k in table :: if k.fragmentId in RhythmicIds(fragments) then Refresh(table[k], o) else table[k]
  }

  /** Running the re-analysis a second time changes nothing. */
  lemma ReanalysisIdempotent(table: LineTable, fragments: seq<FragmentRecord>, o: Oracles)
    ensures Reanalyzed(Reanalyzed(table, fragments, o), fragments, o) == Reanalyzed(table, fragments, o)
  {
  }

  /** The inner loop: the rows of one fragment, each updated once. */
  method RefreshRows(current: LineTable, rows: set<LineKey>, o: Oracles)
    returns (result: LineTable, count: nat)
    requires rows <= current.Keys
    ensures result.Keys == current.Keys
    ensures forall k | k in current :: result[k] == if k in rows then Refresh(current[k], o) else current[k]
    ensures count == |rows|
  {
    result := current;
    count := 0;
    var pending := rows;
    while pending != {}
      invariant pending <= rows
      invariant result.Keys == current.Keys
      invariant forall k | k in current ::
        result[k] == if k in rows && k !in pending then Refresh(current[k], o) else current[k]
      invariant count == |rows| - |pending|
      decreases |pending|
    {
      var k :| k in pending;
      result := result[k := Refresh(result[k], o)];
      pending := pending - {k};
      count := count + 1;
    }
  }

  /** `result` is `table` with exactly the rows of the fragments in `ids` refreshed. */
  predicate RefreshedFor(table: LineTable, result: LineTable, ids: set<string>, o: Oracles) {
    && result.Keys == table.Keys
    && forall k | k in table ::
         result[k] == if k.fragmentId in ids then Refresh(table[k], o) else table[k]
  }

  /** One rhythmic fragment's rows refreshed on top of earlier ones. */
  lemma RefreshOneMore(table: LineTable, before: LineTable, after: LineTable, ids: set<string>, id: string, o: Oracles)
    requires RefreshedFor(table, before, ids, o)
    requires after.Keys == before.Keys
    requires forall k | k in before ::
      after[k] == if k in LinesOf(table, id) then Refresh(before[k], o) else before[k]
    ensures RefreshedFor(table, after, ids + {id}, o)
  {
    forall k | k in table
      ensures after[k] == if k.fragmentId in ids + {id} then Refresh(table[k], o) else table[k]
    {
      assert before[k].text == table[k].text;
      RefreshIdempotent(table[k], o);
    }
  }

  /** Extending the processed prefix by one entry. */
  lemma PrefixStep(fragments: seq<FragmentRecord>, i: nat, table: LineTable)
    requires i < |fragments|
    ensures var f := fragments[i];
      && RhythmicIds(fragments[..i + 1]) == RhythmicIds(fragments[..i]) + (if f.rhythmic then {f.id} else {})
      && RhythmicLineCount(fragments[..i + 1], table)
         == RhythmicLineCount(fragments[..i], table) + (if f.rhythmic then |LinesOf(table, f.id)| else 0)
      && NonRhythmicCount(fragments[..i + 1]) == NonRhythmicCount(fragments[..i]) + (if f.rhythmic then 0 else 1)
  {
    assert fragments[..i + 1][..i] == fragments[..i];
  }

  /** `reanalyze_all_fragments` without the database round trips and the logging. */
  method ReanalyzeAll(fragments: seq<FragmentRecord>, table: LineTable, o: Oracles)
    returns (result: LineTable, updatedLines: nat, skipped: nat)
    ensures result.Keys == table.Keys
    ensures forall k | k in table ::
      result[k] == if k.fragmentId in RhythmicIds(fragments) then Refresh(table[k], o) else table[k]
    ensures forall k | k in table :: result[k].text == table[k].text
    ensures updatedLines == RhythmicLineCount(fragments, table)
    ensures skipped == NonRhythmicCount(fragments)
    ensures result == Reanalyzed(table, fragments, o)
  {
    result := table;
    updatedLines := 0;
    skipped := 0;
    var i := 0;
    while i < |fragments|
      invariant 0 <= i <= |fragments|
      invariant RefreshedFor(table, result, RhythmicIds(fragments[..i]), o)
      invariant updatedLines == RhythmicLineCount(fragments[..i], table)
      invariant skipped == NonRhythmicCount(fragments[..i])
    {
      var f := fragments[i];
      PrefixStep(fragments, i, table);
      if !f.rhythmic {
        skipped := skipped + 1;
      } else {
        var before := result;
        var count;
        result, count := RefreshRows(before, LinesOf(table, f.id), o);
        updatedLines := updatedLines + count;
        RefreshOneMore(table, before, result, RhythmicIds(fragments[..i]), f.id, o);
      }
      i := i + 1;
    }
    assert fragments[..i] == fragments;
  }
}
