/**
 Normalisation of the import script's textual inputs: one CSV row becomes a fragment
 record, and the language model's comma-separated reply (or its absence) becomes a
 tag list.
 */
module Normalise {
  import opened Outcome
  import opened Text

  /** A row of the corpus CSV: the columns ID, Fragment, Attribution, Rhythmic, Context. */
  datatype CsvRow = CsvRow(id: string, fragment: string, attribution: string, rhythmic: string, context: string)

  datatype Fragment = Fragment(
    id: string,
    text: string,
    attribution: Option<string>,
    rhythmic: bool,
    context: Option<string>)

  /** `s.strip() if s.strip() else None`. */
  function OptionalField(s: string): (r: Option<string>)
    ensures r.None? <==> AllSpace(s)
    ensures r.Some? ==> r.value == Strip(s) && r.value != [] && IsStripped(r.value)
  {
    var t := Strip(s);
    if t == [] then None else Some(t)
  }

  /** The Rhythmic column is a yes exactly when, stripped, it is "Y" or "y". */
  lemma RhythmicFlag(s: string)
    ensures Upper(Strip(s)) == "Y" <==> Strip(s) == "Y" || Strip(s) == "y"
  {
    UpperIsY(Strip(s));
  }

  lemma UpperIsY(t: string)
    ensures Upper(t) == "Y" <==> t == "Y" || t == "y"
  {
    if Upper(t) == "Y" {
      assert |t| == 1 && UpperChar(t[0]) == 'Y';
      assert t == [t[0]];
    }
  }

  /**
   How a fragment's fields follow from a row: id and text stripped, rhythmic exactly
   for a stripped "Y" or "y", attribution and context absent exactly when blank and
   otherwise stripped.
   */
  predicate FieldsOfRow(row: CsvRow, f: Fragment) {
    && f.id == Strip(row.id) && f.text == Strip(row.fragment)
    && (f.rhythmic <==> Strip(row.rhythmic) == "Y" || Strip(row.rhythmic) == "y")
    && (f.attribution.None? <==> AllSpace(row.attribution))
    && (f.context.None? <==> AllSpace(row.context))
    && (f.attribution.Some? ==> f.attribution.value == Strip(row.attribution))
    && (f.context.Some? ==> f.context.value == Strip(row.context))
  }

  /** The row mapping of `parse_csv`. */
  function ParseRow(row: CsvRow): (f: Fragment)
    ensures FieldsOfRow(row, f)
  {
    RhythmicFlag(row.rhythmic);
    Fragment(
      Strip(row.id),
      Strip(row.fragment),
      OptionalField(row.attribution),
      Upper(Strip(row.rhythmic)) == "Y",
      OptionalField(row.context))
  }

  /** `parse_csv`: one fragment per row, in file order. */
  function ParseCsv(rows: seq<CsvRow>): (fs: seq<Fragment>)
    ensures |fs| == |rows|
    ensures forall i | 0 <= i < |rows| :: FieldsOfRow(rows[i], fs[i])
  {
    seq(|rows|, i requires 0 <= i < |rows| => ParseRow(rows[i]))
  }

  // ---------------------------------------------------------------------------
  // Tags
  // ---------------------------------------------------------------------------

  predicate NoDuplicates<T(==)>(s: seq<T>) {
    forall i, j | 0 <= i < j < |s| :: s[i] != s[j]
  }

  /** What every parsed tag looks like. */
  predicate IsTag(t: string) {
    |t| > 1 && IsStripped(t) && IsLowercase(t)
  }

  /** One element of the reply after `tag.strip().lower()`. */
  function CleanTag(piece: string): (t: string)
    ensures IsStripped(t) && IsLowercase(t)
    ensures |t| <= |piece|
    ensures t == [] <==> AllSpace(piece)
  {
    LowerKeepsStripped(Strip(piece));
    Lower(Strip(piece))
  }

  /** Cleaning ignores the whitespace around a tag and lower-cases what it surrounds. */
  lemma CleanTagIgnoresPadding(pre: string, tag: string, post: string)
    requires AllSpace(pre) && AllSpace(post) && IsStripped(tag)
    ensures CleanTag(pre + tag + post) == Lower(tag)
  {
    StripPadded(pre, tag, post);
  }

  /** The set the source builds: every cleaned element longer than one character. */
  function TagSet(pieces: seq<string>): set<string> {
    set p | p in pieces && |CleanTag(p)| > 1 :: CleanTag(p)
  }

  lemma TagSetCons(pieces: seq<string>)
    requires pieces != []
    ensures TagSet(pieces) ==
      (if |CleanTag(pieces[0])| > 1 then {CleanTag(pieces[0])} else {}) + TagSet(pieces[1..])
  {
    assert forall p :: p in pieces <==> p == pieces[0] || p in pieces[1..] by {
      assert pieces == [pieces[0]] + pieces[1..];
    }
  }

  /** The cleaned elements longer than one character, in reply order. */
  function LongTags(pieces: seq<string>): (r: seq<string>)
    ensures forall t | t in r :: IsTag(t)
    ensures forall t :: t in r <==> t in TagSet(pieces)
  {
    if pieces == [] then []
    else
      var t := CleanTag(pieces[0]);
      var rest := LongTags(pieces[1..]);
      TagSetCons(pieces);
      if |t| > 1 then [t] + rest else rest
  }

  /** The first occurrence of every element. */
  function Dedup(s: seq<string>): (r: seq<string>)
    ensures NoDuplicates(r)
    ensures forall x :: x in r <==> x in s
    ensures |r| <= |s|
  {
    if s == [] then []
    else
      var rest := Dedup(s[..|s| - 1]);
      assert s == s[..|s| - 1] + [s[|s| - 1]];
      if s[|s| - 1] in rest then rest else rest + [s[|s| - 1]]
  }

  /**
   The tag parse of `generate_tags_openrouter`. The source builds the list through a
   set, whose order is unspecified; the model keeps first occurrences.
   */
  function ParseTags(reply: string): (tags: seq<string>)
    ensures NoDuplicates(tags)
    ensures forall t | t in tags :: IsTag(t)
    ensures forall t :: t in tags <==> t in TagSet(SplitOn(Strip(reply), ','))
  {
    Dedup(LongTags(SplitOn(Strip(reply), ',')))
  }

  /** `[w.lower() for w in words if len(w) > 3]`. */
  function LongWords(words: seq<string>): (r: seq<string>)
    requires forall i | 0 <= i < |words| :: NoSpace(words[i])
    ensures |r| <= |words|
    ensures forall i | 0 <= i < |r| :: |r[i]| > 3 && IsLowercase(r[i]) && NoSpace(r[i])
  {
    if words == [] then []
    else
      var rest := LongWords(words[1..]);
      var w := Lower(words[0]);
      assert NoSpace(words[0]);
      assert forall i | 0 <= i < |w| :: w[i] == LowerChar(words[0][i]) && !IsSpace(w[i]);
      if |words[0]| > 3 then [w] + rest else rest
  }

  /** Words are kept in order: filtering a concatenation filters each part. */
  lemma {:induction false} LongWordsAppend(u: seq<string>, v: seq<string>)
    requires forall i | 0 <= i < |u| :: NoSpace(u[i])
    requires forall i | 0 <= i < |v| :: NoSpace(v[i])
    ensures LongWords(u + v) == LongWords(u) + LongWords(v)
  {
    if u == [] {
      assert u + v == v;
    } else {
      assert (u + v)[0] == u[0];
      assert (u + v)[1..] == u[1..] + v;
      LongWordsAppend(u[1..], v);
    }
  }

  /** One word is kept, lower-cased, exactly when it has more than three characters. */
  lemma LongWordsOfWord(w: string)
    requires NoSpace(w)
    ensures LongWords([w]) == if |w| > 3 then [Lower(w)] else []
  {
    assert [w][1..] == [];
  }

  function Take<T>(s: seq<T>, n: nat): (r: seq<T>)
    ensures |r| <= n && |r| <= |s| && r == s[..|r|]
    ensures |s| >= n ==> |r| == n
    ensures |s| <= n ==> r == s
  {
    if |s| <= n then s else s[..n]
  }

  const DefaultTags: seq<string> := ["lyric", "fragment"]

  /** The fallback of `generate_tags_openrouter` when the model call raises. */
  function FallbackTags(context: Option<string>): (tags: seq<string>)
    ensures context.None? || context.value == [] ==> tags == DefaultTags
    ensures context.Some? && context.value != [] ==>
      && |tags| <= 5
      && forall i | 0 <= i < |tags| :: |tags[i]| > 3 && IsLowercase(tags[i]) && NoSpace(tags[i])
  {
    if context.Some? && context.value != [] then Take(LongWords(Words(context.value)), 5)
    else DefaultTags
  }

  /**
   Only the first five long words matter: once the start of the context holds five,
   whatever follows it is ignored.
   */
  lemma FallbackTakesFirstFive(a: string, b: string)
    requires |LongWords(Words(a))| >= 5
    ensures FallbackTags(Some(a + [' '] + b)) == LongWords(Words(a))[..5]
  {
    var u, v := Words(a), Words(b);
    WordsAppendSpace(a, ' ', b);
    LongWordsAppend(u, v);
    assert (LongWords(u) + LongWords(v))[..5] == LongWords(u)[..5];
  }

  /** A context with at most five long words gives all of them, lower-cased and in order. */
  lemma FallbackKeepsFewLongWords(context: string)
    requires context != [] && |LongWords(Words(context))| <= 5
    ensures FallbackTags(Some(context)) == LongWords(Words(context))
  {
  }

  /** `generate_tags_openrouter` given the model's reply, or `Raised` when the call failed. */
  function GenerateTags(reply: Result<string>, context: Option<string>): (tags: seq<string>)
    ensures forall t | t in tags :: IsLowercase(t) && |t| > 1
    ensures reply.Ok? ==> NoDuplicates(tags) && forall t | t in tags :: IsTag(t)
    ensures reply.Raised? && (context.None? || context.value == []) ==> tags == DefaultTags
    ensures reply.Raised? && context.Some? && context.value != [] ==>
      |tags| <= 5 && forall i | 0 <= i < |tags| :: |tags[i]| > 3
    ensures reply.Ok? ==> tags == ParseTags(reply.value)
    ensures reply.Raised? ==> tags == FallbackTags(context)
  {
    match reply
    case Ok(text) => ParseTags(text)
    case Raised =>
      var tags := FallbackTags(context);
      assert forall t | t in DefaultTags :: IsLowercase(t) && |t| > 1;
      assert forall t | t in tags :: IsLowercase(t) && |t| > 1;
      tags
  }
}
