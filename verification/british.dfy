/**
 `_convert_american_to_british_phonemes` of scripts/reanalyze_prosody.py: an ordered
 table of substring rewrites, each applied to the whole string with Python's
 `str.replace` (leftmost, non-overlapping) before the next one.

 Applied in sequence, the rules chain: a TRAP vowel rewritten to the BATH vowel by the
 first rule is rewritten again by the LOT-CLOTH rule (`TrapVowelEndsInThought`). The
 table reads as a lookup from American to British phones; `ToBritishIntended` is that
 single-pass reading. The script's rhyme (`Reanalyze.GbRhyme`) uses `ToBritish`, as
 written; `Reanalyze.GbRhymeIntended` is the same rhyme with the single-pass reading.
 */
module British {

  /** `s.replace(pat, rep)`. */
  function ReplaceAll(s: string, pat: string, rep: string): (r: string)
    requires |pat| > 0
    decreases |s|
  {
    if |s| < |pat| then s
    else if s[..|pat|] == pat then rep + ReplaceAll(s[|pat|..], pat, rep)
    else [s[0]] + ReplaceAll(s[1..], pat, rep)
  }

  /** The rewrite table, in its insertion (and thus iteration) order. */
  const Mappings: seq<(string, string)> := [
    ("AE1", "AA1"), ("AE0", "AA0"),   // TRAP-BATH
    ("AA1", "AO1"), ("AA0", "AO0"),   // LOT-CLOTH
    ("ER1", "AH1"), ("ER0", "AH0"),   // rhoticity
    ("R", ""),
    ("AO1", "AO1"), ("AO0", "AO0")    // THOUGHT-FORCE
  ]

  predicate ValidRules(rules: seq<(string, string)>) {
    forall i | 0 <= i < |rules| :: |rules[i].0| > 0
  }

  function ApplyRules(s: string, rules: seq<(string, string)>): string
    requires ValidRules(rules)
    decreases |rules|
  {
    if rules == [] then s else ApplyRules(ReplaceAll(s, rules[0].0, rules[0].1), rules[1..])
  }

  function ToBritish(american: string): string {
    ApplyRules(american, Mappings)
  }

  // ---------------------------------------------------------------------------

  /** A string that is exactly the pattern becomes exactly the replacement. */
  lemma ReplaceWhole(pat: string, rep: string)
    requires |pat| > 0
    ensures ReplaceAll(pat, pat, rep) == rep
  {
    assert pat[..|pat|] == pat && pat[|pat|..] == [];
    assert rep + [] == rep;
  }

  /**
   Every occurrence is rewritten, not only the first: a character that the pattern
   does not contain cuts the string into parts that are rewritten independently.
   */
  lemma {:induction false} ReplaceAcrossSeparator(a: string, c: char, b: string, pat: string, rep: string)
    requires |pat| > 0 && c !in pat
    ensures ReplaceAll(a + [c] + b, pat, rep) == ReplaceAll(a, pat, rep) + [c] + ReplaceAll(b, pat, rep)
    decreases |a|
  {
    if |a| < |pat| {
      if a != [] {
        ReplaceAcrossSeparator(a[1..], c, b, pat, rep);
      }
      ShortPartAcross(a, c, b, pat, rep);
    } else if a[..|pat|] == pat {
      ReplaceAcrossSeparator(a[|pat|..], c, b, pat, rep);
      MatchAcross(a, c, b, pat, rep);
    } else {
      ReplaceAcrossSeparator(a[1..], c, b, pat, rep);
      MissAcross(a, c, b, pat, rep);
    }
  }

  /** Two occurrences of a pattern around a separator are both rewritten. */
  lemma BothOccurrencesRewritten(pat: string, c: char, rep: string)
    requires |pat| > 0 && c !in pat
    ensures ReplaceAll(pat + [c] + pat, pat, rep) == rep + [c] + rep
  {
    ReplaceAcrossSeparator(pat, c, pat, pat, rep);
    ReplaceWhole(pat, rep);
  }

  /** A part shorter than the pattern is copied, and so is the separator after it. */
  lemma ShortPartAcross(a: string, c: char, b: string, pat: string, rep: string)
    requires |pat| > 0 && c !in pat && |a| < |pat|
    requires a != [] ==>
      ReplaceAll(a[1..] + [c] + b, pat, rep) == ReplaceAll(a[1..], pat, rep) + [c] + ReplaceAll(b, pat, rep)
    ensures ReplaceAll(a + [c] + b, pat, rep) == a + [c] + ReplaceAll(b, pat, rep)
  {
    var s := a + [c] + b;
    if |s| < |pat| {
      assert ReplaceAll(b, pat, rep) == b;
    } else {
      // The window at the start of `s` reaches `c`, which the pattern lacks.
      assert s[..|pat|][|a|] == c;
      ReplaceMiss(s, pat, rep);
      if a == [] {
        assert s[..1] == [c] && s[1..] == b;
      } else {
        SlicesOfJoin(a, c, b, 1);
        assert ReplaceAll(a[1..], pat, rep) == a[1..];
        Regroup(a[..1], a[1..], [c], ReplaceAll(b, pat, rep));
        assert a[..1] + a[1..] == a;
      }
    }
  }

  /** A match at the start of a long part is rewritten the same way with or without what follows. */
  lemma MatchAcross(a: string, c: char, b: string, pat: string, rep: string)
    requires |pat| > 0 && |pat| <= |a| && a[..|pat|] == pat
    requires ReplaceAll(a[|pat|..] + [c] + b, pat, rep) ==
      ReplaceAll(a[|pat|..], pat, rep) + [c] + ReplaceAll(b, pat, rep)
    ensures ReplaceAll(a + [c] + b, pat, rep) == ReplaceAll(a, pat, rep) + [c] + ReplaceAll(b, pat, rep)
  {
    SlicesOfJoin(a, c, b, |pat|);
    Regroup(rep, ReplaceAll(a[|pat|..], pat, rep), [c], ReplaceAll(b, pat, rep));
  }

  /** A miss at the start of a long part copies its first character either way. */
  lemma MissAcross(a: string, c: char, b: string, pat: string, rep: string)
    requires |pat| > 0 && |pat| <= |a| && a[..|pat|] != pat
    requires ReplaceAll(a[1..] + [c] + b, pat, rep) ==
      ReplaceAll(a[1..], pat, rep) + [c] + ReplaceAll(b, pat, rep)
    ensures ReplaceAll(a + [c] + b, pat, rep) == ReplaceAll(a, pat, rep) + [c] + ReplaceAll(b, pat, rep)
  {
    SlicesOfJoin(a, c, b, |pat|);
    SlicesOfJoin(a, c, b, 1);
    ReplaceMiss(a + [c] + b, pat, rep);
    ReplaceMiss(a, pat, rep);
    Regroup(a[..1], ReplaceAll(a[1..], pat, rep), [c], ReplaceAll(b, pat, rep));
  }

  /** Where the window misses, the first character is copied. */
  lemma ReplaceMiss(s: string, pat: string, rep: string)
    requires |pat| > 0 && |pat| <= |s| && s[..|pat|] != pat
    ensures ReplaceAll(s, pat, rep) == s[..1] + ReplaceAll(s[1..], pat, rep)
  {
    assert s[..1] == [s[0]];
  }

  lemma Regroup(p: string, x: string, m: string, y: string)
    ensures p + (x + m + y) == (p + x) + m + y
  {
  }

  /** Cutting `a + [c] + b` inside `a`. */
  lemma SlicesOfJoin(a: string, c: char, b: string, n: nat)
    requires n <= |a|
    ensures (a + [c] + b)[..n] == a[..n]
    ensures (a + [c] + b)[n..] == a[n..] + [c] + b
  {
  }

  /** Replacing a string by itself changes nothing. */
  lemma {:induction false} ReplaceBySelf(s: string, pat: string)
    requires |pat| > 0
    ensures ReplaceAll(s, pat, pat) == s
    decreases |s|
  {
    if |s| >= |pat| {
      if s[..|pat|] == pat {
        ReplaceBySelf(s[|pat|..], pat);
        assert s == s[..|pat|] + s[|pat|..];
      } else {
        ReplaceBySelf(s[1..], pat);
        assert s == [s[0]] + s[1..];
      }
    }
  }

  /** A string not containing the first character of `pat` is left as it is. */
  lemma {:induction false} ReplaceAbsent(s: string, pat: string, rep: string)
    requires |pat| > 0 && pat[0] !in s
    ensures ReplaceAll(s, pat, rep) == s
    decreases |s|
  {
    if |s| >= |pat| {
      assert s[0] != pat[0];
      assert s[..|pat|] != pat;
      assert pat[0] !in s[1..];
      ReplaceAbsent(s[1..], pat, rep);
      assert s == [s[0]] + s[1..];
    }
  }

  /** Deleting every occurrence of a single character leaves none behind. */
  lemma {:induction false} DeleteRemoves(s: string, c: char)
    ensures c !in ReplaceAll(s, [c], "")
    decreases |s|
  {
    if |s| >= 1 {
      DeleteRemoves(s[1..], c);
      if s[..1] == [c] {
        assert ReplaceAll(s, [c], "") == ReplaceAll(s[1..], [c], "");
      } else {
        assert s[0] != c;
      }
    }
  }

  /** A rewrite whose replacement lacks `c` cannot introduce `c`. */
  lemma {:induction false} ReplaceKeepsAbsent(s: string, pat: string, rep: string, c: char)
    requires |pat| > 0 && c !in s && c !in rep
    ensures c !in ReplaceAll(s, pat, rep)
    decreases |s|
  {
    if |s| >= |pat| {
      if s[..|pat|] == pat {
        assert forall k | 0 <= k < |s[|pat|..]| :: s[|pat|..][k] == s[|pat| + k];
        ReplaceKeepsAbsent(s[|pat|..], pat, rep, c);
      } else {
        assert c !in s[1..];
        ReplaceKeepsAbsent(s[1..], pat, rep, c);
      }
    }
  }

  /** The British form never contains 'R': the deletion rule removes it and no later rule writes one. */
  lemma NoRhoticR(american: string)
    ensures 'R' !in ToBritish(american)
  {
    var s := american;
    var rules := Mappings;
    var s7 := ApplyRules(s, rules[..6]);
    ApplyRulesSplit(s, rules, 6);
    var s8 := ReplaceAll(s7, "R", "");
    DeleteRemoves(s7, 'R');
    ApplyRulesSplit(s7, rules[6..], 1);
    assert rules[6..][1..] == rules[7..];
    assert ApplyRules(s7, rules[6..]) == ApplyRules(s8, rules[7..]);
    var s9 := ReplaceAll(s8, "AO1", "AO1");
    ReplaceBySelf(s8, "AO1");
    ReplaceBySelf(s9, "AO0");
    assert rules[7..][1..][1..] == [];
  }

  lemma {:induction false} ApplyRulesSplit(s: string, rules: seq<(string, string)>, n: nat)
    requires ValidRules(rules) && n <= |rules|
    ensures ApplyRules(s, rules) == ApplyRules(ApplyRules(s, rules[..n]), rules[n..])
    decreases n
  {
    if n > 0 {
      assert rules[..n][1..] == rules[1..][..n - 1];
      assert rules[n..] == rules[1..][n - 1..];
      ApplyRulesSplit(ReplaceAll(s, rules[0].0, rules[0].1), rules[1..], n - 1);
    } else {
      assert rules[..0] == [] && rules[0..] == rules;
    }
  }

  /** Rules whose patterns start with a character the string lacks leave it unchanged. */
  lemma {:induction false} RulesAbsent(s: string, rules: seq<(string, string)>)
    requires ValidRules(rules)
    requires forall i | 0 <= i < |rules| :: rules[i].0[0] !in s
    ensures ApplyRules(s, rules) == s
    decreases |rules|
  {
    if rules != [] {
      ReplaceAbsent(s, rules[0].0, rules[0].1);
      RulesAbsent(s, rules[1..]);
    }
  }

  /** The last five rules leave an AO vowel alone. */
  lemma {:induction false} TailKeepsThought(v: string)
    requires v == "AO1" || v == "AO0"
    ensures ApplyRules(v, Mappings[4..]) == v
  {
    var m := Mappings;
    RulesAbsent(v, m[4..7]);
    ApplyRulesSplit(v, m[4..], 3);
    assert m[4..][..3] == m[4..7] && m[4..][3..] == m[7..];
    assert ApplyRules(v, m[4..7]) == v;
    ReplaceBySelf(v, "AO1");
    ReplaceBySelf(v, "AO0");
    assert m[7..][0] == ("AO1", "AO1") && m[7..][1..] == m[8..];
    assert m[8..][0] == ("AO0", "AO0") && m[8..][1..] == [];
    assert ApplyRules(v, m[8..]) == ApplyRules(v, []);
    assert ApplyRules(v, m[7..]) == ApplyRules(v, m[8..]);
  }

  /** The rules chain: a TRAP vowel is rewritten twice and ends as the THOUGHT vowel. */
  lemma TrapVowelEndsInThought()
    ensures ToBritish("AE1") == "AO1"
  {
    var m := Mappings;
    assert ReplaceAll("AE1", "AE1", "AA1") == "AA1";
    assert ReplaceAll("AA1", "AE0", "AA0") == "AA1";
    assert ReplaceAll("AA1", "AA1", "AO1") == "AO1";
    assert ReplaceAll("AO1", "AA0", "AO0") == "AO1";
    assert m[1..][1..] == m[2..] && m[2..][1..] == m[3..] && m[3..][1..] == m[4..];
    TailKeepsThought("AO1");
  }

  /** The same chain for the unstressed TRAP vowel. */
  lemma UnstressedTrapVowelEndsInThought()
    ensures ToBritish("AE0") == "AO0"
  {
    var m := Mappings;
    assert ReplaceAll("E0", "AE1", "AA1") == "E0";
    assert "AE0"[..3][2] != "AE1"[2];
    assert "AE0"[1..] == "E0";
    assert ReplaceAll("AE0", "AE1", "AA1") == "AE0";
    assert ReplaceAll("AE0", "AE0", "AA0") == "AA0";
    assert ReplaceAll("A0", "AA1", "AO1") == "A0";
    assert ReplaceAll("AA0", "AA1", "AO1") == "AA0";
    assert ReplaceAll("AA0", "AA0", "AO0") == "AO0";
    assert m[1..][1..] == m[2..] && m[2..][1..] == m[3..] && m[3..][1..] == m[4..];
    TailKeepsThought("AO0");
  }

  /** Phone strings without 'A', 'E' or 'R' are untouched. */
  lemma UntouchedWithoutRuleLetters(american: string)
    requires 'A' !in american && 'E' !in american && 'R' !in american
    ensures ToBritish(american) == american
  {
    RulesAbsent(american, Mappings);
  }

  // ---------------------------------------------------------------------------
  // The table as a single-pass lookup
  // ---------------------------------------------------------------------------

  predicate IsPrefix(p: string, s: string) {
    |p| <= |s| && s[..|p|] == p
  }

  /** Index of the first rule whose pattern starts `s`, or `|rules|` when none does. */
  function MatchIndex(s: string, rules: seq<(string, string)>): (r: nat)
    ensures r <= |rules|
    ensures r < |rules| ==> IsPrefix(rules[r].0, s)
    ensures forall j | 0 <= j < r :: !IsPrefix(rules[j].0, s)
    decreases |rules|
  {
    if rules == [] then 0
    else if IsPrefix(rules[0].0, s) then 0
    else
      var r := 1 + MatchIndex(s, rules[1..]);
      assert forall j | 1 <= j < r :: rules[j] == rules[1..][j - 1];
      r
  }

  /** Scans left to right; at each position the first matching rule fires and its output is never rewritten. */
  function Rewrite(s: string, rules: seq<(string, string)>): string
    requires ValidRules(rules)
    decreases |s|
  {
    if s == [] then []
    else
      var i := MatchIndex(s, rules);
      if i < |rules| then rules[i].1 + Rewrite(s[|rules[i].0|..], rules)
      else [s[0]] + Rewrite(s[1..], rules)
  }

  /** The conversion as the table describes it: every American phone replaced once by its British entry. */
  function ToBritishIntended(american: string): string {
    Rewrite(american, Mappings)
  }

  /** No replacement in the table contains 'R'. */
  lemma ReplacementsLackR()
    ensures forall i | 0 <= i < |Mappings| :: 'R' !in Mappings[i].1
  {
  }

  /** The single-pass conversion removes every 'R'. */
  lemma {:induction false} IntendedDropsR(american: string)
    ensures 'R' !in ToBritishIntended(american)
    decreases |american|
  {
    var s := american;
    if s != [] {
      var i := MatchIndex(s, Mappings);
      ReplacementsLackR();
      if i < |Mappings| {
        var rest := s[|Mappings[i].0|..];
        assert ToBritishIntended(s) == Mappings[i].1 + ToBritishIntended(rest);
        assert 'R' !in Mappings[i].1;
        IntendedDropsR(rest);
      } else {
        assert ToBritishIntended(s) == [s[0]] + ToBritishIntended(s[1..]);
        assert !IsPrefix(Mappings[6].0, s);
        assert s[0] != 'R';
        IntendedDropsR(s[1..]);
      }
    }
  }

  /** A pattern rewritten on its own gives its replacement when no earlier pattern starts it. */
  lemma {:induction false} PatternByItsEntry(rules: seq<(string, string)>, k: nat)
    requires ValidRules(rules) && k < |rules|
    requires forall j | 0 <= j < k :: !IsPrefix(rules[j].0, rules[k].0)
    ensures Rewrite(rules[k].0, rules) == rules[k].1
  {
    var s := rules[k].0;
    assert IsPrefix(s, s);
    var i := MatchIndex(s, rules);
    assert i == k;
    assert s[|s|..] == [];
    assert Rewrite([], rules) == [];
    assert rules[k].1 + [] == rules[k].1;
  }

  /** One phone of the table rewritten on its own gives its British entry. */
  lemma PhoneByItsEntry(k: nat)
    requires k < |Mappings|
    requires forall j | 0 <= j < k :: !IsPrefix(Mappings[j].0, Mappings[k].0)
    ensures ToBritishIntended(Mappings[k].0) == Mappings[k].1
  {
    PatternByItsEntry(Mappings, k);
  }

  /** The TRAP vowel becomes the BATH vowel and stays there. */
  lemma TrapVowelBecomesBath()
    ensures ToBritishIntended("AE1") == "AA1"
    ensures ToBritishIntended("AE0") == "AA0"
  {
    PhoneByItsEntry(0);
    assert !IsPrefix(Mappings[0].0, Mappings[1].0) by {
      assert Mappings[1].0[..3][2] != Mappings[0].0[2];
    }
    PhoneByItsEntry(1);
  }

  /** The LOT vowel becomes the THOUGHT vowel. */
  lemma LotVowelBecomesThought()
    ensures ToBritishIntended("AA1") == "AO1"
  {
    assert !IsPrefix(Mappings[0].0, Mappings[2].0) by {
      assert Mappings[2].0[..3][1] != Mappings[0].0[1];
    }
    assert !IsPrefix(Mappings[1].0, Mappings[2].0) by {
      assert Mappings[2].0[..3][1] != Mappings[1].0[1];
    }
    PhoneByItsEntry(2);
  }

  /** No pattern of the table starts a later pattern, so every entry is looked up by its own rule. */
  lemma NoEarlierPrefix(k: nat)
    requires k < |Mappings|
    ensures forall j | 0 <= j < k :: !IsPrefix(Mappings[j].0, Mappings[k].0)
  {
    forall j | 0 <= j < k
      ensures !IsPrefix(Mappings[j].0, Mappings[k].0)
    {
      var p, s := Mappings[j].0, Mappings[k].0;
      if |p| <= |s| {
        if |p| == 1 {
          assert s[..1][0] == s[0] != 'R';
        } else {
          assert s[..3] == s != p;
        }
      }
    }
  }

  /** Read as a lookup table: each American phone of the table converts to exactly its British entry. */
  lemma EveryEntryLooksUp(k: nat)
    requires k < |Mappings|
    ensures ToBritishIntended(Mappings[k].0) == Mappings[k].1
  {
    NoEarlierPrefix(k);
    PhoneByItsEntry(k);
  }
}
