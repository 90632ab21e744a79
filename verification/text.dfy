/**
 The string primitives the two scripts rely on: `str.split()`, `str.split(sep)`,
 `str.strip()`, `str.lower()`, `str.upper()` and filtering with `str.isalpha()`.
 Whitespace follows Python's `str.isspace` exactly; letters, digits and case
 mapping are restricted to ASCII.
 */
module Text {

  /** Python's `str.isspace`, which is what `split()` and `strip()` use. */
  predicate IsSpace(c: char) {
    var n := c as int;
    || (9 <= n <= 13) || (28 <= n <= 32) || n == 0x85 || n == 0xA0 || n == 0x1680
    || (0x2000 <= n <= 0x200A) || n == 0x2028 || n == 0x2029 || n == 0x202F
    || n == 0x205F || n == 0x3000
  }

  predicate IsUpper(c: char) { 'A' <= c <= 'Z' }

  /** ASCII approximation of `str.isalpha`. */
  predicate IsLetter(c: char) { 'a' <= c <= 'z' || IsUpper(c) }

  /** ASCII approximation of `str.isdigit`. */
  predicate IsDigit(c: char) { '0' <= c <= '9' }

  predicate NoSpace(s: string) {
    forall i | 0 <= i < |s| :: !IsSpace(s[i])
  }

  predicate AllSpace(s: string) {
    forall i | 0 <= i < |s| :: IsSpace(s[i])
  }

  predicate IsLowercase(s: string) {
    forall i | 0 <= i < |s| :: !IsUpper(s[i])
  }

  /** Neither starts nor ends with whitespace: what `strip()` leaves behind. */
  predicate IsStripped(s: string) {
    s == [] || (!IsSpace(s[0]) && !IsSpace(s[|s| - 1]))
  }

  function Max(a: int, b: int): int {
    if a < b then b else a
  }

  function LowerChar(c: char): (d: char)
    ensures !IsUpper(d)
    ensures IsLetter(c) <==> IsLetter(d)
    ensures IsSpace(c) <==> IsSpace(d)
  {
    if IsUpper(c) then (c as int + 32) as char else c
  }

  function UpperChar(c: char): char {
    if 'a' <= c <= 'z' then (c as int - 32) as char else c
  }

  function Lower(s: string): (r: string)
    ensures |r| == |s| && IsLowercase(r)
    ensures forall i | 0 <= i < |s| :: r[i] == LowerChar(s[i])
  {
    seq(|s|, i requires 0 <= i < |s| => LowerChar(s[i]))
  }

  function Upper(s: string): (r: string)
    ensures |r| == |s|
    ensures forall i | 0 <= i < |r| :: !('a' <= r[i] <= 'z')
    ensures forall i | 0 <= i < |s| :: r[i] == UpperChar(s[i])
  {
    seq(|s|, i requires 0 <= i < |s| => UpperChar(s[i]))
  }

  lemma LowerAppend(a: string, b: string)
    ensures Lower(a + b) == Lower(a) + Lower(b)
  {
  }

  /** `''.join(c for c in s if c.isalpha())`. */
  function Letters(s: string): (r: string)
    ensures |r| <= |s|
    ensures forall i | 0 <= i < |r| :: IsLetter(r[i]) && r[i] in s
    ensures (forall i | 0 <= i < |s| :: !IsLetter(s[i])) ==> r == []
    ensures (forall i | 0 <= i < |s| :: IsLetter(s[i])) ==> r == s
    ensures forall i | 0 <= i < |s| :: IsLetter(s[i]) ==> s[i] in r
  {
    if s == [] then []
    else
      var rest := Letters(s[1..]);
      assert forall c | c in s[1..] :: c in s;
      assert forall i | 1 <= i < |s| :: s[i] == s[1..][i - 1];
      (if IsLetter(s[0]) then [s[0]] else []) + rest
  }

  /** Letters are kept in order: cleaning a concatenation cleans each part. */
  lemma {:induction false} LettersAppend(a: string, b: string)
    ensures Letters(a + b) == Letters(a) + Letters(b)
  {
    if a == [] {
      assert a + b == b;
    } else {
      assert (a + b)[0] == a[0];
      assert (a + b)[1..] == a[1..] + b;
      LettersAppend(a[1..], b);
    }
  }

  /** One character is kept exactly when it is a letter. */
  lemma LettersOfChar(c: char)
    ensures Letters([c]) == if IsLetter(c) then [c] else []
  {
    assert [c][1..] == [];
  }

  /** Length of the leading run of non-whitespace characters. */
  function TokenLength(s: string): (n: nat)
    ensures n <= |s|
    ensures forall i | 0 <= i < n :: !IsSpace(s[i])
    ensures n < |s| ==> IsSpace(s[n])
  {
    if s == [] || IsSpace(s[0]) then 0 else 1 + TokenLength(s[1..])
  }

  /** `str.split()` with no separator: the maximal runs of non-whitespace characters. */
  function Words(s: string): (r: seq<string>)
    ensures forall i | 0 <= i < |r| :: |r[i]| > 0 && NoSpace(r[i])
    ensures forall i, j | 0 <= i < |r| && 0 <= j < |r[i]| :: r[i][j] in s
    ensures r == [] <==> AllSpace(s)
    decreases |s|
  {
    if s == [] then []
    else if IsSpace(s[0]) then
      var r := Words(s[1..]);
      assert forall c | c in s[1..] :: c in s;
      r
    else
      var n := TokenLength(s);
      var r := [s[..n]] + Words(s[n..]);
      assert forall c | c in s[..n] :: c in s;
      assert forall c | c in s[n..] :: c in s;
      r
  }

  lemma {:induction false} TokenLengthExtend(a: string, t: string)
    requires TokenLength(a) < |a| || (t != [] && IsSpace(t[0]))
    ensures TokenLength(a + t) == TokenLength(a)
    decreases |a|
  {
    if a == [] {
      assert a + t == t;
    } else if IsSpace(a[0]) {
      assert (a + t)[0] == a[0];
    } else {
      assert (a + t)[0] == a[0];
      assert (a + t)[1..] == a[1..] + t;
      TokenLengthExtend(a[1..], t);
    }
  }

  /** A single token splits into itself. */
  lemma WordsOfToken(w: string)
    requires w != [] && NoSpace(w)
    ensures Words(w) == [w]
  {
    assert TokenLength(w) == |w|;
    assert w[..|w|] == w;
    assert w[|w|..] == [];
  }

  /**
   Splitting text whose parts are separated by any whitespace character (a space, a
   tab, a no-break space) splits each part separately.
   */
  lemma {:induction false} WordsAppendSpace(a: string, c: char, b: string)
    requires IsSpace(c)
    ensures Words(a + [c] + b) == Words(a) + Words(b)
    decreases |a|
  {
    var s := a + [c] + b;
    if a == [] {
      assert s == [c] + b;
      assert s[1..] == b;
    } else if IsSpace(a[0]) {
      assert s[1..] == a[1..] + [c] + b;
      WordsAppendSpace(a[1..], c, b);
    } else {
      var n := TokenLength(a);
      TokenLengthExtend(a, [c] + b);
      assert s == a + ([c] + b);
      assert TokenLength(s) == n;
      assert s[..n] == a[..n];
      assert s[n..] == a[n..] + [c] + b;
      WordsAppendSpace(a[n..], c, b);
    }
  }

  /** Lower-casing, then splitting, a space join splits each part. */
  lemma WordsOfLowerJoin(a: string, b: string)
    ensures Words(Lower(a + [' '] + b)) == Words(Lower(a)) + Words(Lower(b))
  {
    LowerAppend(a + [' '], b);
    LowerAppend(a, [' ']);
    assert Lower([' ']) == [' '];
    WordsAppendSpace(Lower(a), ' ', Lower(b));
  }

  function TrimStart(s: string): (r: string)
    ensures r == [] || !IsSpace(r[0])
    ensures |r| <= |s| && r == s[|s| - |r|..]
    ensures forall i | 0 <= i < |s| - |r| :: IsSpace(s[i])
    ensures r == [] <==> AllSpace(s)
  {
    if s != [] && IsSpace(s[0]) then TrimStart(s[1..]) else s
  }

  function TrimEnd(s: string): (r: string)
    ensures r == [] || !IsSpace(r[|r| - 1])
    ensures |r| <= |s| && r == s[..|r|]
    ensures forall i | |r| <= i < |s| :: IsSpace(s[i])
    ensures r == [] <==> AllSpace(s)
  {
    if s != [] && IsSpace(s[|s| - 1]) then TrimEnd(s[..|s| - 1]) else s
  }

  /** `r` is `s[i..]` cut to `|r|` characters, with only whitespace cut on either side. */
  predicate TrimmedFrom(r: string, s: string, i: nat) {
    && i + |r| <= |s|
    && r == s[i..i + |r|]
    && AllSpace(s[..i])
    && AllSpace(s[i + |r|..])
  }

  /** `str.strip()`: the text between the leading and the trailing whitespace. */
  function Strip(s: string): (r: string)
    ensures IsStripped(r)
    ensures r == [] <==> AllSpace(s)
    ensures forall c | c in r :: c in s
  {
    var t := TrimStart(s);
    var r := TrimEnd(t);
    StripFacts(s, t, r);
    r
  }

  lemma StripFacts(s: string, t: string, r: string)
    requires t == TrimStart(s) && r == TrimEnd(t)
    ensures IsStripped(r)
    ensures forall c | c in r :: c in s
    ensures TrimmedFrom(r, s, |s| - |t|)
  {
    StrippedEnds(t, r);
    SliceOfSuffix(s, t, r);
  }

  lemma StrippedEnds(t: string, r: string)
    requires r == TrimEnd(t) && (t == [] || !IsSpace(t[0]))
    ensures IsStripped(r)
  {
    if r != [] {
      assert r[0] == t[0];
    }
  }

  /** Stripping cuts whitespace, and only whitespace, from both ends: the rest is kept as it is. */
  lemma StripIsTrimmed(s: string)
    ensures exists i: nat :: TrimmedFrom(Strip(s), s, i)
  {
    var t := TrimStart(s);
    StripFacts(s, t, TrimEnd(t));
    assert Strip(s) == TrimEnd(t);
    assert TrimmedFrom(Strip(s), s, |s| - |t|);
  }

  /** A prefix `r` of a suffix `t` of `s` is a slice of `s`. */
  lemma SliceOfSuffix(s: string, t: string, r: string)
    requires |t| <= |s| && t == s[|s| - |t|..]
    requires |r| <= |t| && r == t[..|r|]
    requires forall i | 0 <= i < |s| - |t| :: IsSpace(s[i])
    requires forall i | |r| <= i < |t| :: IsSpace(t[i])
    ensures TrimmedFrom(r, s, |s| - |t|)
    ensures forall c | c in r :: c in s
  {
    var i := |s| - |t|;
    assert r == s[i..i + |r|];
    assert s[i + |r|..] == t[|r|..];
    assert forall k | 0 <= k < |s[..i]| :: s[..i][k] == s[k];
    forall c | c in r
      ensures c in s
    {
      var k :| 0 <= k < |r| && r[k] == c;
      assert s[i + k] == c;
    }
  }

  /** Whitespace in front does not change what `TrimStart` leaves. */
  lemma {:induction false} TrimStartAfterSpace(pre: string, x: string)
    requires AllSpace(pre)
    ensures TrimStart(pre + x) == TrimStart(x)
  {
    if pre != [] {
      assert (pre + x)[0] == pre[0];
      assert (pre + x)[1..] == pre[1..] + x;
      TrimStartAfterSpace(pre[1..], x);
    } else {
      assert pre + x == x;
    }
  }

  /** Whitespace behind does not change what `TrimEnd` leaves. */
  lemma {:induction false} TrimEndBeforeSpace(x: string, post: string)
    requires AllSpace(post)
    ensures TrimEnd(x + post) == TrimEnd(x)
    decreases |post|
  {
    if post != [] {
      var shorter := post[..|post| - 1];
      assert (x + post)[|x + post| - 1] == post[|post| - 1];
      assert (x + post)[..|x + post| - 1] == x + shorter;
      TrimEndBeforeSpace(x, shorter);
    } else {
      assert x + post == x;
    }
  }

  /** Stripping a stripped text padded with whitespace gives back the text. */
  lemma StripPadded(pre: string, t: string, post: string)
    requires AllSpace(pre) && AllSpace(post) && IsStripped(t)
    ensures Strip(pre + t + post) == t
  {
    assert pre + t + post == pre + (t + post);
    TrimStartAfterSpace(pre, t + post);
    TrimEndBeforeSpace(t, post);
    if t == [] {
      assert t + post == post;
    } else {
      assert (t + post)[0] == t[0];
    }
  }

  /** Lower-casing keeps a stripped text stripped. */
  lemma LowerKeepsStripped(s: string)
    requires IsStripped(s)
    ensures IsStripped(Lower(s))
  {
    if s != [] {
      assert Lower(s)[0] == LowerChar(s[0]);
      assert Lower(s)[|s| - 1] == LowerChar(s[|s| - 1]);
    }
  }

  lemma StripStripped(s: string)
    requires IsStripped(s)
    ensures Strip(s) == s
  {
  }

  /** `str.split(sep)`: the pieces between separators, empty pieces included. */
  function SplitOn(s: string, sep: char): (r: seq<string>)
    ensures |r| >= 1
    ensures forall i | 0 <= i < |r| :: sep !in r[i]
  {
    if s == [] then [[]]
    else
      var rest := SplitOn(s[1..], sep);
      if s[0] == sep then [[]] + rest
      else [[s[0]] + rest[0]] + rest[1..]
  }

  /** `sep.join(parts)`. */
  function Join(parts: seq<string>, sep: char): string {
    if parts == [] then []
    else if |parts| == 1 then parts[0]
    else parts[0] + [sep] + Join(parts[1..], sep)
  }

  /** Joining the pieces back with the separator restores the original text. */
  lemma {:induction false} JoinSplitOn(s: string, sep: char)
    ensures Join(SplitOn(s, sep), sep) == s
  {
    if s != [] {
      var rest := SplitOn(s[1..], sep);
      JoinSplitOn(s[1..], sep);
      if s[0] == sep {
        assert SplitOn(s, sep)[1..] == rest;
      } else {
        var parts := SplitOn(s, sep);
        if |rest| == 1 {
          assert parts == [[s[0]] + rest[0]];
        } else {
          assert parts[1..] == rest[1..];
          assert Join(rest, sep) == rest[0] + [sep] + Join(rest[1..], sep);
        }
      }
    }
  }

  lemma {:induction false} SplitOnWithoutSep(a: string, sep: char)
    requires sep !in a
    ensures SplitOn(a, sep) == [a]
  {
    if a != [] {
      assert a[0] != sep && sep !in a[1..];
      SplitOnWithoutSep(a[1..], sep);
      assert [a[0]] + a[1..] == a;
    }
  }

  lemma {:induction false} SplitOnAfterPiece(a: string, b: string, sep: char)
    requires sep !in a
    ensures SplitOn(a + [sep] + b, sep) == [a] + SplitOn(b, sep)
  {
    var s := a + [sep] + b;
    if a == [] {
      assert s[1..] == b;
    } else {
      assert s[0] == a[0] && a[0] != sep && sep !in a[1..];
      assert s[1..] == a[1..] + [sep] + b;
      SplitOnAfterPiece(a[1..], b, sep);
      assert [a[0]] + a[1..] == a;
    }
  }

  /** Splitting at one separator splits the text before it and the text after it separately. */
  lemma {:induction false} SplitOnAtSep(a: string, b: string, sep: char)
    ensures SplitOn(a + [sep] + b, sep) == SplitOn(a, sep) + SplitOn(b, sep)
  {
    var s := a + [sep] + b;
    if a == [] {
      assert s == [sep] + b && s[1..] == b;
    } else {
      assert s[0] == a[0];
      assert s[1..] == a[1..] + [sep] + b;
      SplitOnAtSep(a[1..], b, sep);
    }
  }

  /** Splitting text built by joining separator-free pieces gives back the pieces. */
  lemma {:induction false} SplitOnJoin(parts: seq<string>, sep: char)
    requires parts != []
    requires forall i | 0 <= i < |parts| :: sep !in parts[i]
    ensures SplitOn(Join(parts, sep), sep) == parts
  {
    if |parts| == 1 {
      SplitOnWithoutSep(parts[0], sep);
    } else {
      SplitOnJoin(parts[1..], sep);
      SplitOnAfterPiece(parts[0], Join(parts[1..], sep), sep);
    }
  }
}
