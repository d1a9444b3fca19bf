/** The two string operations the scripts rely on: Python's substring test
    `k in s` and `str.replace`, which rewrites every occurrence. */
module Text {

  /** `k` occurs in `s` starting at index `i`. */
  predicate OccursAt(s: string, k: string, i: int)
  {
    0 <= i && i + |k| <= |s| && s[i..i + |k|] == k
  }

  /** Python's `k in s`; the empty string occurs in every string. A text
      contains nothing longer than itself. */
  predicate Contains(s: string, k: string)
    ensures Contains(s, k) ==> |k| <= |s|
  {
    exists i | 0 <= i <= |s| :: OccursAt(s, k, i)
  }

  /** A string occurs in any text that has it as an infix. */
  lemma ContainsInfix(a: string, k: string, b: string)
    ensures Contains(a + k + b, k)
  {
    var s := a + k + b;
    assert s[|a|..|a| + |k|] == k;
    assert OccursAt(s, k, |a|);
  }

  /** An occurrence inside an occurrence is an occurrence. */
  lemma ContainsTransitive(s: string, m: string, k: string)
    requires Contains(s, m) && Contains(m, k)
    ensures Contains(s, k)
  {
    var i :| 0 <= i <= |s| && OccursAt(s, m, i);
    var j :| 0 <= j <= |m| && OccursAt(m, k, j);
    forall x | 0 <= x < |k|
      ensures s[i + j..i + j + |k|][x] == k[x]
    {
      assert k[x] == m[j..j + |k|][x] == m[j + x];
      assert m[j + x] == s[i..i + |m|][j + x] == s[i + j + x];
    }
    assert s[i + j..i + j + |k|] == k;
    assert OccursAt(s, k, i + j);
  }

  /** Whatever occurs in a piece of a text occurs in the text. */
  lemma ContainsWithin(a: string, m: string, b: string, k: string)
    requires Contains(m, k)
    ensures Contains(a + m + b, k)
  {
    ContainsInfix(a, m, b);
    ContainsTransitive(a + m + b, m, k);
  }

  /** The pieces of a text, joined without separator (an f-string). */
  function Concat(parts: seq<string>): string
  {
    if parts == [] then "" else parts[0] + Concat(parts[1..])
  }

  /** Whatever occurs in one piece occurs in the joined text. */
  lemma {:induction false} ConcatContains(parts: seq<string>, i: int, k: string)
    requires 0 <= i < |parts| && Contains(parts[i], k)
    ensures Contains(Concat(parts), k)
  {
    if i == 0 {
      ContainsWithin("", parts[0], Concat(parts[1..]), k);
      assert "" + parts[0] + Concat(parts[1..]) == Concat(parts);
    } else {
      ConcatContains(parts[1..], i - 1, k);
      ContainsWithin(parts[0], Concat(parts[1..]), "", k);
      assert parts[0] + Concat(parts[1..]) + "" == Concat(parts);
    }
  }

  /** Joining two runs of pieces is joining each and concatenating. */
  lemma {:induction false} ConcatAppend(a: seq<string>, b: seq<string>)
    ensures Concat(a + b) == Concat(a) + Concat(b)
  {
    if a != [] {
      ConcatAppend(a[1..], b);
      assert (a + b)[1..] == a[1..] + b;
    } else {
      assert a + b == b;
    }
  }

  lemma ContainsSelf(k: string)
    ensures Contains(k, k)
  {
    assert OccursAt(k, k, 0);
  }

  /** Python's `s.replace(pat, rep)`: scanning left to right, every
      non-overlapping occurrence of `pat` is replaced by `rep`. With an empty
      pattern Python inserts `rep` before every character and at the end.
      A replacement no longer than the pattern never lengthens the text. */
  function ReplaceAll(s: string, pat: string, rep: string): (r: string)
    ensures pat != [] && |rep| <= |pat| ==> |r| <= |s|
    decreases |s|
  {
    if pat == [] then
      (if s == [] then rep else rep + [s[0]] + ReplaceAll(s[1..], pat, rep))
    else if pat <= s then
      rep + ReplaceAll(s[|pat|..], pat, rep)
    else if s == [] then
      []
    else
      [s[0]] + ReplaceAll(s[1..], pat, rep)
  }

  /** With nothing to replace, the text is unchanged. */
  lemma {:induction false} ReplaceAllAbsent(s: string, pat: string, rep: string)
    requires pat != [] && !Contains(s, pat)
    ensures ReplaceAll(s, pat, rep) == s
    decreases |s|
  {
    if pat <= s {
      assert OccursAt(s, pat, 0);
    } else if s != [] {
      if Contains(s[1..], pat) {
        var i :| 0 <= i <= |s[1..]| && OccursAt(s[1..], pat, i);
        assert s[i + 1..i + 1 + |pat|] == s[1..][i..i + |pat|];
        assert OccursAt(s, pat, i + 1);
      }
      ReplaceAllAbsent(s[1..], pat, rep);
    }
  }

  /** Up to the first replacement the output copies the text: a prefix of
      the output without `rep`'s first character is a prefix of `s`. */
  lemma {:induction false} ReplaceAllKeepsPrefix(s: string, pat: string, rep: string, w: string)
    requires pat != [] && rep != []
    requires forall j :: 0 <= j < |w| ==> w[j] != rep[0]
    ensures w <= ReplaceAll(s, pat, rep) ==> w <= s
    decreases |s|
  {
    var out := ReplaceAll(s, pat, rep);
    if w == [] {
    } else if pat <= s {
      assert out[0] == rep[0] != w[0];
    } else if s != [] {
      var x := ReplaceAll(s[1..], pat, rep);
      assert out == [s[0]] + x;
      forall j | 0 <= j < |w[1..]|
        ensures w[1..][j] != rep[0]
      {
        assert w[1..][j] == w[j + 1];
      }
      ReplaceAllKeepsPrefix(s[1..], pat, rep, w[1..]);
      if w <= out {
        assert w[1..] == out[1..|w|] == x[..|w| - 1];
        assert w == [s[0]] + s[1..][..|w| - 1] == s[..|w|];
      }
    }
  }

  /** A pattern that cannot start inside `rep` occurs in `rep + x` only
      where it occurs in `x`. */
  lemma NoOccurrenceAfterReplacement(rep: string, x: string, pat: string, k: nat)
    requires k < |rep| && k < |pat| && rep[k] != pat[k]
    requires forall j :: 1 <= j < |rep| ==> rep[j] != pat[0]
    requires !Contains(x, pat)
    ensures !Contains(rep + x, pat)
  {
    var out := rep + x;
    forall i | 0 <= i <= |out|
      ensures !OccursAt(out, pat, i)
    {
      if i + |pat| > |out| {
      } else if i == 0 {
        assert out[i..i + |pat|][k] == rep[k];
      } else if i < |rep| {
        assert out[i..i + |pat|][0] == rep[i];
      } else {
        assert out[i..i + |pat|] == x[i - |rep|..i - |rep| + |pat|];
        assert !OccursAt(x, pat, i - |rep|);
      }
    }
  }

  /** A pattern occurs in `[c] + x` only where it occurs in `x`, unless it
      starts with `c` and the rest of it starts `x`. */
  lemma NoOccurrenceAfterCharacter(c: char, x: string, pat: string)
    requires pat != [] && !Contains(x, pat)
    requires c == pat[0] ==> !(pat[1..] <= x)
    ensures !Contains([c] + x, pat)
  {
    var out := [c] + x;
    forall i | 0 <= i <= |out|
      ensures !OccursAt(out, pat, i)
    {
      if i + |pat| > |out| {
      } else if i == 0 {
        assert out[..|pat|] == [c] + x[..|pat| - 1];
        assert c == pat[0] ==> pat[1..] != x[..|pat| - 1];
      } else {
        assert out[i..i + |pat|] == x[i - 1..i - 1 + |pat|];
        assert !OccursAt(x, pat, i - 1);
      }
    }
  }

  /** Every occurrence is replaced, and no new one appears, when the pattern
      and its replacement cannot overlap: each starts with a character found
      nowhere else in either, and the replacement is not a prefix of the
      pattern. */
  lemma {:induction false} ReplaceAllRemovesPattern(s: string, pat: string, rep: string, k: nat)
    requires pat != [] && rep != [] && k < |rep| && k < |pat| && rep[k] != pat[k]
    requires forall j :: 1 <= j < |pat| ==> pat[j] != rep[0]
    requires forall j :: 1 <= j < |rep| ==> rep[j] != pat[0]
    ensures !Contains(ReplaceAll(s, pat, rep), pat)
    decreases |s|
  {
    if pat <= s {
      ReplaceAllRemovesPattern(s[|pat|..], pat, rep, k);
      NoOccurrenceAfterReplacement(rep, ReplaceAll(s[|pat|..], pat, rep), pat, k);
    } else if s != [] {
      ReplaceAllRemovesPattern(s[1..], pat, rep, k);
      if s[0] == pat[0] {
        assert pat == [pat[0]] + pat[1..] && s == [s[0]] + s[1..];
        assert !(pat[1..] <= s[1..]);
        ReplaceAllKeepsPrefix(s[1..], pat, rep, pat[1..]);
      }
      NoOccurrenceAfterCharacter(s[0], ReplaceAll(s[1..], pat, rep), pat);
    }
  }
}
