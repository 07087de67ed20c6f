/** The Python string operations the post-processing relies on: `strip()`,
    `split('\n')[0]`, slicing `[:n]`, `split(sep, 1)` and `replace(pat, "")`. */
module Strings {
  import opened Ascii
  import opened Optional

  ghost predicate AllSpace(s: string) {
    forall i :: 0 <= i < |s| ==> IsSpace(s[i])
  }

  /** No whitespace at either end: the shape `str.strip()` returns. */
  predicate Trimmed(s: string) {
    s == [] || (!IsSpace(s[0]) && !IsSpace(s[|s| - 1]))
  }

  /** The length of the whitespace run that opens `s`. */
  function LeadingSpaces(s: string): (n: nat)
    ensures n <= |s|
    ensures forall i :: 0 <= i < n ==> IsSpace(s[i])
    ensures n == |s| || !IsSpace(s[n])
  {
    if s != [] && IsSpace(s[0]) then 1 + LeadingSpaces(s[1..]) else 0
  }

  /** The length of the whitespace run that closes `s`. */
  function TrailingSpaces(s: string): (n: nat)
    ensures n <= |s|
    ensures forall i :: |s| - n <= i < |s| ==> IsSpace(s[i])
    ensures n == |s| || !IsSpace(s[|s| - n - 1])
  {
    if s != [] && IsSpace(s[|s| - 1]) then 1 + TrailingSpaces(s[..|s| - 1]) else 0
  }

  /** `str.strip()` with no argument: whitespace removed from both ends. */
  function Trim(s: string): (r: string)
    ensures Trimmed(r)
    ensures |r| <= |s|
    ensures forall c :: c in r ==> c in s
    ensures r == [] <==> AllSpace(s)
    ensures Trimmed(s) ==> r == s
  {
    var t := s[LeadingSpaces(s)..];
    t[..|t| - TrailingSpaces(t)]
  }

  /** Stripping undoes whitespace padding of a trimmed text. */
  lemma TrimPadded(a: string, t: string, b: string)
    requires AllSpace(a) && AllSpace(b) && Trimmed(t)
    ensures Trim(a + t + b) == t
  {
    var s := a + t + b;
    if t == [] {
      assert s == a + b;
      assert AllSpace(s);
    } else {
      var n := LeadingSpaces(s);
      assert s[|a|] == t[0];
      assert n == |a|;
      var u := s[n..];
      assert u == t + b;
      var m := TrailingSpaces(u);
      assert u[|t| - 1] == t[|t| - 1];
      assert m == |b|;
      assert u[..|u| - m] == t;
    }
  }

  /** `s.split('\n')[0]`: the text before the first line feed. */
  function FirstLine(s: string): (r: string)
    ensures r <= s
    ensures '\n' !in r
    ensures |r| == |s| || s[|r|] == '\n'
  {
    if s == [] || s[0] == '\n' then [] else [s[0]] + FirstLine(s[1..])
  }

  /** A text without a line feed is its own first line. */
  lemma FirstLineOfOneLine(x: string)
    requires '\n' !in x
    ensures FirstLine(x) == x
  {
  }

  /** The slice `s[:n]`. */
  function Truncate(s: string, n: nat): (r: string)
    ensures r <= s
    ensures |r| <= n
    ensures |r| == n || r == s
  {
    if |s| <= n then s else s[..n]
  }

  predicate OccursAt(s: string, pat: string, i: nat) {
    i + |pat| <= |s| && s[i..i + |pat|] == pat
  }

  ghost predicate Absent(s: string, pat: string) {
    forall i: nat :: !OccursAt(s, pat, i)
  }

  /** The position of the first occurrence of `pat` in `s` at or after `k`. */
  function IndexFrom(s: string, pat: string, k: nat): (r: Option<nat>)
    requires k <= |s|
    ensures r.Some? ==> k <= r.value && OccursAt(s, pat, r.value)
    ensures r.Some? ==> forall j: nat :: k <= j < r.value ==> !OccursAt(s, pat, j)
    ensures r.None? ==> forall j: nat :: k <= j ==> !OccursAt(s, pat, j)
    decreases |s| - k
  {
    if OccursAt(s, pat, k) then Some(k)
    else if k + |pat| >= |s| then None
    else IndexFrom(s, pat, k + 1)
  }

  /** The position `str.split(pat, 1)` splits at: the first occurrence. */
  function IndexOf(s: string, pat: string): (r: Option<nat>)
    ensures r.Some? ==> OccursAt(s, pat, r.value)
    ensures r.Some? ==> forall j: nat :: j < r.value ==> !OccursAt(s, pat, j)
    ensures r.None? <==> Absent(s, pat)
  {
    IndexFrom(s, pat, 0)
  }

  /** `s.replace(pat, "")`: deletes the occurrences of `pat` met scanning
      left to right, an occurrence resuming the scan just after itself. */
  function RemoveAll(s: string, pat: string): (r: string)
    requires pat != []
    ensures |r| <= |s|
    decreases |s|
  {
    if s == [] then []
    else if pat <= s then RemoveAll(s[|pat|..], pat)
    else [s[0]] + RemoveAll(s[1..], pat)
  }

  /** A text without the pattern is left as it is. */
  lemma {:induction false} RemoveAllAbsent(s: string, pat: string)
    requires pat != [] && Absent(s, pat)
    ensures RemoveAll(s, pat) == s
    decreases |s|
  {
    if s != [] {
      assert !OccursAt(s, pat, 0);
      assert !(pat <= s);
      forall i: nat
        ensures !OccursAt(s[1..], pat, i)
      {
        if i + |pat| <= |s| - 1 {
          assert s[1..][i..i + |pat|] == s[i + 1..i + 1 + |pat|];
          assert !OccursAt(s, pat, i + 1);
        }
      }
      RemoveAllAbsent(s[1..], pat);
    }
  }

  /** The first occurrence is deleted wherever it stands: the text before
      it, in which no occurrence starts, is kept, and the deletion goes on
      after it. */
  lemma {:induction false} RemoveAllFirst(x: string, pat: string, y: string)
    requires pat != []
    requires forall j :: 0 <= j < |x| ==> !OccursAt(x + pat + y, pat, j)
    ensures RemoveAll(x + pat + y, pat) == x + RemoveAll(y, pat)
    decreases |x|
  {
    if x == [] {
      RemoveAllLeading(pat, y);
    } else {
      var s, t := x + pat + y, x[1..] + pat + y;
      assert !OccursAt(s, pat, 0);
      RemoveAllKeepsHead(s, pat);
      NoOccurrenceShifted(x, pat, y);
      RemoveAllFirst(x[1..], pat, y);
      assert s[1..] == t;
      assert [s[0]] + (x[1..] + RemoveAll(y, pat)) == x + RemoveAll(y, pat);
    }
  }

  lemma RemoveAllLeading(pat: string, y: string)
    requires pat != []
    ensures RemoveAll(pat + y, pat) == RemoveAll(y, pat)
  {
    assert (pat + y)[|pat|..] == y;
  }

  lemma RemoveAllKeepsHead(s: string, pat: string)
    requires pat != [] && s != [] && !OccursAt(s, pat, 0)
    ensures RemoveAll(s, pat) == [s[0]] + RemoveAll(s[1..], pat)
  {
  }

  lemma NoOccurrenceShifted(x: string, pat: string, y: string)
    requires x != []
    requires forall j :: 0 <= j < |x| ==> !OccursAt(x + pat + y, pat, j)
    ensures forall j :: 0 <= j < |x| - 1 ==> !OccursAt(x[1..] + pat + y, pat, j)
  {
    var s, t := x + pat + y, x[1..] + pat + y;
    forall j | 0 <= j < |x| - 1
      ensures !OccursAt(t, pat, j)
    {
      assert !OccursAt(s, pat, j + 1);
      if j + |pat| <= |t| {
        assert t[j..j + |pat|] == s[j + 1..j + 1 + |pat|];
      }
    }
  }

  /** The characters of `s` that do not appear in `alphabet`, in order. */
  function Sans(s: string, alphabet: string): (r: string)
    ensures |r| <= |s|
    ensures forall c :: c in r ==> c in s && c !in alphabet
  {
    if s == [] then []
    else (if s[0] in alphabet then [] else [s[0]]) + Sans(s[1..], alphabet)
  }

  lemma {:induction false} SansConcat(a: string, b: string, alphabet: string)
    ensures Sans(a + b, alphabet) == Sans(a, alphabet) + Sans(b, alphabet)
    decreases |a|
  {
    if a != [] {
      assert (a + b)[1..] == a[1..] + b;
      SansConcat(a[1..], b, alphabet);
    } else {
      assert a + b == b;
    }
  }

  lemma {:induction false} SansOfOwnLetters(a: string, alphabet: string)
    requires forall c :: c in a ==> c in alphabet
    ensures Sans(a, alphabet) == []
    decreases |a|
  {
    if a != [] {
      assert a[0] in a;
      SansOfOwnLetters(a[1..], alphabet);
    }
  }

  /** Deleting occurrences of `pat` never touches a character that is not
      in `pat`: those all survive, in their original order. */
  lemma {:induction false} RemoveAllKeepsOthers(s: string, pat: string)
    requires pat != []
    ensures Sans(RemoveAll(s, pat), pat) == Sans(s, pat)
    decreases |s|
  {
    if s == [] {
    } else if pat <= s {
      var rest := s[|pat|..];
      assert s == pat + rest;
      SansConcat(pat, rest, pat);
      SansOfOwnLetters(pat, pat);
      RemoveAllKeepsOthers(rest, pat);
    } else {
      assert s == [s[0]] + s[1..];
      SansConcat([s[0]], s[1..], pat);
      SansConcat([s[0]], RemoveAll(s[1..], pat), pat);
      RemoveAllKeepsOthers(s[1..], pat);
    }
  }

  /** An occurrence that covers the position of `c` contains `c`. */
  lemma Straddle(a: string, c: char, b: string, pat: string, i: nat)
    ensures OccursAt(a + [c] + b, pat, i) && i <= |a| < i + |pat| ==> c in pat
  {
    var s := a + [c] + b;
    if OccursAt(s, pat, i) && i <= |a| < i + |pat| {
      assert pat[|a| - i] == s[|a|];
    }
  }

  /** A pattern that avoids the character `c` cannot occur across it: every
      occurrence in `a + [c] + b` lies inside `a` or inside `b`. */
  lemma NotAcross(a: string, c: char, b: string, pat: string)
    requires c !in pat
    ensures forall i: nat :: OccursAt(a + [c] + b, pat, i) ==>
      (i + |pat| <= |a| && OccursAt(a, pat, i)) || (i > |a| && OccursAt(b, pat, i - |a| - 1))
  {
    var s := a + [c] + b;
    forall i: nat | OccursAt(s, pat, i)
      ensures (i + |pat| <= |a| && OccursAt(a, pat, i)) || (i > |a| && OccursAt(b, pat, i - |a| - 1))
    {
      if i + |pat| <= |a| {
        assert s[i..i + |pat|] == a[i..i + |pat|];
      } else if i <= |a| {
        Straddle(a, c, b, pat, i);
        assert false;
      } else {
        assert s[i..i + |pat|] == b[i - |a| - 1..i - |a| - 1 + |pat|];
      }
    }
  }

  lemma AbsentAcross(a: string, c: char, b: string, pat: string)
    requires c !in pat && Absent(a, pat) && Absent(b, pat)
    ensures Absent(a + [c] + b, pat)
  {
    NotAcross(a, c, b, pat);
  }
}
