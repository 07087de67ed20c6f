/** `clean_response` (app.py:86-87): the substitution
    `re.sub(r'\*{2,}|_{2,}', '', text)` followed by `strip()`. The regex is
    tried at each position from left to right; at the first character of a
    run of two or more equal markers it consumes the whole run, so every
    maximal run of two or more `*`, and every such run of `_`, disappears.
    Deleting a run can bring other markers together (`*__*` becomes `**`);
    the substitution does not look at its own output again. */
module Clean {
  import opened Ascii
  import opened Strings

  /** The emphasis characters of markdown. */
  predicate IsMarker(c: char) { c == '*' || c == '_' }

  /** The number of copies of `c` that open `s`. */
  function RunLength(s: string, c: char): (n: nat)
    ensures n <= |s|
    ensures forall i :: 0 <= i < n ==> s[i] == c
    ensures n == |s| || s[n] != c
  {
    if s != [] && s[0] == c then 1 + RunLength(s[1..], c) else 0
  }

  /** The substitution step, as the regex engine scans: a marker that opens
      a run of two or more equal markers removes the whole run; any other
      character is copied. */
  function StripEmphasis(s: string): (r: string)
    ensures |r| <= |s|
    decreases |s|
  {
    if s == [] then []
    else if IsMarker(s[0]) && RunLength(s, s[0]) >= 2 then StripEmphasis(s[RunLength(s, s[0])..])
    else [s[0]] + StripEmphasis(s[1..])
  }

  /** `clean_response`: markers stripped, then whitespace trimmed. */
  function CleanResponse(text: string): (r: string)
    ensures Trimmed(r)
    ensures |r| <= |text|
  {
    Trim(StripEmphasis(text))
  }

  // A reference definition position by position: a character is deleted
  // exactly when it is a marker with an equal neighbour, that is when it
  // belongs to a maximal run of two or more equal markers.

  predicate Kept(s: string, i: nat)
    requires i < |s|
  {
    !IsMarker(s[i]) || ((i == 0 || s[i - 1] != s[i]) && (i + 1 == |s| || s[i + 1] != s[i]))
  }

  /** The kept characters of `s` from position `k` on, in order. */
  function KeptFrom(s: string, k: nat): (r: string)
    requires k <= |s|
    ensures |r| <= |s| - k
    decreases |s| - k
  {
    if k == |s| then [] else (if Kept(s, k) then [s[k]] else []) + KeptFrom(s, k + 1)
  }

  /** Position `k` does not sit in the middle of a run of markers. */
  predicate RunBoundary(s: string, k: nat)
    requires k <= |s|
  {
    k == 0 || k == |s| || s[k - 1] != s[k] || !IsMarker(s[k])
  }

  lemma {:induction false} SkipDeletedRun(s: string, k: nat, n: nat, j: nat)
    requires k + n <= |s| && n >= 2 && k <= j <= k + n
    requires IsMarker(s[k]) && forall i :: k <= i < k + n ==> s[i] == s[k]
    ensures KeptFrom(s, j) == KeptFrom(s, k + n)
    decreases k + n - j
  {
    if j < k + n {
      if j + 1 < k + n {
        assert s[j + 1] == s[j];
      } else {
        assert s[j - 1] == s[j];
      }
      assert !Kept(s, j);
      SkipDeletedRun(s, k, n, j + 1);
    }
  }

  lemma {:induction false} StripSuffix(s: string, k: nat)
    requires k <= |s| && RunBoundary(s, k)
    ensures StripEmphasis(s[k..]) == KeptFrom(s, k)
    decreases |s| - k, 1
  {
    if k < |s| {
      if IsMarker(s[k]) && RunLength(s[k..], s[k]) >= 2 {
        StripSuffixAtRun(s, k);
      } else {
        StripSuffixAtSingle(s, k);
      }
    }
  }

  lemma {:induction false} StripSuffixAtRun(s: string, k: nat)
    requires k < |s| && IsMarker(s[k]) && RunLength(s[k..], s[k]) >= 2
    ensures StripEmphasis(s[k..]) == KeptFrom(s, k)
    decreases |s| - k, 0
  {
    var n := RunLength(s[k..], s[k]);
    StripRun(s, k, n);
    StripSuffix(s, k + n);
  }

  lemma {:induction false} StripSuffixAtSingle(s: string, k: nat)
    requires k < |s| && RunBoundary(s, k)
    requires !(IsMarker(s[k]) && RunLength(s[k..], s[k]) >= 2)
    ensures StripEmphasis(s[k..]) == KeptFrom(s, k)
    decreases |s| - k, 0
  {
    StripSingle(s, k);
    StripSuffix(s, k + 1);
  }

  /** One step of `StripSuffix` at a run of two or more markers. */
  lemma StripRun(s: string, k: nat, n: nat)
    requires k < |s| && IsMarker(s[k]) && n == RunLength(s[k..], s[k]) && n >= 2
    ensures k + n <= |s| && RunBoundary(s, k + n)
    ensures StripEmphasis(s[k..]) == StripEmphasis(s[k + n..])
    ensures KeptFrom(s, k) == KeptFrom(s, k + n)
  {
    var t := s[k..];
    assert forall i :: k <= i < k + n ==> s[i] == t[i - k];
    SkipDeletedRun(s, k, n, k);
    assert t[n..] == s[k + n..];
    assert k + n < |s| ==> s[k + n] == t[n] && s[k + n - 1] == t[n - 1];
  }

  /** One step of `StripSuffix` at a character the substitution copies. */
  lemma StripSingle(s: string, k: nat)
    requires k < |s| && RunBoundary(s, k)
    requires !(IsMarker(s[k]) && RunLength(s[k..], s[k]) >= 2)
    ensures RunBoundary(s, k + 1)
    ensures StripEmphasis(s[k..]) == [s[k]] + StripEmphasis(s[k + 1..])
    ensures KeptFrom(s, k) == [s[k]] + KeptFrom(s, k + 1)
  {
    var t := s[k..];
    assert t[1..] == s[k + 1..];
    if IsMarker(s[k]) {
      assert RunLength(t, s[k]) == 1;
      assert k + 1 < |s| ==> s[k + 1] == t[1];
    }
    assert Kept(s, k);
  }

  /** The substitution deletes exactly the characters that belong to a run
      of two or more equal markers, and keeps every other character in
      order. */
  lemma StripEmphasisDeletesRuns(s: string)
    ensures StripEmphasis(s) == KeptFrom(s, 0)
  {
    assert s[0..] == s;
    StripSuffix(s, 0);
  }

  /** No marker stands next to an equal marker. */
  predicate NoDoubledMarkers(s: string) {
    forall i :: 0 <= i < |s| - 1 ==> !(IsMarker(s[i]) && s[i + 1] == s[i])
  }

  lemma {:induction false} KeptFromAll(s: string, k: nat)
    requires k <= |s| && NoDoubledMarkers(s)
    ensures KeptFrom(s, k) == s[k..]
    decreases |s| - k
  {
    if k < |s| {
      assert Kept(s, k);
      KeptFromAll(s, k + 1);
    }
  }

  lemma {:induction false} KeptFromShorter(s: string, k: nat, i: nat)
    requires k <= i < |s| && !Kept(s, i)
    ensures |KeptFrom(s, k)| < |s| - k
    decreases |s| - k
  {
    if k < i {
      KeptFromShorter(s, k + 1, i);
    }
  }

  /** The substitution leaves a text unchanged exactly when no marker in it
      is doubled. */
  lemma StripEmphasisIdentity(s: string)
    ensures StripEmphasis(s) == s <==> NoDoubledMarkers(s)
  {
    StripEmphasisDeletesRuns(s);
    if NoDoubledMarkers(s) {
      KeptFromAll(s, 0);
    } else {
      var i :| 0 <= i < |s| - 1 && IsMarker(s[i]) && s[i + 1] == s[i];
      assert !Kept(s, i);
      KeptFromShorter(s, 0, i);
    }
  }

  /** Cleaning leaves a text unchanged when no marker in it is doubled and
      it has no whitespace at either end. */
  lemma CleanUnchanged(s: string)
    requires NoDoubledMarkers(s) && Trimmed(s)
    ensures CleanResponse(s) == s
  {
    StripEmphasisIdentity(s);
  }

  /** The characters cleaning never deletes: neither markers nor whitespace. */
  predicate IsContent(c: char) { !IsMarker(c) && !IsSpace(c) }

  /** The content characters of `s`, in order. */
  function Content(s: string): (r: string)
    ensures |r| <= |s|
    ensures forall c :: c in r ==> IsContent(c)
  {
    if s == [] then [] else (if IsContent(s[0]) then [s[0]] else []) + Content(s[1..])
  }

  lemma {:induction false} ContentConcat(a: string, b: string)
    ensures Content(a + b) == Content(a) + Content(b)
    decreases |a|
  {
    if a == [] {
      assert a + b == b;
    } else {
      assert (a + b)[1..] == a[1..] + b;
      ContentConcat(a[1..], b);
    }
  }

  lemma {:induction false} ContentOfNoContent(a: string)
    requires forall i :: 0 <= i < |a| ==> !IsContent(a[i])
    ensures Content(a) == []
    decreases |a|
  {
    if a != [] {
      ContentOfNoContent(a[1..]);
    }
  }

  lemma {:induction false} StripKeepsContent(s: string)
    ensures Content(StripEmphasis(s)) == Content(s)
    decreases |s|
  {
    if s != [] {
      if IsMarker(s[0]) && RunLength(s, s[0]) >= 2 {
        var n := RunLength(s, s[0]);
        assert s == s[..n] + s[n..];
        ContentConcat(s[..n], s[n..]);
        ContentOfNoContent(s[..n]);
        StripKeepsContent(s[n..]);
      } else {
        assert s == [s[0]] + s[1..];
        ContentConcat([s[0]], s[1..]);
        ContentConcat([s[0]], StripEmphasis(s[1..]));
        StripKeepsContent(s[1..]);
      }
    }
  }

  lemma DropSpacesKeepsContent(s: string, n: nat)
    requires n <= |s|
    requires forall i :: 0 <= i < n ==> IsSpace(s[i])
    ensures Content(s[n..]) == Content(s)
  {
    var a, b := s[..n], s[n..];
    PrependBlank(a, b);
    assert a + b == s;
  }

  lemma TakeSpacesKeepsContent(t: string, k: nat)
    requires k <= |t|
    requires forall i :: k <= i < |t| ==> IsSpace(t[i])
    ensures Content(t[..k]) == Content(t)
  {
    var a, b := t[..k], t[k..];
    SuffixOfSpaces(t, k);
    AppendBlank(a, b);
    assert a + b == t;
  }

  /** Text without content characters adds nothing in front of `b`. */
  lemma PrependBlank(a: string, b: string)
    requires forall i :: 0 <= i < |a| ==> !IsContent(a[i])
    ensures Content(a + b) == Content(b)
  {
    ContentConcat(a, b);
    ContentOfNoContent(a);
  }

  /** Text without content characters adds nothing after `a`. */
  lemma AppendBlank(a: string, b: string)
    requires forall i :: 0 <= i < |b| ==> !IsContent(b[i])
    ensures Content(a + b) == Content(a)
  {
    ContentConcat(a, b);
    ContentOfNoContent(b);
    assert Content(a) + [] == Content(a);
  }

  lemma SuffixOfSpaces(t: string, k: nat)
    requires k <= |t|
    requires forall i :: k <= i < |t| ==> IsSpace(t[i])
    ensures forall i :: 0 <= i < |t[k..]| ==> IsSpace(t[k..][i])
  {
    var b := t[k..];
    assert forall i :: 0 <= i < |b| ==> b[i] == t[k + i];
  }

  lemma TrimKeepsContent(s: string)
    ensures Content(Trim(s)) == Content(s)
  {
    var n := LeadingSpaces(s);
    var t := s[n..];
    DropSpacesKeepsContent(s, n);
    TakeSpacesKeepsContent(t, |t| - TrailingSpaces(t));
  }

  /** Every character that is neither a marker nor whitespace survives
      cleaning, and they keep their order. */
  lemma CleanKeepsContent(text: string)
    ensures Content(CleanResponse(text)) == Content(text)
  {
    StripKeepsContent(text);
    TrimKeepsContent(StripEmphasis(text));
  }

  // Steps of the substitution on a known prefix, for the examples below.

  lemma StripDoubledMarker(c: char, b: string)
    requires IsMarker(c) && (b == [] || b[0] != c)
    ensures StripEmphasis([c, c] + b) == StripEmphasis(b)
  {
    var s := [c, c] + b;
    assert s[1..] == [c] + b;
    assert ([c] + b)[1..] == b;
    assert RunLength(b, c) == 0;
    assert RunLength([c] + b, c) == 1;
    assert RunLength(s, c) == 2;
    assert s[2..] == b;
  }

  lemma StripSingleChar(c: char, b: string)
    requires b == [] || b[0] != c
    ensures StripEmphasis([c] + b) == [c] + StripEmphasis(b)
  {
    var s := [c] + b;
    assert RunLength(b, c) == 0;
    assert s[1..] == b;
    assert RunLength(s, c) == 1;
  }

  /** Cleaning is not idempotent: deleting a run can join two markers that
      a second cleaning then deletes. */
  lemma CleanNotIdempotent()
    ensures CleanResponse("*__*") == "**"
    ensures CleanResponse(CleanResponse("*__*")) == ""
  {
    assert "*__*" == ['*'] + (['_', '_'] + ['*']);
    StripSingleChar('*', ['_', '_'] + ['*']);
    StripDoubledMarker('_', ['*']);
    StripSingleChar('*', []);
    assert StripEmphasis("*__*") == "**";
    assert "**" == ['*', '*'] + [];
    StripDoubledMarker('*', []);
    assert StripEmphasis("**") == [];
  }

  lemma CleanExampleBold()
    ensures CleanResponse("**bold**") == "bold"
  {
    assert "**bold**" == ['*', '*'] + "bold**" by {}
    StripDoubledMarker('*', "bold**");
    StripBoldTail();
    assert Trim("bold") == "bold" by { assert Trimmed("bold"); }
  }

  lemma StripBoldTail()
    ensures StripEmphasis("bold**") == "bold"
  {
    var t := "**";
    assert RunLength(t, '*') == 2;
    assert t[2..] == [];
    assert StripEmphasis(t) == [];
    assert "d**"[1..] == t;
    assert StripEmphasis("d**") == "d";
    assert "ld**"[1..] == "d**";
    assert StripEmphasis("ld**") == "ld";
    assert "old**"[1..] == "ld**";
    assert StripEmphasis("old**") == "old";
    assert "bold**"[1..] == "old**";
  }

  lemma CleanExampleSingleUnderscore()
    ensures CleanResponse("a_b") == "a_b"
  {
    CleanUnchanged("a_b");
  }

  lemma CleanExampleSpaces()
    ensures CleanResponse("  x  ") == "x"
  {
    SpacesNotStripped();
    TrimPadded("  ", "x", "  ");
    assert "  " + "x" + "  " == "  x  ";
  }

  lemma SpacesNotStripped()
    ensures StripEmphasis("  x  ") == "  x  "
  {
    StripEmphasisIdentity("  x  ");
  }
}
