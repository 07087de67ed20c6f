/** The reusability verdict and its reason strings. The verdict is
    `re.search(r'\byes\b', text, re.IGNORECASE)` (app.py:121, 200). The
    reason is the first line of the cleaned text cut to 200 characters on the
    non-reusable path (app.py:128) and in `/check-reusability` (app.py:206),
    and the whole cleaned text cut to 200 characters on the reusable path
    (app.py:170). */
module Verdict {
  import opened Ascii
  import opened Strings

  /** The three characters at `i` spell "yes" in some mixture of cases, and
      a word boundary `\b` stands on each side: no word character touches
      them. */
  predicate YesAt(s: string, i: nat) {
    && i + 3 <= |s|
    && LowerAll(s[i..i + 3]) == "yes"
    && (i == 0 || !IsWordChar(s[i - 1]))
    && (i + 3 == |s| || !IsWordChar(s[i + 3]))
  }

  /** What it means for the regex to find a match. */
  ghost predicate HasYesWord(s: string) {
    exists i: nat :: YesAt(s, i)
  }

  /** The search, tried at every position from `k` on. */
  function YesFrom(s: string, k: nat): (b: bool)
    requires k <= |s|
    ensures b <==> exists i: nat :: k <= i && YesAt(s, i)
    decreases |s| - k
  {
    if k + 3 > |s| then false else YesAt(s, k) || YesFrom(s, k + 1)
  }

  /** The verdict `is_reusable`: the text holds the word "yes" in any case. */
  function IsReusable(text: string): (b: bool)
    ensures b <==> HasYesWord(text)
  {
    YesFrom(text, 0)
  }

  /** The cap on every reason string. */
  const ReasonLimit: nat := 200

  /** `text.split('\n')[0][:200]`: the longest prefix of the text that has
      at most 200 characters and stops at or before the first line feed. */
  function LineReason(text: string): (r: string)
    ensures |r| <= ReasonLimit
    ensures r <= text
    ensures '\n' !in r
    ensures |r| == ReasonLimit || |r| == |text| || text[|r|] == '\n'
  {
    var line := FirstLine(text);
    var r := Truncate(line, ReasonLimit);
    assert text[..|r|] == line[..|r|] == r;
    r
  }

  /** `text[:200]`: the longest prefix of the text with at most 200
      characters. */
  function TextReason(text: string): (r: string)
    ensures |r| <= ReasonLimit
    ensures r <= text
    ensures |r| == ReasonLimit || r == text
  {
    Truncate(text, ReasonLimit)
  }

  /** The two reasons agree on a one-line text. */
  lemma ReasonsAgreeOnOneLine(text: string)
    requires '\n' !in text
    ensures LineReason(text) == TextReason(text)
  {
  }

  lemma VerdictYes()
    ensures IsReusable("Yes, it works")
    ensures IsReusable("Yes,")
  {
    assert YesAt("Yes, it works", 0);
    assert YesAt("Yes,", 0);
  }

  lemma VerdictNotYesterday()
    ensures !IsReusable("yesterday")
  {
    var s := "yesterday";
    assert forall j :: 0 <= j < |s| ==> IsLetter(s[j]);
    forall i: nat | i + 3 <= |s|
      ensures !YesAt(s, i)
    {
      if i == 0 {
        assert IsWordChar(s[3]);
      } else {
        assert IsWordChar(s[i - 1]);
      }
    }
  }

  lemma VerdictNo()
    ensures !IsReusable("No, broken")
  {
    var s := "No, broken";
    assert forall j :: 0 <= j < |s| ==> Lower(s[j]) != 'y';
    forall i: nat | i + 3 <= |s|
      ensures !YesAt(s, i)
    {
      assert LowerAll(s[i..i + 3])[0] == Lower(s[i]);
    }
  }
}
