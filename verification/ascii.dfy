/** ASCII character classes and case mapping, as Python's `str` methods and
    its `re` module treat ASCII text. Characters outside ASCII are neither
    letters, digits nor whitespace here, and have no case. */
module Ascii {

  /** `str.isspace()` and the regex class `\s` on ASCII: the control
      characters 9-13 (tab, line feed, vertical tab, form feed, carriage
      return), the separators 28-31, and space (32). */
  predicate IsSpace(c: char) {
    (9 <= c as int <= 13) || (28 <= c as int <= 32)
  }

  predicate IsUpper(c: char) { 'A' <= c <= 'Z' }

  predicate IsLower(c: char) { 'a' <= c <= 'z' }

  /** The cased characters of ASCII. */
  predicate IsLetter(c: char) { IsUpper(c) || IsLower(c) }

  predicate IsDigit(c: char) { '0' <= c <= '9' }

  /** The regex class `\w`: letters, digits and the underscore. */
  predicate IsWordChar(c: char) { IsLetter(c) || IsDigit(c) || c == '_' }

  function Lower(c: char): (r: char)
    ensures IsLetter(r) <==> IsLetter(c)
    ensures !IsUpper(r)
    ensures IsLower(c) ==> r == c
    ensures !IsLetter(c) ==> r == c
  {
    if IsUpper(c) then (c as int + 32) as char else c
  }

  function Upper(c: char): (r: char)
    ensures IsLetter(r) <==> IsLetter(c)
    ensures !IsLower(r)
    ensures IsUpper(c) ==> r == c
    ensures !IsLetter(c) ==> r == c
    ensures Lower(r) == Lower(c)
  {
    if IsLower(c) then (c as int - 32) as char else c
  }

  /** Two characters that agree once lower-cased also agree once upper-cased. */
  lemma SameUpper(a: char, b: char)
    requires Lower(a) == Lower(b)
    ensures Upper(a) == Upper(b)
  {
  }

  /** `str.lower()`: every letter lower-cased, everything else kept. */
  function LowerAll(s: string): (r: string)
    ensures |r| == |s|
    ensures forall i :: 0 <= i < |s| ==> r[i] == Lower(s[i])
  {
    seq(|s|, i requires 0 <= i < |s| => Lower(s[i]))
  }

  /** Whether position `i` of `s` opens a word for `str.title()`: nothing
      cased stands before it. `afterLetter` says whether the text that
      precedes `s` ends in a letter. */
  predicate OpensWord(s: string, i: nat, afterLetter: bool)
    requires i < |s|
  {
    if i == 0 then !afterLetter else !IsLetter(s[i - 1])
  }

  /** `str.title()` continued after a prefix that ends in a letter exactly
      when `afterLetter` holds. It scans left to right remembering whether
      the previous character was cased. */
  function TitleFrom(s: string, afterLetter: bool): (r: string)
    ensures |r| == |s|
  {
    if s == [] then []
    else
      [if afterLetter then Lower(s[0]) else Upper(s[0])] + TitleFrom(s[1..], IsLetter(s[0]))
  }

  /** The scan upper-cases exactly the characters that open a word. */
  lemma {:induction false} TitleFromChars(s: string, afterLetter: bool)
    ensures forall i :: 0 <= i < |s| ==>
      TitleFrom(s, afterLetter)[i] ==
        (if OpensWord(s, i, afterLetter) then Upper(s[i]) else Lower(s[i]))
  {
    if s != [] {
      TitleFromChars(s[1..], IsLetter(s[0]));
      var r := TitleFrom(s, afterLetter);
      var t := TitleFrom(s[1..], IsLetter(s[0]));
      forall i | 1 <= i < |s|
        ensures r[i] == (if OpensWord(s, i, afterLetter) then Upper(s[i]) else Lower(s[i]))
      {
        assert r[i] == t[i - 1];
        assert s[1..][i - 1] == s[i];
      }
    }
  }

  /** `str.title()`: a letter is upper-cased when it starts the text or
      follows a non-letter, and lower-cased otherwise (so "men's" becomes
      "Men'S"); other characters are unchanged. */
  function Title(s: string): (r: string)
    ensures |r| == |s|
    ensures forall i :: 0 <= i < |s| ==>
      r[i] == (if i == 0 || !IsLetter(s[i - 1]) then Upper(s[i]) else Lower(s[i]))
  {
    TitleFromChars(s, false);
    TitleFrom(s, false)
  }

  /** Title-casing only changes case: lower-casing undoes the difference. */
  lemma LowerTitle(s: string)
    ensures LowerAll(Title(s)) == LowerAll(s)
  {
    var a, b := LowerAll(Title(s)), LowerAll(s);
    forall i | 0 <= i < |s|
      ensures a[i] == b[i]
    {
      var t := Title(s);
      assert t[i] == (if i == 0 || !IsLetter(s[i - 1]) then Upper(s[i]) else Lower(s[i]));
      assert Lower(Lower(s[i])) == Lower(s[i]);
    }
  }

  /** A single capitalised word of letters, such as "Electronics". */
  predicate IsTitleWord(w: string) {
    |w| > 0 && IsUpper(w[0]) && forall i :: 1 <= i < |w| ==> IsLower(w[i])
  }

  /** Title-casing a text yields a capitalised word exactly when the text
      spells that word in some mixture of cases. */
  lemma TitleMatchesWord(x: string, w: string)
    requires IsTitleWord(w)
    ensures Title(x) == w <==> LowerAll(x) == LowerAll(w)
  {
    if LowerAll(x) == LowerAll(w) {
      var t := Title(x);
      forall i | 0 <= i < |w|
        ensures t[i] == w[i]
      {
        assert Lower(x[i]) == Lower(w[i]);
        if i == 0 {
          SameUpper(x[0], w[0]);
        } else {
          assert Lower(x[i - 1]) == Lower(w[i - 1]);
          assert IsLetter(x[i - 1]);
        }
      }
    }
    if Title(x) == w {
      LowerTitle(x);
    }
  }

  /** An apostrophe is not cased, so the letter after it opens a word. */
  lemma TitleExample()
    ensures Title("men's") == "Men'S"
  {
    var t := Title("men's");
    assert t[0] == 'M';
    assert t[1] == 'e';
    assert t[2] == 'n';
    assert t[3] == '\'';
    assert t[4] == 'S';
  }
}
