/** Category and subcategory normalisation (app.py:140-162). The raw
    classification text (not cleaned) is searched with
    `re.search(r'Category:\s*([^\n]+)', text, re.IGNORECASE)` and the same
    pattern with `Subcategory:`. The searches are not anchored to lines, `\s*`
    may cross line feeds, and the first case-insensitive "category:" may be
    the tail of "Subcategory:". The captured value is stripped and
    title-cased; the category must then be one of six names, and a
    subcategory spelling "other" or "others" becomes "Miscellaneous". */
module Category {
  import opened Ascii
  import opened Optional
  import opened Strings

  const Miscellaneous: string := "Miscellaneous"

  /** `valid_cats` (app.py:154). */
  const ValidCategories: seq<string> :=
    ["Electronics", "Furniture", "Appliances", "Books", "Clothing", Miscellaneous]

  /** The two labels, lower-cased: the search ignores case. */
  const CategoryLabel: string := "category:"
  const SubcategoryLabel: string := "subcategory:"

  // ---------------------------------------------------------------------
  // The regex `\s*([^\n]+)` tried at position q. The greedy `\s*` first takes
  // the whole whitespace run, then gives characters back one at a time until
  // `[^\n]+` can start, that is until the next character exists and is not a
  // line feed; the group then runs greedily to the end of that line.
  // ---------------------------------------------------------------------

  /** The group may start at `k`: only whitespace lies between `q` and `k`,
      and `k` holds a character other than a line feed. */
  predicate GroupStart(s: string, q: nat, k: nat) {
    && q <= k < |s|
    && (forall j :: q <= j < k ==> IsSpace(s[j]))
    && s[k] != '\n'
  }

  /** Backtracking from `k` down to `q`, all starts beyond `k` already
      ruled out: the start the regex engine settles on, if any. */
  function Backtrack(s: string, q: nat, k: nat): (r: Option<nat>)
    requires q <= k <= |s|
    requires forall k': nat :: k < k' ==> !GroupStart(s, q, k')
    requires forall j :: q <= j < k ==> IsSpace(s[j])
    ensures r.None? ==> forall k': nat :: !GroupStart(s, q, k')
    ensures r.Some? ==> GroupStart(s, q, r.value)
    ensures r.Some? ==> forall k': nat :: r.value < k' ==> !GroupStart(s, q, k')
    decreases k - q
  {
    if k < |s| && s[k] != '\n' then Some(k)
    else if k == q then None
    else Backtrack(s, q, k - 1)
  }

  /** Where the group `([^\n]+)` after `\s*` at position `q` starts, if the
      two can match at all: the last start the greedy whitespace run can
      give back to. */
  function GroupFrom(s: string, q: nat): (r: Option<nat>)
    requires q <= |s|
    ensures r.None? <==> forall k: nat :: !GroupStart(s, q, k)
    ensures r.Some? ==> GroupStart(s, q, r.value)
    ensures r.Some? ==> forall k': nat :: r.value < k' ==> !GroupStart(s, q, k')
  {
    var e := q + LeadingSpaces(s[q..]);
    assert forall j :: q <= j < e ==> s[j] == s[q..][j - q];
    assert e < |s| ==> s[e] == s[q..][e - q];
    Backtrack(s, q, e)
  }

  /** The key, in any case, stands at `p`. */
  predicate LabelAt(s: string, p: nat, key: string) {
    p + |key| <= |s| && LowerAll(s[p..p + |key|]) == key
  }

  /** The whole pattern matches starting at `p`. */
  predicate MatchAt(s: string, key: string, p: nat) {
    LabelAt(s, p, key) && GroupFrom(s, p + |key|).Some?
  }

  /** The leftmost match at or after `k`: what `re.search` finds. */
  function FirstMatchFrom(s: string, key: string, k: nat): (r: Option<nat>)
    requires k <= |s|
    ensures r.Some? ==> k <= r.value && MatchAt(s, key, r.value)
    ensures r.Some? ==> forall p: nat :: k <= p < r.value ==> !MatchAt(s, key, p)
    ensures r.None? ==> forall p: nat :: k <= p ==> !MatchAt(s, key, p)
    decreases |s| - k
  {
    if MatchAt(s, key, k) then Some(k)
    else if k == |s| then None
    else FirstMatchFrom(s, key, k + 1)
  }

  /** `re.search(key + r'\s*([^\n]+)', s, re.IGNORECASE).group(1)`, or
      nothing when the search fails. */
  function Search(s: string, key: string): (g: Option<string>)
  {
    match FirstMatchFrom(s, key, 0)
    case None => None
    case Some(p) => Some(GroupAt(s, key, p))
  }

  /** The group of the match at `p`: the rest of the line from its start. */
  function GroupAt(s: string, key: string, p: nat): string
    requires MatchAt(s, key, p)
  {
    FirstLine(s[GroupFrom(s, p + |key|).value..])
  }

  /** The search fails exactly when the pattern matches nowhere. */
  lemma SearchFails(s: string, key: string)
    ensures Search(s, key).None? <==> forall p: nat :: !MatchAt(s, key, p)
  {
  }

  /** On success the group is the rest of a line from the start the
      backtracking settles on, for the leftmost match. */
  lemma SearchFindsLeftmost(s: string, key: string)
    requires Search(s, key).Some?
    ensures Search(s, key).value != [] && '\n' !in Search(s, key).value
    ensures exists p: nat :: && MatchAt(s, key, p)
                             && (forall p': nat :: p' < p ==> !MatchAt(s, key, p'))
                             && Search(s, key).value == FirstLine(s[GroupFrom(s, p + |key|).value..])
  {
    var p := FirstMatchFrom(s, key, 0).value;
    assert MatchAt(s, key, p);
  }

  // ---------------------------------------------------------------------
  // Normalisation of the captured values.
  // ---------------------------------------------------------------------

  /** app.py:152-155 on the search result: the stripped, title-cased value
      when it is one of the six categories, and "Miscellaneous" otherwise or
      without a match. */
  function CategoryOf(m: Option<string>): (r: string)
    ensures r in ValidCategories
    ensures m.None? ==> r == Miscellaneous
  {
    match m
    case None => Miscellaneous
    case Some(g) =>
      var v := Title(Trim(g));
      if v in ValidCategories then v else Miscellaneous
  }

  /** The category assigned to a classification text. */
  function NormalizeCategory(text: string): (r: string)
    ensures r in ValidCategories
  {
    CategoryOf(Search(text, CategoryLabel))
  }

  /** The spellings app.py:159 collapses, compared after lower-casing. */
  predicate IsOther(lowered: string) {
    lowered == "others" || lowered == "other"
  }

  /** app.py:157-160 on the search result: the stripped, title-cased value,
      with any spelling of "other" or "others" replaced by "Miscellaneous",
      and "Miscellaneous" without a match. The value is not checked against
      any list. */
  function SubcategoryOf(m: Option<string>): (r: string)
    ensures m.None? ==> r == Miscellaneous
    ensures m.Some? && IsOther(LowerAll(Trim(m.value))) ==> r == Miscellaneous
    ensures m.Some? && !IsOther(LowerAll(Trim(m.value))) ==>
      && r == Title(Trim(m.value))
      && |r| == |Trim(m.value)| && LowerAll(r) == LowerAll(Trim(m.value))
  {
    match m
    case None => Miscellaneous
    case Some(g) =>
      var v := Title(Trim(g));
      LowerTitle(Trim(g));
      if IsOther(LowerAll(v)) then Miscellaneous else v
  }

  /** The subcategory assigned to a classification text. */
  function NormalizeSubcategory(text: string): (r: string)
    ensures Search(text, SubcategoryLabel).None? ==> r == Miscellaneous
  {
    SubcategoryOf(Search(text, SubcategoryLabel))
  }

  /** The value names category `c` when it spells it in some mixture of cases. */
  predicate Names(value: string, c: string) {
    LowerAll(Trim(value)) == LowerAll(c)
  }

  lemma AllTitleWords()
    ensures forall c :: c in ValidCategories ==> IsTitleWord(c)
  {
    forall c | c in ValidCategories
      ensures IsTitleWord(c)
    {
    }
  }

  /** The category is `c` exactly when the captured value spells `c` in any
      case, or, for "Miscellaneous", also when there is no match or the
      value spells none of the six names. */
  lemma CategoryChoice(m: Option<string>, c: string)
    requires c in ValidCategories
    ensures CategoryOf(m) == c <==>
        || (m.Some? && Names(m.value, c))
        || (c == Miscellaneous &&
            (m.None? || forall d :: d in ValidCategories ==> !Names(m.value, d)))
  {
    if m.Some? {
      var t := Trim(m.value);
      AllTitleWords();
      forall d | d in ValidCategories
        ensures Title(t) == d <==> Names(m.value, d)
      {
        TitleMatchesWord(t, d);
      }
    }
  }

  /** The subcategory is "Miscellaneous" exactly when there is no match or
      the stripped value spells "other", "others" or "miscellaneous" in
      some mixture of cases. */
  lemma SubcategoryMiscellaneous(m: Option<string>)
    ensures SubcategoryOf(m) == Miscellaneous <==>
        || m.None?
        || IsOther(LowerAll(Trim(m.value)))
        || LowerAll(Trim(m.value)) == "miscellaneous"
  {
    if m.Some? {
      var t := Trim(m.value);
      MiscellaneousIsTitleWord();
      TitleMatchesWord(t, Miscellaneous);
      LowerMiscellaneous();
    }
  }

  lemma MiscellaneousIsTitleWord()
    ensures IsTitleWord(Miscellaneous)
  {
  }

  lemma LowerMiscellaneous()
    ensures LowerAll(Miscellaneous) == "miscellaneous"
  {
    var r := LowerAll(Miscellaneous);
    forall i | 0 <= i < |r|
      ensures r[i] == "miscellaneous"[i]
    {
    }
  }

  /** The common case: the first label is followed, after whitespace that
      may span lines, by a character that is not whitespace; the group is
      then the rest of that line. */
  lemma SearchFindsLine(s: string, key: string, p: nat, e: nat)
    requires LabelAt(s, p, key)
    requires forall p': nat :: p' < p ==> !LabelAt(s, p', key)
    requires p + |key| <= e < |s| && !IsSpace(s[e])
    requires forall j :: p + |key| <= j < e ==> IsSpace(s[j])
    ensures Search(s, key) == Some(FirstLine(s[e..]))
  {
    var q := p + |key|;
    GroupAtFirstNonSpace(s, q, e);
    MatchOfGroup(s, key, p, e);
    NoMatchWithoutLabel(s, key, p);
    FirstMatchIs(s, key, p);
    SearchAt(s, key, p, e);
  }

  lemma MatchOfGroup(s: string, key: string, p: nat, e: nat)
    requires LabelAt(s, p, key)
    requires GroupFrom(s, p + |key|) == Some(e)
    ensures MatchAt(s, key, p)
  {
  }

  lemma NoMatchWithoutLabel(s: string, key: string, p: nat)
    requires forall p': nat :: p' < p ==> !LabelAt(s, p', key)
    ensures forall p': nat :: p' < p ==> !MatchAt(s, key, p')
  {
  }

  lemma SearchAt(s: string, key: string, p: nat, e: nat)
    requires FirstMatchFrom(s, key, 0) == Some(p)
    requires GroupFrom(s, p + |key|) == Some(e)
    ensures Search(s, key) == Some(FirstLine(s[e..]))
  {
    SearchIsGroupAt(s, key, p);
    GroupAtIs(s, key, p, e);
  }

  lemma SearchIsGroupAt(s: string, key: string, p: nat)
    requires FirstMatchFrom(s, key, 0) == Some(p)
    ensures MatchAt(s, key, p) && Search(s, key) == Some(GroupAt(s, key, p))
  {
  }

  lemma GroupAtIs(s: string, key: string, p: nat, e: nat)
    requires MatchAt(s, key, p)
    requires GroupFrom(s, p + |key|) == Some(e)
    ensures GroupAt(s, key, p) == FirstLine(s[e..])
  {
  }

  lemma GroupAtFirstNonSpace(s: string, q: nat, e: nat)
    requires q <= e < |s| && !IsSpace(s[e])
    requires forall j :: q <= j < e ==> IsSpace(s[j])
    ensures GroupFrom(s, q) == Some(e)
  {
    assert GroupStart(s, q, e);
    var g := GroupFrom(s, q);
    assert g.value >= e;
    assert forall k': nat :: e < k' ==> !GroupStart(s, q, k');
    assert g.value <= e;
  }

  lemma FirstMatchIs(s: string, key: string, p: nat)
    requires MatchAt(s, key, p)
    requires forall p': nat :: p' < p ==> !MatchAt(s, key, p')
    ensures FirstMatchFrom(s, key, 0) == Some(p)
  {
    var f := FirstMatchFrom(s, key, 0);
    assert f.Some?;
    assert f.value <= p;
    assert f.value >= p;
  }

  /** A line feed ends the first line. */
  lemma FirstLineBeforeFeed(a: string, b: string)
    requires '\n' !in a
    ensures FirstLine(a + "\n" + b) == a
  {
    var s := a + "\n" + b;
    var r := FirstLine(s);
    assert s[|a|] == '\n';
    assert forall i :: 0 <= i < |a| ==> s[i] == a[i];
    assert |r| >= |a|;
    assert |r| <= |a|;
  }

  /** The case-insensitive "category:" opens the text "Category:". */
  lemma CategoryLabelAtStart(s: string)
    requires "Category:" <= s
    ensures LabelAt(s, 0, CategoryLabel)
  {
    assert s[0..9] == "Category:";
    var c := LowerAll(s[0..9]);
    forall i | 0 <= i < 9
      ensures c[i] == CategoryLabel[i]
    {
    }
  }

  lemma SubcategoryLabelAt(s: string, p: nat)
    requires p + 12 <= |s| && s[p..p + 12] == "Subcategory:"
    ensures LabelAt(s, p, SubcategoryLabel)
    ensures LabelAt(s, p + 3, CategoryLabel)
  {
    var c := LowerAll(s[p..p + 12]);
    forall i | 0 <= i < 12
      ensures c[i] == SubcategoryLabel[i]
    {
    }
    assert s[p + 3..p + 12] == "category:";
    var d := LowerAll(s[p + 3..p + 12]);
    forall i | 0 <= i < 9
      ensures d[i] == CategoryLabel[i]
    {
    }
  }

  /** A line feed at `f` keeps any "subcategory:" from starting at or
      before it, when none starts in the line up to `f` and no character
      before `a` could open one. */
  lemma NoSubcategoryLabelBefore(s: string, a: nat, f: nat)
    requires a <= f < |s| && s[f] == '\n'
    requires forall j :: 0 <= j < a ==> Lower(s[j]) != 's'
    requires forall p: nat :: !LabelAt(s[a..f], p, SubcategoryLabel)
    ensures forall p: nat :: p <= f ==> !LabelAt(s, p, SubcategoryLabel)
  {
    forall p: nat | p <= f
      ensures !LabelAt(s, p, SubcategoryLabel)
    {
      if p + 12 <= |s| {
        var l := LowerAll(s[p..p + 12]);
        if p < a {
          assert l[0] == Lower(s[p]) != 's';
        } else if p + 12 > f {
          assert l[f - p] == Lower(s[f]) == '\n';
        } else {
          var t := s[a..f];
          var u, v := t[p - a..p - a + 12], s[p..p + 12];
          forall i | 0 <= i < 12
            ensures u[i] == v[i]
          {
          }
          assert u == v;
          assert !LabelAt(t, p - a, SubcategoryLabel);
        }
      }
    }
  }

  /** The layout the classification prompt asks the model to answer in
      (app.py:144). */
  function StrictFormat(category: string, subcategory: string): (s: string)
    ensures |s| == 24 + |category| + |subcategory|
  {
    "Category: " + category + "\n" + "Subcategory: " + subcategory
  }

  lemma FormatCategorySearch(c: string, sc: string)
    requires c != [] && !IsSpace(c[0]) && '\n' !in c
    ensures Search(StrictFormat(c, sc), CategoryLabel) == Some(c)
  {
    var s := StrictFormat(c, sc);
    var rest := "Subcategory: " + sc;
    assert s[..9] == "Category:";
    CategoryLabelAtStart(s);
    assert s[10..] == c + "\n" + rest;
    FirstLineBeforeFeed(c, rest);
    assert IsSpace(s[9]);
    SearchFindsLine(s, CategoryLabel, 0, 10);
  }

  /** Finds the subcategory label that opens the second line of the layout. */
  lemma FormatSubcategoryLabel(c: string, sc: string)
    requires '\n' !in c
    requires forall p: nat :: !LabelAt(c, p, SubcategoryLabel)
    ensures var s := StrictFormat(c, sc);
      && LabelAt(s, 11 + |c|, SubcategoryLabel)
      && forall p: nat :: p < 11 + |c| ==> !LabelAt(s, p, SubcategoryLabel)
  {
    var s := StrictFormat(c, sc);
    var f := 10 + |c|;
    assert s[f] == '\n';
    forall j | 0 <= j < 10
      ensures Lower(s[j]) != 's'
    {
      assert s[j] == "Category: "[j];
    }
    assert s[10..f] == c;
    NoSubcategoryLabelBefore(s, 10, f);
    assert s[f + 1..f + 13] == "Subcategory:";
    SubcategoryLabelAt(s, f + 1);
  }

  lemma FormatSubcategorySearch(c: string, sc: string)
    requires '\n' !in c
    requires forall p: nat :: !LabelAt(c, p, SubcategoryLabel)
    requires sc != [] && !IsSpace(sc[0]) && '\n' !in sc
    ensures Search(StrictFormat(c, sc), SubcategoryLabel) == Some(sc)
  {
    var s := StrictFormat(c, sc);
    var b := 11 + |c|;
    FormatSubcategoryLabel(c, sc);
    assert IsSpace(s[b + 12]);
    assert s[b + 13..] == sc;
    FirstLineOfOneLine(sc);
    SearchFindsLine(s, SubcategoryLabel, b, b + 13);
  }

  /** An answer in the requested layout is classified by its two values,
      provided each starts with a character that is not whitespace, neither
      spans lines, and the category value holds no "subcategory:". */
  lemma StrictFormatClassified(c: string, sc: string)
    requires c != [] && !IsSpace(c[0]) && '\n' !in c
    requires forall p: nat :: !LabelAt(c, p, SubcategoryLabel)
    requires sc != [] && !IsSpace(sc[0]) && '\n' !in sc
    ensures NormalizeCategory(StrictFormat(c, sc)) == CategoryOf(Some(c))
    ensures NormalizeSubcategory(StrictFormat(c, sc)) == SubcategoryOf(Some(sc))
  {
    FormatCategorySearch(c, sc);
    FormatSubcategorySearch(c, sc);
  }

  /** A subcategory label followed only by its space at the very end of the
      answer still matches: `\s*` gives the space back to the group, which
      strips to the empty string, and the empty string is kept. */
  lemma BlankSubcategory(c: string)
    requires '\n' !in c
    requires forall p: nat :: !LabelAt(c, p, SubcategoryLabel)
    ensures NormalizeSubcategory(StrictFormat(c, [])) == []
  {
    var s := StrictFormat(c, []);
    var b := 11 + |c|;
    FormatSubcategoryLabel(c, []);
    var q := b + 12;
    assert q == |s| - 1 && s[q] == ' ';
    assert GroupStart(s, q, q);
    assert GroupFrom(s, q) == Some(q);
    assert MatchAt(s, SubcategoryLabel, b);
    FirstMatchIs(s, SubcategoryLabel, b);
    assert s[q..] == " ";
    assert FirstLine(" ") == " ";
    assert Search(s, SubcategoryLabel) == Some(" ");
    assert Trim(" ") == [];
    assert !IsOther(LowerAll(Title([])));
  }

  /** `\s*` crosses line feeds: a category label at the start of the
      answer takes its value from the next line that is not blank. */
  lemma CategoryAcrossLines(ws: string, x: string, rest: string)
    requires AllSpace(ws)
    requires x != [] && !IsSpace(x[0]) && '\n' !in x
    ensures Search("Category:" + ws + x + "\n" + rest, CategoryLabel) == Some(x)
  {
    var s := "Category:" + ws + x + "\n" + rest;
    var e := 9 + |ws|;
    assert s[..9] == "Category:";
    CategoryLabelAtStart(s);
    assert s[e..] == x + "\n" + rest;
    FirstLineBeforeFeed(x, rest);
    assert forall j :: 9 <= j < e ==> s[j] == ws[j - 9];
    SearchFindsLine(s, CategoryLabel, 0, e);
  }

  /** The searches are not anchored to lines: when the answer opens with
      the subcategory line, the first case-insensitive "category:" is the
      tail of "Subcategory:", so both fields are read from that line. */
  lemma SubcategoryLineFirst(sc: string, rest: string)
    requires sc != [] && !IsSpace(sc[0]) && '\n' !in sc
    ensures var s := "Subcategory: " + sc + "\n" + rest;
      && NormalizeCategory(s) == CategoryOf(Some(sc))
      && NormalizeSubcategory(s) == SubcategoryOf(Some(sc))
  {
    var s := "Subcategory: " + sc + "\n" + rest;
    assert s[0..12] == "Subcategory:";
    SubcategoryLabelAt(s, 0);
    forall p: nat | p < 3
      ensures !LabelAt(s, p, CategoryLabel)
    {
      assert s[p] == "Sub"[p];
      assert LowerAll(s[p..p + 9])[0] == Lower(s[p]) != 'c';
    }
    assert s[13..] == sc + "\n" + rest;
    FirstLineBeforeFeed(sc, rest);
    assert IsSpace(s[12]);
    SearchFindsLine(s, CategoryLabel, 3, 13);
    SearchFindsLine(s, SubcategoryLabel, 0, 13);
  }

  lemma CategoryExample()
    ensures CategoryOf(Some("electronics")) == "Electronics"
  {
    var v := "electronics";
    assert Trim(v) == v;
    SameLetters();
    assert Names(v, "Electronics");
    CategoryChoice(Some(v), "Electronics");
  }

  lemma SameLetters()
    ensures LowerAll("electronics") == LowerAll("Electronics")
  {
    var a, b := LowerAll("electronics"), LowerAll("Electronics");
    forall i | 0 <= i < 11
      ensures a[i] == b[i]
    {
    }
  }

  /** None of the six names starts with an upper-case S. */
  lemma NoCategoryStartsWithS(t: string)
    requires t != [] && t[0] == 'S'
    ensures t !in ValidCategories
  {
  }

  /** A value outside the six names falls back to "Miscellaneous". */
  lemma UnknownCategoryExample()
    ensures CategoryOf(Some("Spaceship")) == Miscellaneous
  {
    var v := "Spaceship";
    assert Trim(v) == v;
    var t := Title(v);
    assert t[0] == 'S';
    NoCategoryStartsWithS(t);
  }

  lemma OthersExample()
    ensures SubcategoryOf(Some("others")) == Miscellaneous
  {
    var v := "others";
    assert Trim(v) == v;
    var l := LowerAll(v);
    forall i | 0 <= i < 6
      ensures l[i] == "others"[i]
    {
    }
    assert IsOther(l);
  }

  /** The answer `StrictFormat("electronics", "others")`, that is
      "Category: electronics" and "Subcategory: others" on two lines, is
      classified as Electronics / Miscellaneous. */
  lemma LayoutExample()
    ensures NormalizeCategory(StrictFormat("electronics", "others")) == "Electronics"
    ensures NormalizeSubcategory(StrictFormat("electronics", "others")) == Miscellaneous
  {
    var c, sc := "electronics", "others";
    assert forall p: nat :: !LabelAt(c, p, SubcategoryLabel);
    assert !IsSpace(c[0]) && !IsSpace(sc[0]);
    StrictFormatClassified(c, sc);
    CategoryExample();
    OthersExample();
  }
}
