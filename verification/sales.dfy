/** `parse_sales_response` (app.py:89-98): splits the cleaned sales-pitch
    text into a title and a description. `text.split("Description:", 1)`
    unpacks into two parts only when the marker occurs; otherwise the unpack
    fails and the handler falls back to the first line cut to 50 characters.
    Nothing else in the function can fail, so it always returns a pair. */
module Sales {
  import opened Ascii
  import opened Optional
  import opened Strings

  datatype Pitch = Pitch(title: string, description: string)

  const DescriptionMarker: string := "Description:"
  const TitleMarker: string := "Title:"

  /** The cap on the fallback title. */
  const FallbackTitleLimit: nat := 50

  function ParseSales(text: string): (r: Pitch)
    ensures Trimmed(r.title)
    ensures Absent(text, DescriptionMarker) ==>
      && r.description == text
      && |r.title| <= FallbackTitleLimit
      && '\n' !in r.title
      && (forall c :: c in r.title ==> c in text)
      && (exists p :: && p <= FirstLine(text) && |p| <= FallbackTitleLimit
                      && (|p| == FallbackTitleLimit || p == FirstLine(text))
                      && r.title == Trim(p))
    ensures !Absent(text, DescriptionMarker) ==> Trimmed(r.description)
  {
    match IndexOf(text, DescriptionMarker)
    case Some(i) =>
      Pitch(Trim(RemoveAll(text[..i], TitleMarker)),
            Trim(text[i + |DescriptionMarker|..]))
    case None =>
      Pitch(Trim(Truncate(FirstLine(text), FallbackTitleLimit)), text)
  }

  /** With the marker present, the description is what follows its first
      occurrence, stripped; the title is what precedes it, with every
      "Title:" deleted, stripped. */
  lemma ParseSplitsAtFirstMarker(text: string, i: nat)
    requires OccursAt(text, DescriptionMarker, i)
    requires forall j: nat :: j < i ==> !OccursAt(text, DescriptionMarker, j)
    ensures ParseSales(text).description == Trim(text[i + |DescriptionMarker|..])
    ensures ParseSales(text).title == Trim(RemoveAll(text[..i], TitleMarker))
  {
    var k := IndexOf(text, DescriptionMarker);
    assert k.Some?;
  }

  /** Without the marker, the title is a stripped prefix of the first line
      of at most 50 characters. */
  lemma ParseFallbackTitle(text: string)
    requires Absent(text, DescriptionMarker)
    ensures exists p :: && p <= FirstLine(text) && |p| <= FallbackTitleLimit
                        && (|p| == FallbackTitleLimit || p == FirstLine(text))
                        && ParseSales(text).title == Trim(p)
  {
    var p := Truncate(FirstLine(text), FallbackTitleLimit);
    assert p <= FirstLine(text);
  }

  /** The layout the sales-pitch prompt asks the model to answer in. */
  function Format(title: string, description: string): (s: string)
    ensures TitleMarker <= s
  {
    TitleMarker + " " + title + "\n" + DescriptionMarker + " " + description
  }

  /** Parsing recovers the title and the description from an answer in the
      requested layout, provided the title itself names neither marker and
      both parts carry no whitespace at their ends. */
  lemma ParseFormat(title: string, description: string)
    requires Trimmed(title) && Trimmed(description)
    requires Absent(title, TitleMarker) && Absent(title, DescriptionMarker)
    ensures ParseSales(Format(title, description)) == Pitch(title, description)
  {
    var s := Format(title, description);
    var i := |TitleMarker| + 2 + |title|;
    FormatMarkerPosition(title, description);
    ParseSplitsAtFirstMarker(s, i);
    FormatDescriptionPart(title, description);
    FormatTitlePart(title, description);
  }

  /** In the requested layout the first "Description:" is the one that
      follows the title line. */
  lemma FormatMarkerPosition(title: string, description: string)
    requires Absent(title, DescriptionMarker)
    ensures var i := |TitleMarker| + 2 + |title|;
      && OccursAt(Format(title, description), DescriptionMarker, i)
      && forall j: nat :: j < i ==> !OccursAt(Format(title, description), DescriptionMarker, j)
  {
    var s := Format(title, description);
    var head := TitleMarker + [' '] + title;
    var tail := DescriptionMarker + " " + description;
    assert s == head + ['\n'] + tail;
    var i := |head| + 1;
    assert s[i..i + |DescriptionMarker|] == DescriptionMarker;
    assert Absent(TitleMarker, DescriptionMarker);
    AbsentAcross(TitleMarker, ' ', title, DescriptionMarker);
    NotAcross(head, '\n', tail, DescriptionMarker);
  }

  lemma FormatDescriptionPart(title: string, description: string)
    requires Trimmed(description)
    ensures var i := |TitleMarker| + 2 + |title|;
      Trim(Format(title, description)[i + |DescriptionMarker|..]) == description
  {
    var s := Format(title, description);
    var i := |TitleMarker| + 2 + |title|;
    assert s[i + |DescriptionMarker|..] == " " + description + "";
    TrimPadded(" ", description, "");
  }

  lemma FormatTitlePart(title: string, description: string)
    requires Trimmed(title) && Absent(title, TitleMarker)
    ensures var i := |TitleMarker| + 2 + |title|;
      Trim(RemoveAll(Format(title, description)[..i], TitleMarker)) == title
  {
    var line := " " + title + "\n";
    FormatTitleLine(title, description);
    RemoveLeadingMarker(line);
    TitleLineKept(title);
    TrimPadded(" ", title, "\n");
  }

  /** The first line of the layout, feed included, is the title marker
      followed by the padded title. */
  lemma FormatTitleLine(title: string, description: string)
    ensures var i := |TitleMarker| + 2 + |title|;
      Format(title, description)[..i] == TitleMarker + (" " + title + "\n")
  {
  }

  lemma RemoveLeadingMarker(line: string)
    ensures RemoveAll(TitleMarker + line, TitleMarker) == RemoveAll(line, TitleMarker)
  {
    assert (TitleMarker + line)[|TitleMarker|..] == line;
  }

  lemma TitleLineKept(title: string)
    requires Absent(title, TitleMarker)
    ensures RemoveAll(" " + title + "\n", TitleMarker) == " " + title + "\n"
  {
    var line := " " + title + "\n";
    assert Absent([], TitleMarker);
    AbsentAcross(title, '\n', [], TitleMarker);
    assert title + ['\n'] + [] == title + ['\n'];
    RemoveAllAbsent(title + ['\n'], TitleMarker);
    assert line[1..] == title + ['\n'];
  }

  lemma ParseExample()
    ensures ParseSales("Title: Lamp\nDescription: A nice lamp") == Pitch("Lamp", "A nice lamp")
  {
    FormatLamp();
    NoMarkersInLamp();
    ParseFormat("Lamp", "A nice lamp");
  }

  // The literal facts of the example sit in lemmas of their own, so that
  // the solver never unfolds two literals in one proof.

  lemma FormatLamp()
    ensures Format("Lamp", "A nice lamp") == "Title: Lamp\nDescription: A nice lamp"
  {
    FormatLines("Lamp", "A nice lamp");
    LampHead();
    LampTail();
  }

  lemma LampHead()
    ensures TitleMarker + " " + "Lamp" + "\n" == "Title: Lamp\n"
  {
  }

  lemma LampTail()
    ensures DescriptionMarker + " " + "A nice lamp" == "Description: A nice lamp"
  {
  }

  lemma NoMarkersInLamp()
    ensures Absent("Lamp", TitleMarker) && Absent("Lamp", DescriptionMarker)
    ensures Trimmed("Lamp") && Trimmed("A nice lamp")
  {
  }

  /** The layout is the title line, feed included, followed by the
      description line. */
  lemma FormatLines(title: string, description: string)
    ensures Format(title, description) ==
      (TitleMarker + " " + title + "\n") + (DescriptionMarker + " " + description)
  {
  }

  /** A short single line without the marker is both the title and the
      description, provided it has no whitespace at its ends. */
  lemma ParseOneLine(s: string)
    requires Absent(s, DescriptionMarker) && '\n' !in s
    requires |s| <= FallbackTitleLimit && Trimmed(s)
    ensures ParseSales(s) == Pitch(s, s)
  {
    FirstLineOfOneLine(s);
  }

  lemma ParseFallbackExample()
    ensures ParseSales("just text") == Pitch("just text", "just text")
  {
    assert Absent("just text", DescriptionMarker) && '\n' !in "just text" by {}
    assert Trimmed("just text") by {}
    ParseOneLine("just text");
  }
}
