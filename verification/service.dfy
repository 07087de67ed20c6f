/** The two endpoints' handling of the model's answers, lifted out of the web
    handlers: `generate_content` from the first model call on (app.py:118-171)
    and `check_reusability` from its model call on (app.py:197-207). Each
    call to the model is an input: the text it answered, or the message of
    the exception the call raised. */
module Service {
  import opened Optional
  import opened Strings
  import opened Clean
  import opened Verdict
  import opened Sales
  import opened Category

  /** One call to the generative model. */
  datatype Reply = Answer(text: string) | Raised(error: string)

  /** The JSON body `generate_content` returns. */
  datatype Response =
    | NotReusable(reason: string)
    | Listing(title: string, description: string, category: string,
              subcategory: string, reason: string)
    | Failed(message: string)

  /** The JSON body `check_reusability` returns. */
  datatype Report = Report(reusable: bool, reason: string) | ReportFailed(message: string)

  const ReuseFailure: string := "Reusability check failed: "
  const DescriptionFailure: string := "Description failed: "
  const CheckFailure: string := "Check failed: "

  /** The category and subcategory of a listing. A failed call is logged
      and leaves both at "Miscellaneous". The classification text is
      searched as the model wrote it, without cleaning. */
  function Classify(classification: Reply): (r: (string, string))
    ensures r.0 in ValidCategories
    ensures classification.Raised? ==> r == (Miscellaneous, Miscellaneous)
    ensures classification.Answer? ==>
      r == (NormalizeCategory(classification.text), NormalizeSubcategory(classification.text))
  {
    match classification
    case Raised(_) => (Miscellaneous, Miscellaneous)
    case Answer(text) => (NormalizeCategory(text), NormalizeSubcategory(text))
  }

  /** `generate_content` from the reusability call to the JSON body. */
  function Assemble(reuse: Reply, pitch: Reply, classification: Reply): (r: Response)
    ensures r.NotReusable? <==> reuse.Answer? && !HasYesWord(CleanResponse(reuse.text))
    ensures r.Failed? <==>
      reuse.Raised? || (HasYesWord(CleanResponse(reuse.text)) && pitch.Raised?)
    ensures r.Listing? <==>
      reuse.Answer? && HasYesWord(CleanResponse(reuse.text)) && pitch.Answer?
    ensures reuse.Raised? ==> r.Failed? && r.message == ReuseFailure + reuse.error
    ensures reuse.Answer? && pitch.Raised? && r.Failed? ==>
      r.message == DescriptionFailure + pitch.error
    ensures r.NotReusable? ==> r.reason == LineReason(CleanResponse(reuse.text))
    ensures r.Listing? ==>
      && r.category in ValidCategories
      && r.reason == TextReason(CleanResponse(reuse.text))
      && Pitch(r.title, r.description) == ParseSales(CleanResponse(pitch.text))
    ensures r.Listing? && classification.Raised? ==>
      r.category == Miscellaneous && r.subcategory == Miscellaneous
    ensures r.Listing? && classification.Answer? ==>
      && r.category == NormalizeCategory(classification.text)
      && r.subcategory == NormalizeSubcategory(classification.text)
  {
    match reuse
    case Raised(e) => Failed(ReuseFailure + e)
    case Answer(t) =>
      var reuseText := CleanResponse(t);
      if !IsReusable(reuseText) then
        NotReusable(LineReason(reuseText))
      else
        match pitch
        case Raised(e) => Failed(DescriptionFailure + e)
        case Answer(p) =>
          var parsed := ParseSales(CleanResponse(p));
          var (category, subcategory) := Classify(classification);
          Listing(parsed.title, parsed.description, category, subcategory,
                  TextReason(reuseText))
  }

  /** `check_reusability` from its model call to the JSON body. */
  function CheckReusability(reuse: Reply): (r: Report)
    ensures r.Report? <==> reuse.Answer?
    ensures r.Report? ==>
      && (r.reusable <==> HasYesWord(CleanResponse(reuse.text)))
      && r.reason == LineReason(CleanResponse(reuse.text))
    ensures r.ReportFailed? ==> r.message == CheckFailure + reuse.error
  {
    match reuse
    case Raised(e) => ReportFailed(CheckFailure + e)
    case Answer(t) =>
      var text := CleanResponse(t);
      Report(IsReusable(text), LineReason(text))
  }

  /** A rejection is decided by the reusability answer alone: the
      description and classification calls are never consulted. */
  lemma RejectionIgnoresLaterStages(reuse: Reply, pitch: Reply, classification: Reply,
                                    pitch': Reply, classification': Reply)
    requires Assemble(reuse, pitch, classification).NotReusable?
    ensures Assemble(reuse, pitch', classification') == Assemble(reuse, pitch, classification)
  {
  }

  /** A failed classification call changes nothing but the two category
      fields, which fall back to "Miscellaneous": the request still
      succeeds exactly when it would have. */
  lemma ClassificationFailureDegrades(reuse: Reply, pitch: Reply, classification: Reply,
                                      error: string)
    ensures var r := Assemble(reuse, pitch, classification);
      var d := Assemble(reuse, pitch, Raised(error));
      && (r.Listing? <==> d.Listing?)
      && (!r.Listing? ==> d == r)
      && (r.Listing? ==>
            d == r.(category := Miscellaneous, subcategory := Miscellaneous))
  {
  }

  /** The two endpoints agree on an answer: `check_reusability` reports
      reusable exactly when `generate_content` goes on to describe the
      item, and gives the same reason when it rejects it. */
  lemma EndpointsAgree(reuse: Reply, pitch: Reply, classification: Reply)
    requires reuse.Answer?
    ensures var c := CheckReusability(reuse);
      var r := Assemble(reuse, pitch, classification);
      && (c.reusable <==> !r.NotReusable?)
      && (r.NotReusable? ==> r.reason == c.reason)
  {
  }

  /** When the answer is a single line, the reason of a listing is the one
      `check_reusability` reports. */
  lemma ListingReasonOnOneLine(reuse: Reply, pitch: Reply, classification: Reply)
    requires reuse.Answer? && '\n' !in CleanResponse(reuse.text)
    requires Assemble(reuse, pitch, classification).Listing?
    ensures Assemble(reuse, pitch, classification).reason == CheckReusability(reuse).reason
  {
    ReasonsAgreeOnOneLine(CleanResponse(reuse.text));
  }

  /** A long cleaned answer is cut at exactly 200 characters: the listing's
      reason is the first 200 characters of the cleaned answer, and a
      rejection whose first line is that long gives its first 200. */
  lemma LongAnswerReason(reuse: Reply, pitch: Reply, classification: Reply)
    requires reuse.Answer?
    ensures var text := CleanResponse(reuse.text);
      var r := Assemble(reuse, pitch, classification);
      && (r.Listing? && |text| >= ReasonLimit ==> r.reason == text[..ReasonLimit])
      && (r.NotReusable? && |FirstLine(text)| >= ReasonLimit ==>
            r.reason == text[..ReasonLimit])
  {
  }
}
