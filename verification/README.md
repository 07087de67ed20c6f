# ReShare-Hub text post-processing, in Dafny

ReShare-Hub's backend sends an uploaded product photo to a generative model
three times. The first prompt asks whether the item is reusable. The second
asks for a sales pitch. The third asks for a category. The backend turns
the three free-text answers into one JSON listing. This project models that
text handling in `app.py` and proves what it does:

- `clean_response` deletes markdown emphasis and then strips whitespace.
- The reusability verdict looks for the word "yes".
- The 200-character reason strings.
- `parse_sales_response` splits the pitch into a title and a description.
- The category and subcategory are read out of the classification answer.
- The response of `/generate-content` and of `/check-reusability` is
  assembled from the answers.

Each call to the model is an input to the model: the text it answered, or
the message of the exception it raised. Text is a sequence of characters,
and character classes follow Python's rules restricted to ASCII.

Modules, in dependency order:

- `Optional`: the option type.
- `Ascii`: whitespace, letters, word characters, `lower()` and `title()`.
- `Strings`: `strip()`, first line, prefix cut, first occurrence and
  `replace(pat, "")`.
- `Clean`: `clean_response`.
- `Verdict`: the `\byes\b` search and the two reason strings.
- `Sales`: `parse_sales_response`.
- `Category`: the search `Label:\s*([^\n]+)` with `re.IGNORECASE`, then the
  normalisation of the captured values.
- `Service`: `Assemble` (the reusability, description and category stages
  of `generate_content`) and `CheckReusability`.

The category search is modelled with the regex engine's backtracking. The
greedy `\s*` may cross line feeds. It then gives characters back until
`[^\n]+` can start, and the group runs to the end of that line. The search
starts at every position, not just at line starts. Because the case is
ignored, the first "category:" can be the tail of "Subcategory:".

## Behaviour worth knowing

- Cleaning is not idempotent: `*__*` cleans to `**`, which cleans to the
  empty string, because `re.sub` does not rescan its own output
  (`Clean.CleanNotIdempotent`).
- The category and subcategory patterns are not anchored to line starts,
  and the case is ignored. An answer that opens with "Subcategory: X"
  takes its category from X as well (`Category.SubcategoryLineFirst`).
- `\s*` crosses line feeds, so the value can come from a later line
  (`Category.CategoryAcrossLines`).
- The subcategory is stripped and title-cased, and a letter after an
  apostrophe opens a word, so "men's" becomes "Men'S" (`Ascii.TitleExample`).
- A subcategory label followed only by a space at the end of the answer
  gives the empty subcategory rather than the default
  (`Category.BlankSubcategory`).
- A reusable response has six fields: `reusable`, `title`, `description`,
  `category`, `subcategory` and `reason`.

## Model

| member | source | states |
|---|---|---|
| Ascii.Title | app.py:153 | `str.title()`: same length; a letter is upper-cased when it starts the text or follows a non-letter, otherwise lower-cased; other characters are kept |
| Ascii.TitleFromChars | app.py:153 | the left-to-right scan of `str.title()` upper-cases exactly the characters that open a word (nothing cased before them) and lower-cases the rest |
| Ascii.LowerTitle | app.py:158-159 | lower-casing a title-cased text gives the lower-cased original, so title-casing only changes case |
| Ascii.TitleMatchesWord | app.py:153-155 | a title-cased text equals a capitalised word exactly when the text spells that word in some mixture of cases |
| Ascii.TitleExample | app.py:158 | "men's" title-cases to "Men'S", because the apostrophe is not cased |
| Ascii.LowerAll | app.py:159 | `str.lower()`: same length, every character lower-cased in place |
| Strings.Trim | app.py:87 | `strip()`: the result has no whitespace at either end and holds only characters of the input; it is empty exactly when the input is all whitespace; a text without edge whitespace is returned unchanged |
| Strings.TrimPadded | app.py:94 | stripping a text padded with whitespace on both sides gives the text back |
| Strings.FirstLine | app.py:98 | `split('\n')[0]`: a prefix with no line feed that ends at the end of the text or just before its first line feed |
| Strings.Truncate | app.py:98 | `[:n]`: a prefix of at most n characters, n of them unless it is the whole text |
| Strings.IndexOf | app.py:92 | finds the first occurrence of the separator, and nothing exactly when there is none |
| Strings.RemoveAll | app.py:93 | `replace(pat, "")` never lengthens the text; what it deletes and keeps is stated by the three lemmas below |
| Strings.RemoveAllFirst | app.py:93 | an occurrence of the pattern after text in which none starts is deleted, the text before it is kept, and the deletion goes on after it |
| Strings.RemoveAllAbsent | app.py:93 | `replace("Title:", "")` leaves a text without "Title:" unchanged |
| Strings.RemoveAllKeepsOthers | app.py:93 | `replace(pat, "")` keeps, in order, every character that does not occur in the pattern |
| Clean.CleanResponse | app.py:86-87 | the cleaned text is no longer than the input and has no whitespace at either end |
| Clean.StripEmphasis | app.py:87 | the `re.sub` never lengthens the text; which characters it deletes is stated by `Clean.StripEmphasisDeletesRuns` |
| Clean.StripEmphasisDeletesRuns | app.py:87 | the substitution deletes exactly the characters of each maximal run of two or more `*` or `_`, and keeps every other character in order |
| Clean.StripEmphasisIdentity | app.py:87 | the substitution leaves a text unchanged exactly when no `*` or `_` stands next to an equal marker |
| Clean.CleanUnchanged | app.py:86-87 | a text with no doubled marker and no edge whitespace is returned unchanged |
| Clean.CleanKeepsContent | app.py:86-87 | every character that is neither a marker nor whitespace survives cleaning, in order |
| Clean.CleanNotIdempotent | app.py:86-87 | `*__*` cleans to `**`, which cleans to the empty string |
| Clean.CleanExampleBold | app.py:86-87 | "\*\*bold\*\*" cleans to "bold" |
| Clean.CleanExampleSingleUnderscore | app.py:86-87 | "a_b" is left alone: a single underscore is kept |
| Clean.CleanExampleSpaces | app.py:86-87 | "  x  " cleans to "x" |
| Verdict.YesFrom | app.py:121 | the scan from a position succeeds exactly when some later position holds "yes", in any case, with no word character on either side |
| Verdict.IsReusable | app.py:200 | the verdict holds exactly when the text contains the word "yes" in any case, bounded by non-word characters or the ends |
| Verdict.VerdictYes | app.py:121 | "Yes, it works" and "Yes," are reusable |
| Verdict.VerdictNotYesterday | app.py:121 | "yesterday" is not reusable |
| Verdict.VerdictNo | app.py:200 | "No, broken" is not reusable |
| Verdict.LineReason | app.py:128 | the rejection reason has at most 200 characters and no line feed; it is a prefix of the text and stops at the 200th character, the end of the text or its first line feed |
| Verdict.TextReason | app.py:170 | the listing reason is a prefix of the text with at most 200 characters, exactly 200 unless it is the whole text |
| Verdict.ReasonsAgreeOnOneLine | app.py:170 | on a text without a line feed both reasons are equal |
| Sales.ParseSales | app.py:89-98 | the title never has edge whitespace; without "Description:" the description is the input and the title is the stripped cut of the first line to 50 characters (at most 50, no line feed, only characters of the input); with it the description has no edge whitespace |
| Sales.ParseSplitsAtFirstMarker | app.py:92-95 | with "Description:" first at i, the description is what follows that occurrence, stripped, and the title is what precedes it with every "Title:" deleted, stripped |
| Sales.ParseFallbackTitle | app.py:96-98 | without "Description:" the title is the stripped prefix of the first line that is 50 characters long, or the whole line when it is shorter |
| Sales.ParseFormat | app.py:89-95 | an answer "Title: t" + line feed + "Description: d" in the requested layout parses back to (t, d) when neither part has edge whitespace and t names neither marker |
| Sales.ParseOneLine | app.py:96-98 | a single line of at most 50 characters, without "Description:" and without edge whitespace, is both the title and the description |
| Sales.ParseExample | app.py:92-95 | "Title: Lamp" + line feed + "Description: A nice lamp" parses to ("Lamp", "A nice lamp") |
| Sales.ParseFallbackExample | app.py:96-98 | "just text" parses to ("just text", "just text") |
| Category.GroupFrom | app.py:149 | where `\s*([^\n]+)` after a label starts its group: the last position reached over whitespace that holds a character other than a line feed, and nothing exactly when there is no such position |
| Category.FirstMatchFrom | app.py:149 | the leftmost position from which the whole pattern matches |
| Category.SearchFails | app.py:150 | the search fails exactly when the pattern matches nowhere |
| Category.SearchFindsLeftmost | app.py:149-150 | a successful search yields a non-empty value without line feeds: the rest of the line from the group start of the leftmost match |
| Category.SearchFindsLine | app.py:149-150 | after the first label, whitespace and then a non-whitespace character, the value is the rest of that character's line |
| Category.CategoryOf | app.py:152-155 | the category is always one of the six names, and "Miscellaneous" without a match |
| Category.NormalizeCategory | app.py:149-155 | every classification text gets one of the six category names |
| Category.CategoryChoice | app.py:152-155 | the category is c exactly when the stripped value spells c in any case, or, for "Miscellaneous", also when nothing matched or the value spells none of the six names |
| Category.SubcategoryOf | app.py:157-160 | the subcategory is "Miscellaneous" without a match or for "other"/"others" in any case; otherwise it is the stripped value title-cased, which differs from it only in case |
| Category.NormalizeSubcategory | app.py:141 | with no subcategory label followed by a value, the subcategory stays "Miscellaneous" |
| Category.SubcategoryMiscellaneous | app.py:157-160 | the subcategory is "Miscellaneous" exactly when nothing matched or the stripped value spells "other", "others" or "miscellaneous" in any case |
| Category.StrictFormatClassified | app.py:143-160 | an answer in the layout the prompt demands is classified by its two values, when each starts with a non-whitespace character, neither spans lines and the category value holds no "subcategory:" |
| Category.CategoryAcrossLines | app.py:149 | after a leading "Category:" the value is taken from the next non-blank line, because `\s*` crosses line feeds |
| Category.SubcategoryLineFirst | app.py:149-150 | an answer that opens with "Subcategory: X" gets its category and its subcategory both from X |
| Category.BlankSubcategory | app.py:150-158 | a subcategory label followed only by a space at the end of the answer yields the empty subcategory |
| Category.CategoryExample | app.py:152-155 | the value "electronics" gives the category "Electronics" |
| Category.UnknownCategoryExample | app.py:155 | the value "Spaceship" gives "Miscellaneous" |
| Category.OthersExample | app.py:159-160 | the value "others" gives the subcategory "Miscellaneous" |
| Category.LayoutExample | app.py:149-160 | the answer "Category: electronics" + line feed + "Subcategory: others" is classified Electronics / Miscellaneous |
| Service.Classify | app.py:140-162 | an answered call gives the normalised category and subcategory of the raw answer, the category one of the six names; a failed call leaves both fields at "Miscellaneous" |
| Service.Assemble | app.py:118-171 | the response is a rejection exactly when the cleaned reusability answer has no "yes", with the one-line 200-character reason; it is a failure exactly when the reusability call or, after a "yes", the description call raised, with the stage's message; otherwise a listing whose title and description are the parsed cleaned pitch, whose category and subcategory are the normalised classification answer ("Miscellaneous" when that call raised), and whose reason is the first 200 characters of the cleaned answer |
| Service.CheckReusability | app.py:197-207 | a report exactly when the call answered; its verdict is the "yes"-word test of the cleaned answer and its reason the first line of the cleaned answer cut to 200 characters; otherwise "Check failed: " and the message |
| Service.RejectionIgnoresLaterStages | app.py:125-129 | a rejection is the same whatever the description and classification calls return |
| Service.ClassificationFailureDegrades | app.py:139-162 | a failed classification call changes only the two category fields, to "Miscellaneous", and the request still succeeds exactly when it would have |
| Service.EndpointsAgree | app.py:200-206 | `/check-reusability` reports reusable exactly when `/generate-content` does not reject, with the same reason when it does |
| Service.ListingReasonOnOneLine | app.py:170 | on a one-line cleaned answer the listing's reason equals the reason `/check-reusability` reports |
| Service.LongAnswerReason | app.py:170 | a cleaned answer of 200 characters or more gives a listing reason of exactly its first 200; a rejection whose first line is that long gives its first 200 too (app.py:128) |

## Left out

- HTTP routing, CORS, `jsonify` and status codes (400, 500) are web plumbing. Responses are datatypes, and failures carry their message without the status.
- The missing-image check, the 5 MB `content_length` check and PIL image decoding (app.py:104-115, 187-195) are request I/O before the model calls.
- The rate limiter, `dotenv` configuration and the model client are framework and foreign I/O. Each model call is an input, either `Answer(text)` or `Raised(message)`, where the message is `str(e)`.
- The prompts, logging and `/health` endpoint have no behaviour to verify. The classification prompt's layout appears only as `Category.StrictFormat`.
- The outer `except` of both handlers ("Internal error", `str(e)`) is left out. Nothing in the modelled steps raises except the model calls, and those are caught by the inner handlers.
- Unicode: whitespace, word characters, case mapping, `re.IGNORECASE` and `str.title()` are modelled on ASCII only. Python also treats non-ASCII spaces as `\s`, non-ASCII letters as `\w` and as cased, and case-folds characters such as the long s (U+017F) to "s" when it ignores case. A non-ASCII character here is neither whitespace, nor a word character, nor cased.
- Category.Search: it has no contract of its own. Its meaning is stated by `Category.SearchFails`, `Category.SearchFindsLeftmost` and `Category.SearchFindsLine`.
- Category.NormalizeSubcategory: its contract covers only the no-match default. The matched case is stated on `Category.SubcategoryOf` and `Category.SubcategoryMiscellaneous`.
- Clean.StripEmphasis: its own contract is only the length bound. Which characters it deletes is stated by `Clean.StripEmphasisDeletesRuns` against a position-by-position definition.
- Strings.RemoveAll: its own contract is only the length bound. What it deletes and keeps is stated by `Strings.RemoveAllAbsent`, `Strings.RemoveAllFirst` and `Strings.RemoveAllKeepsOthers`.
