# Planeat: receipt analysis, reply sectionizer and result display

Planeat is a Streamlit page. The user uploads a receipt photo and fills in a
profile (gender, height, weight, health goal). The page then asks a language
model for a meal plan and shows the reply as coloured sections. This project
models the part of `app.py` that has logic of its own:

- **Prompt** (`prompt.dfy`). `generate_meal_plan_prompt` is a profile and
  receipt block followed by a fixed report template with four bracketed
  headings. The model holds the template text character for character. It
  proves that the prompt ends with the template, that each of the four
  headings matches the parser's heading pattern, and that no body text holds
  a `[`. From these it proves that a reply echoing the template parses back
  into exactly the template's four sections; the display proves the same for
  a reply that keeps the headings and writes its own bracket-free texts.
- **Sectionizer** (`sectionizer.dfy`), which is `parse_gemini_response`:
  - the heading pattern `\[\d+\.\s.*?\]` twice: declaratively (`IsHeading`)
    and as the scanner that `re.match` runs (`MatchLen`), with lemmas that the
    two agree;
  - `re.split` with a capturing group (`Split`), as a leftmost scan;
  - the `while` loop over the pieces (`ParseResponse`), proved equal to a
    declarative reading (`Sectionize`): pair every heading piece with the
    stripped piece after it;
  - lemmas that titles are headings and bodies are stripped, that the input
    is rebuilt from the pieces, that titles appear in input order without
    overlap, that leading text is dropped, that a missing body is `""`, and
    that the result is empty exactly when the reply holds no heading.
- **Display** (`display.dfy`). This covers the colour map, the expander rule
  (open only for a title containing `영수증 식재료 요약`) and the fallback to
  the raw reply when nothing parses. `ShowResult` is the display loop.
  `Render` is its declarative form.
- **Session** (`session.dfy`). The button gate is a predicate. A class
  `AnalysisState` holds the two session entries `analysis_completed` and
  `analysis_result`; its `Click` method is the button handler. The
  model-call and number-printing steps are function parameters.
- **Text** (`text.dfy`) holds `str.strip()`, ASCII whitespace and substring
  search. **Wrappers** (`wrappers.dfy`) holds `Option`.

## Model

| member | source | states |
|---|---|---|
| Text.Strip | app.py:310 | the stripped text has no whitespace at either end and is no longer than the input |
| Text.StripCutsBlanks | app.py:310 | strip() returns the slice of the input after its leading whitespace, and both cut-off ends are all whitespace |
| Text.StripEmptyIffBlank | app.py:375 | strip() gives "" exactly when the text is made only of whitespace (the empty text included) |
| Text.StripIdempotent | app.py:310 | stripping a stripped text changes nothing |
| Sectionizer.IsHeading | app.py:304 | a text is one complete match of `\[\d+\.\s.*?\]`: '[', one or more digits, '.', one whitespace character, a run without newline or ']', then ']' |
| Sectionizer.MatchLen | app.py:308 | re.match at the front of a text: the length of the lazy match, at least 5 and within the text, or none |
| Sectionizer.MatchLenSound | app.py:304 | the prefix the scanner accepts is one complete match of the heading pattern |
| Sectionizer.MatchLenComplete | app.py:304 | any prefix that is a heading is exactly what the scanner finds, so the match at a position is unique |
| Sectionizer.HeadingStartsWithHeading | app.py:308 | re.match accepts every heading |
| Sectionizer.StartsWithHeadingIff | app.py:308 | re.match succeeds on a text exactly when some prefix of it is a heading, and then it matches that prefix |
| Sectionizer.Split | app.py:304 | re.split with one capturing group yields an odd number of pieces |
| Sectionizer.SplitConcat | app.py:304 | joining the split pieces gives back the input |
| Sectionizer.SplitHeadings | app.py:304 | every odd piece of the split is a heading |
| Sectionizer.SplitTexts | app.py:304 | no even piece of the split contains a heading anywhere |
| Sectionizer.SplitFirstPieceLeftmost | app.py:304 | the search is leftmost: no match of the pattern starts anywhere inside piece 0, so piece 0 is exactly the text before the first match |
| Sectionizer.SplitTextsLeftmost | app.py:304 | no match of the pattern starts at any position of the input that lies inside a text piece |
| Sectionizer.SplitHeadingFirst | app.py:304 | a heading at the front of the input becomes piece 1, after an empty piece 0 |
| Sectionizer.SplitLeadingText | app.py:304 | text in front of the first heading only extends piece 0; all other pieces are untouched |
| Sectionizer.Sectionize | app.py:301-315 | what parse_gemini_response returns: the sections built from the split of the reply |
| Sectionizer.Pairs | app.py:309-311 | one section per heading piece, each body stripped |
| Sectionizer.SectionizeShape | app.py:304-311 | every title matches the heading pattern and every body is stripped |
| Sectionizer.SectionsReconstructInput | app.py:304-311 | the input is the leading text then each title with its unstripped body in turn, and each section is that title with that body stripped |
| Sectionizer.TitleInInput | app.py:304-309 | each title stands in the input at its offset |
| Sectionizer.FirstTitleIsFirstHeading | app.py:304-309 | the first title stands right after the discarded text, no match starts before it, and re.match there matches exactly the title: it is the leftmost heading of the reply |
| Sectionizer.TitlesInOrder | app.py:304-309 | an earlier title ends at or before the start of a later one: titles are in input order and none is reported twice |
| Sectionizer.SectionizeEmptyIff | app.py:304-315 | the result is empty exactly when the reply contains no heading |
| Sectionizer.StripNoHeading | app.py:310 | stripping a heading-free text keeps it heading-free |
| Sectionizer.BodiesHaveNoHeading | app.py:304-310 | no body contains a heading, so parsing a body again yields nothing |
| Sectionizer.LeadingTextDiscarded | app.py:304-307 | text before the first heading never reaches the output |
| Sectionizer.SectionizeHeadingFirst | app.py:304-313 | a heading at the front gives the first section, whose body is the stripped text up to the next heading |
| Sectionizer.TrailingHeadingEmptyBody | app.py:310 | a heading with nothing after it gives a section with body "" and no error |
| Sectionizer.NoBracketNoHeadingBefore | app.py:304 | no heading starts inside a text without '[' |
| Sectionizer.SectionizeStep | app.py:304-313 | a heading followed by bracket-free text parses as that section followed by the parse of the rest |
| Sectionizer.SectionizeLayout | app.py:304-315 | headings separated by bracket-free texts, after a bracket-free lead, parse into exactly those headings in order, each with its text stripped |
| Sectionizer.Walk | app.py:305-314 | the loop from index i: on a piece re.match accepts, emit it with the next piece (or "") stripped and move on by two, otherwise move on by one |
| Sectionizer.WalkBounds | app.py:305-314 | from index i the loop emits at most one section per two remaining pieces, each with a title re.match accepts and a stripped body |
| Sectionizer.WalkAtHeading | app.py:308-312 | on a heading piece the loop emits it with the next piece stripped and moves on by two |
| Sectionizer.WalkPairs | app.py:305-314 | on split pieces the loop visits exactly the odd pieces and emits the declarative sections from there on |
| Sectionizer.WalkSplit | app.py:304-315 | the loop over the split of a reply yields exactly the declarative sections of that reply |
| Sectionizer.ParseResponse | app.py:301-315 | the while loop terminates with i within bounds, and its result is the declarative sections of the reply |
| Prompt.ProfileAndReceipt | app.py:227-238 | the front of the prompt: the profile lines with the four fields, the receipt text and the instruction line |
| Prompt.ReportTemplate | app.py:239-297 | the report template: the four bracketed headings, each followed by the text under it |
| Prompt.MealPlanPrompt | app.py:225-299 | the prompt always ends with the report template |
| Prompt.ReceiptSummaryIsHeading | app.py:239 | the first template heading has the heading shape with one digit |
| Prompt.MealPlanIsHeading | app.py:259 | the second template heading has the heading shape |
| Prompt.NutrientAnalysisIsHeading | app.py:269 | the third template heading has the heading shape |
| Prompt.ExtraTipsIsHeading | app.py:285 | the fourth template heading has the heading shape |
| Prompt.TemplateHeadingsAreHeadings | app.py:239-285 | each of the four template headings matches the parser's heading pattern |
| Prompt.SummaryBodyBracketFree | app.py:240-258 | the text under the first heading holds no '[' |
| Prompt.MealPlanBodyBracketFree | app.py:260-268 | the text under the second heading holds no '[' |
| Prompt.NutrientBodyBracketFree | app.py:270-284 | the text under the third heading holds no '[' |
| Prompt.ExtraTipsBodyBracketFree | app.py:286-297 | the text under the fourth heading holds no '[' |
| Prompt.FormatRequestBracketFree | app.py:237 | the instruction line before the template holds no '[' |
| Prompt.TemplateBodiesBracketFree | app.py:240-297 | none of the four template texts holds a '[' |
| Prompt.InterleaveFour | app.py:239-297 | four headings with their texts written out in turn are their interleaving |
| Prompt.ReportTemplateLayout | app.py:239-297 | the template is the four headings, each followed by its text |
| Prompt.EchoedTemplateParses | app.py:239-315 | a reply that repeats the template after bracket-free text parses into exactly the four template sections, in order, each with its text stripped |
| Prompt.PromptParsesAsTemplate | app.py:227-315 | when the profile fields and the receipt text hold no '[', the prompt itself parses into four sections titled with the template headings |
| Display.ColorFor | app.py:402-410 | the colour is "" exactly for titles outside the map, and otherwise the map's entry |
| Display.ColorMapKeysAreTemplateHeadings | app.py:402-407 | the colour map's keys are exactly the four template headings |
| Display.ColorForTemplate | app.py:402-410 | the i-th template heading gets the i-th colour class |
| Display.ColorForOtherTitle | app.py:410 | a title that is not a template heading gets "" |
| Display.OpensExpanded | app.py:417 | a title's expander starts open exactly when the title contains `영수증 식재료 요약` |
| Display.NoPairNoContains | app.py:417 | a text in which no two adjacent characters begin the marker does not contain it |
| Display.OpensExpandedTemplate | app.py:417 | of the four template headings only the first opens its expander |
| Display.PanelFor | app.py:409-418 | one shown section: its colour class, its title, whether its expander starts open, and its stripped body |
| Display.Render | app.py:396-422 | the raw reply is shown exactly when nothing parses; otherwise one panel per section, in order, with its title, its stripped body, its colour and its expander rule |
| Display.RawReplyIffNoHeading | app.py:401-422 | the raw reply is shown exactly when the reply contains no heading |
| Display.EchoedTemplateRendering | app.py:396-419 | a reply echoing the template after bracket-free text is shown as four panels in the four colours, in template order, with only the first expander open |
| Display.FilledTemplateRendering | app.py:396-419 | a reply that keeps the four template headings in order over bracket-free texts of its own, after bracket-free text, is shown as four panels in the four colours, in template order, each holding its own stripped text, with only the first expander open |
| Display.ShowResult | app.py:400-422 | the display loop builds exactly the declarative screen for the stored reply |
| Session.ButtonEnabled | app.py:374-377 | the button's enabling condition: a receipt text that strips to a non-empty text, a truthy gender and goal, positive height and weight, and no completed analysis |
| Session.ButtonEnabledIff | app.py:374-377 | the button is enabled exactly when the receipt text is present and not all whitespace, gender and goal are non-empty, height and weight are positive, and no analysis has completed |
| Session.AnalysisState.constructor | app.py:369-371 | the first run starts with no completed analysis and no stored reply |
| Session.AnalysisState.Click | app.py:380-393 | a press of a disabled button changes nothing; otherwise the prompt is built from the inputs and sent, a non-empty reply is stored and the analysis marked complete, and no reply or an empty one changes nothing; the two entries stay consistent and completion is never undone |
| Session.AnalysisState.Shown | app.py:396-399 | in a valid state the result area appears exactly when an analysis has completed, so the stored-reply test is implied by completion; it shows that reply's rendering, which is the raw reply exactly when the reply holds no heading |
| Session.ClickAfterAnalysis | app.py:374-380 | once an analysis has completed, a press does nothing and the result stays shown |

## Left out

- Streamlit rendering is not modelled: CSS, the SVG logo, columns, the file
  uploader, `st.spinner`, the expander widgets, markdown output and
  `st.rerun`. A panel only records what the page would show.
- Loading secrets and credentials, and the error branches around it, are not
  modelled. They are configuration I/O over foreign libraries.
- `extract_text_from_image` and `ask_gemini` are calls into the Vision and
  Gemini SDKs. `extract_text_from_image` is an `Option<string>` input, the
  extracted text. `ask_gemini` is a parameter `ask: string -> Option<string>`.
  The model assumes only what the handler relies on: `None` or a text.
- Python's printing of the float height and weight inside the prompt is a
  parameter `show`. The gate compares them as reals.
- Session.AnalysisState.Click does not model the handler's inner re-checks
  of the profile and the receipt text. A disabled `st.button` never fires,
  so those warnings cannot be reached behind the gate. Session.ButtonEnabledIff
  states the gate itself.
- The `except` branch of `parse_gemini_response`, which returns `None`, is
  not modelled: nothing in the body can raise for string input.
- Text.Strip and the heading pattern's `\s` use the whitespace below U+0080
  only: space, tab, line feed, vertical tab, form feed, carriage return and
  U+001C to U+001F. Python's `strip()` and `\s` also accept the Unicode
  whitespace above U+007F (U+0085, U+00A0, U+2028 and others); those are not
  modelled. The heading pattern's `\d` uses ASCII digits only, where Python
  also accepts other Unicode decimal digits.
- Only the one pattern `\[\d+\.\s.*?\]` is modelled, by a scanner written
  for it, not by a general regular-expression engine.
- The second copy of the whole script is not part of this model. Line 422
  joins `st.markdown(response)` to a second `import streamlit as st`, and
  lines 422-843 repeat lines 1-421; the first copy is cited.
- The text of the prompt's profile block is modelled (Prompt.ProfileAndReceipt),
  but only its bracket-freeness under bracket-free inputs is stated about it.
