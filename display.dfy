/** The result display of app.py: each parsed section is shown as a title in
    the colour its heading maps to and an expander holding its text; when the
    reply has no section at all, the raw reply is shown instead. */
module Display {
  import opened Text
  import opened Sectionizer
  import opened Prompt

  /** The colour classes of the display, keyed by the template's headings. */
  const ColorMap: map<string, string> := map[
    "[1. 영수증 식재료 요약]" := "section-color-1",
    "[2. 맞춤형 식단 제안 🍽️]" := "section-color-2",
    "[3. 영양소 분석 및 개선 포인트 💪]" := "section-color-3",
    "[4. 점수 UP! 추가 제안 🚀]" := "section-color-4"
  ]

  const ColorClasses: seq<string> := ["section-color-1", "section-color-2", "section-color-3", "section-color-4"]

  /** The colour map's lookup with an empty default. */
  function ColorFor(title: string): (c: string)
    ensures c == "" <==> title !in ColorMap
    ensures title in ColorMap ==> c == ColorMap[title]
  {
    if title in ColorMap then ColorMap[title] else ""
  }

  /** The colour map's keys are exactly the headings the prompt asks for. */
  lemma ColorMapKeysAreTemplateHeadings()
    ensures forall t :: t in ColorMap <==> t in TemplateHeadings
  {
    forall t ensures t in ColorMap <==> t in TemplateHeadings {
      assert t in TemplateHeadings <==> t == ReceiptSummary || t == MealPlan || t == NutrientAnalysis || t == ExtraTips;
    }
  }

  /** The i-th heading of the template is shown in the i-th colour. */
  lemma ColorForTemplate()
    ensures forall i :: 0 <= i < |TemplateHeadings| ==> ColorFor(TemplateHeadings[i]) == ColorClasses[i]
  {
  }

  /** A title that is not one of the template's headings gets no colour. */
  lemma ColorForOtherTitle(title: string)
    ensures title !in TemplateHeadings ==> ColorFor(title) == ""
  {
    ColorMapKeysAreTemplateHeadings();
  }

  /** The text that makes a section's expander start open. */
  const DetailsOpenMarker: string := "영수증 식재료 요약"

  /** A section's expander starts open exactly when its title contains the
      marker as a substring. */
  predicate OpensExpanded(title: string) {
    Contains(title, DetailsOpenMarker)
  }

  /** A text in which no two adjacent characters are the first two of n does
      not contain n. */
  lemma {:induction false} NoPairNoContains(t: string, n: string)
    requires 2 <= |n|
    requires forall j :: 0 <= j < |t| - 1 ==> !(t[j] == n[0] && t[j + 1] == n[1])
    ensures !Contains(t, n)
  {
    forall i: nat | i <= |t| ensures !OccursAt(t, n, i) {
      if i + |n| <= |t| {
        assert t[i..i + |n|][0] == t[i] && t[i..i + |n|][1] == t[i + 1];
      }
    }
  }

  /** Of the template's headings, only the first opens its expander. */
  lemma OpensExpandedTemplate()
    ensures forall i :: 0 <= i < |TemplateHeadings| ==> (OpensExpanded(TemplateHeadings[i]) <==> i == 0)
  {
    assert OccursAt(ReceiptSummary, DetailsOpenMarker, 4);
    NoPairNoContains(MealPlan, DetailsOpenMarker);
    NoPairNoContains(NutrientAnalysis, DetailsOpenMarker);
    NoPairNoContains(ExtraTips, DetailsOpenMarker);
  }

  /** One shown section: the colour class of its title, the title, whether the
      expander starts open, and the text inside the expander. */
  datatype Panel = Panel(colorClass: string, title: string, expanded: bool, content: string)

  /** What the result area shows: the coloured sections, or the reply as it
      came when no section was found in it. */
  datatype Screen = Panels(items: seq<Panel>) | RawReply(text: string)

  function PanelFor(s: Section): Panel {
    Panel(ColorFor(s.title), s.title, OpensExpanded(s.title), s.body)
  }

  /** The result display for a stored reply. */
  function Render(response: string): (v: Screen)
    ensures v.RawReply? <==> Sectionize(response) == []
    ensures v.RawReply? ==> v.text == response
    ensures v.Panels? ==> |v.items| == |Sectionize(response)|
    ensures v.Panels? ==> forall j :: 0 <= j < |v.items| ==>
      var s := Sectionize(response)[j];
      v.items[j].title == s.title && IsHeading(v.items[j].title) &&
      v.items[j].content == s.body && IsStripped(v.items[j].content) &&
      v.items[j].colorClass == ColorFor(s.title) && v.items[j].expanded == OpensExpanded(s.title)
  {
    SectionizeShape(response);
    var ps := Sectionize(response);
    if ps == [] then RawReply(response) else Panels(seq(|ps|, j requires 0 <= j < |ps| => PanelFor(ps[j])))
  }

  /** The raw reply is shown exactly when the reply holds no heading anywhere. */
  lemma RawReplyIffNoHeading(response: string)
    ensures Render(response).RawReply? <==> NoHeading(response)
  {
    SectionizeEmptyIff(response);
  }

  /** A reply that repeats the report template after text without '[' is
      shown as four panels in the four colours, in template order, with only
      the first expander open. */
  lemma EchoedTemplateRendering(lead: string)
    requires NoOpenBracket(lead)
    ensures Render(lead + ReportTemplate()).Panels?
    ensures |Render(lead + ReportTemplate()).items| == |TemplateHeadings|
    ensures forall i :: 0 <= i < |TemplateHeadings| ==>
      Render(lead + ReportTemplate()).items[i] ==
        Panel(ColorClasses[i], TemplateHeadings[i], i == 0, Strip(TemplateBodies[i]))
  {
    var r := lead + ReportTemplate();
    EchoedTemplateParses(lead);
    OpensExpandedTemplate();
    ColorForTemplate();
    RenderSections(r, TemplateHeadings, TemplateBodies, ColorClasses);
  }

  /** A reply that keeps the template's four headings, in order, after text
      without '[', and writes its own bracket-free text under each, is shown
      as four panels in the four colours, in template order, each holding its
      own stripped text, with only the first expander open. */
  lemma FilledTemplateRendering(lead: string, bs: seq<string>)
    requires NoOpenBracket(lead) && |bs| == |TemplateHeadings|
    requires forall i :: 0 <= i < |bs| ==> NoOpenBracket(bs[i])
    ensures Render(lead + Interleave(TemplateHeadings, bs)).Panels?
    ensures |Render(lead + Interleave(TemplateHeadings, bs)).items| == |TemplateHeadings|
    ensures forall i :: 0 <= i < |TemplateHeadings| ==>
      Render(lead + Interleave(TemplateHeadings, bs)).items[i] ==
        Panel(ColorClasses[i], TemplateHeadings[i], i == 0, Strip(bs[i]))
  {
    var r := lead + Interleave(TemplateHeadings, bs);
    TemplateHeadingsAreHeadings();
    SectionizeLayout(lead, TemplateHeadings, bs);
    OpensExpandedTemplate();
    ColorForTemplate();
    RenderSections(r, TemplateHeadings, bs, ColorClasses);
  }

  /** A reply whose sections are the headings hs over the texts bs is shown as
      one panel per heading, in order, in the colours cs, with only the first
      expander open when only the first heading holds the marker. */
  lemma RenderSections(response: string, hs: seq<string>, bs: seq<string>, cs: seq<string>)
    requires 0 < |hs| == |bs| == |cs| == |Sectionize(response)|
    requires forall i :: 0 <= i < |hs| ==> Sectionize(response)[i] == Section(hs[i], Strip(bs[i]))
    requires forall i :: 0 <= i < |hs| ==> ColorFor(hs[i]) == cs[i] && (OpensExpanded(hs[i]) <==> i == 0)
    ensures Render(response).Panels? && |Render(response).items| == |hs|
    ensures forall i :: 0 <= i < |hs| ==> Render(response).items[i] == Panel(cs[i], hs[i], i == 0, Strip(bs[i]))
  {
  }

  /** The display walk: parse the reply, then build one panel per section in
      order, or fall back to the raw reply. */
  method ShowResult(response: string) returns (v: Screen)
    ensures v == Render(response)
  {
    var parsed := ParseResponse(response);
    if parsed == [] {
      v := RawReply(response);
    } else {
      var items: seq<Panel> := [];
      for k := 0 to |parsed|
        invariant |items| == k
        invariant forall j :: 0 <= j < k ==> items[j] == PanelFor(parsed[j])
      {
        items := items + [PanelFor(parsed[k])];
      }
      v := Panels(items);
    }
  }
}
