/** The prompt of app.py (generate_meal_plan_prompt) and the colour map of
    the result display. The prompt ends with a four-part report template whose
    bracketed headings are the keys of the colour map, so a reply that keeps
    the template's headings, in order, over bracket-free texts of its own is
    read back as four sections under those headings. */
module Prompt {
  import opened Text
  import opened Sectionizer

  // ---------------------------------------------------------------------------
  // The report template

  const ReceiptSummary: string := "[1. 영수증 식재료 요약]"
  const MealPlan: string := "[2. 맞춤형 식단 제안 🍽️]"
  const NutrientAnalysis: string := "[3. 영양소 분석 및 개선 포인트 💪]"
  const ExtraTips: string := "[4. 점수 UP! 추가 제안 🚀]"

  /** The headings of the report template, in the order the prompt asks for them. */
  const TemplateHeadings: seq<string> := [ReceiptSummary, MealPlan, NutrientAnalysis, ExtraTips]

  const ShoppingList: string :=
    "### 오늘 구매한 식재료 목록:\n" +
    "- (식재료 1) \n" +
    "- (식재료 2) \n" +
    "- (식재료 3) \n"

  const PurchaseScore: string :=
    "### 🛒 오늘의 구매 점수 : XX/100\n"

  const ProteinScore: string :=
    "### 단백질 점수: 🥩 XX/100\n" +
    "- 구매한 식재료 중 단백질이 풍부한 재료: (재료명)\n"

  const CarbScore: string :=
    "### 탄수화물 점수: 🍚 XX/100\n" +
    "- 구매한 식재료 중 탄수화물이 풍부한 재료: (재료명)\n"

  const FatScore: string :=
    "### 지방 점수: 🥑 XX/100\n" +
    "- 구매한 식재료 중 건강한 지방이 풍부한 재료: (재료명)\n"

  const VitaminScore: string :=
    "### 비타민/무기질 점수: 🥬 XX/100\n" +
    "- 구매한 식재료 중 비타민과 무기질이 풍부한 재료: (재료명)\n"

  /** The text under the first heading: the ingredient list and the nutrient scores. */
  const SummaryBody: string :=
    "\n" + ShoppingList + "\n" + PurchaseScore + "\n" + ProteinScore + "\n" + CarbScore + "\n" + FatScore + "\n" + VitaminScore + "\n"

  const Breakfast: string :=
    "### 아침:\n" +
    "- (메뉴 1) ,(메뉴 2) \n"

  const Lunch: string :=
    "### 점심:\n" +
    "- (메뉴 1) ,(메뉴 2) \n"

  const Dinner: string :=
    "### 저녁:\n" +
    "- (메뉴 1) ,(메뉴 2) \n"

  /** The text under the second heading: breakfast, lunch and dinner. */
  const MealPlanBody: string :=
    "\n" + Breakfast + "\n" + Lunch + "\n" + Dinner + "\n"

  const Strengths: string :=
    "### ⭕ 현재 식단의 강점:\n" +
    "- (강점 1) \n" +
    "- (강점 2) \n" +
    "- (강점 3) \n"

  const MissingNutrients: string :=
    "### ❌ 부족한 영양소:\n" +
    "- (부족 영양소 1) \n" +
    "- (부족 영양소 2) \n" +
    "- (부족 영양소 3) \n"

  const Improvements: string :=
    "### 건강 목표 달성을 위한 개선 필요 사항:\n" +
    "- (개선사항 1) \n" +
    "- (개선사항 2) \n" +
    "- (개선사항 3) \n"

  /** The text under the third heading: strengths, missing nutrients and improvements. */
  const NutrientBody: string :=
    "\n" + Strengths + "\n" + MissingNutrients + "\n" + Improvements + "\n"

  const NextShopping: string :=
    "### 다음 장보기 시 구매 추천 식재료:\n" +
    "- (추천 식재료 1) \n" +
    "- (추천 식재료 2) \n" +
    "- (추천 식재료 3) \n"

  const Supplements: string :=
    "### 영양제 추천:\n" +
    "- (추천 영양제 1) \n" +
    "- (추천 영양제 2) \n"

  const ExtraScore: string :=
    "### 개선 시 예상 추가 점수: +XX점\n"

  const ClosingNote: string :=
    "모든 답변은 간결하고 전문적이지만, " +
    "일반인이 이해하기 쉬운 용어로 작성해주세요.\n"

  /** The text under the fourth heading: shopping and supplement tips, then the closing instruction. */
  const ExtraTipsBody: string :=
    "\n" + NextShopping + "\n" + Supplements + "\n" + ExtraScore + "\n" + ClosingNote

  const TemplateBodies: seq<string> := [SummaryBody, MealPlanBody, NutrientBody, ExtraTipsBody]

  /** The report template: each heading followed by the text under it. */
  function ReportTemplate(): string {
    ReceiptSummary + SummaryBody + MealPlan + MealPlanBody +
    NutrientAnalysis + NutrientBody + ExtraTips + ExtraTipsBody
  }

  /** The instruction line between the receipt text and the template. */
  const FormatRequest: string :=
    "다음 형식으로 분석해주세요. " +
    "각 섹션의 제목은 그대로 유지하고, " +
    "내용은 Markdown 형식으로 작성해주세요:"

  /** The text in front of the template: the user's profile, the receipt text
      and the request to keep the section titles. Height and weight arrive as
      the text Python prints for them. */
  function ProfileAndReceipt(gender: string, height: string, weight: string, goal: string, receiptText: string): string {
    "\n사용자 정보:\n" +
    "- 성별: " + gender + "\n" +
    "- 신장: " + height + "cm\n" +
    "- 체중: " + weight + "kg\n" +
    "- 건강 목표: " + goal + "\n" +
    "\n" +
    "영수증 내용:\n" +
    receiptText + "\n" +
    "\n" +
    FormatRequest + "\n" +
    "\n"
  }

  /** generate_meal_plan_prompt: the profile and receipt block, then the report
      template, which the prompt always ends with. */
  function MealPlanPrompt(gender: string, height: string, weight: string, goal: string, receiptText: string): (p: string)
    ensures EndsWith(p, ReportTemplate())
  {
    var front := ProfileAndReceipt(gender, height, weight, goal, receiptText);
    var template := ReportTemplate();
    SuffixOfAppend(front, template);
    front + template
  }

  /** t is the tail of p. */
  predicate EndsWith(p: string, t: string) {
    |t| <= |p| && p[|p| - |t|..] == t
  }

  /** b is the tail of a + b. */
  lemma SuffixOfAppend(a: string, b: string)
    ensures EndsWith(a + b, b)
  {
    assert (a + b)[|a|..] == b;
  }

  // ---------------------------------------------------------------------------
  // The template's headings, as the parser sees them

  lemma ReceiptSummaryIsHeading()
    ensures HeadingShape(ReceiptSummary, 1)
  {
    assert ReceiptSummary[4..|ReceiptSummary| - 1] == "영수증 식재료 요약";
  }

  lemma MealPlanIsHeading()
    ensures HeadingShape(MealPlan, 1)
  {
    assert MealPlan[4..|MealPlan| - 1] == "맞춤형 식단 제안 🍽️";
  }

  lemma NutrientAnalysisIsHeading()
    ensures HeadingShape(NutrientAnalysis, 1)
  {
    assert NutrientAnalysis[4..|NutrientAnalysis| - 1] == "영양소 분석 및 개선 포인트 💪";
  }

  lemma ExtraTipsIsHeading()
    ensures HeadingShape(ExtraTips, 1)
  {
    assert ExtraTips[4..|ExtraTips| - 1] == "점수 UP! 추가 제안 🚀";
  }

  /** Each heading of the template has the shape the parser looks for. */
  lemma TemplateHeadingsAreHeadings()
    ensures forall i :: 0 <= i < |TemplateHeadings| ==> IsHeading(TemplateHeadings[i])
  {
    ReceiptSummaryIsHeading();
    MealPlanIsHeading();
    NutrientAnalysisIsHeading();
    ExtraTipsIsHeading();
  }

  // Each block of the first and the fourth body holds no '['. The solver
  // settles a block on its own but not those two bodies whole, so they are
  // proved block by block; the second and the third body are short enough to
  // settle directly.

  lemma ShoppingListBracketFree()
    ensures NoOpenBracket(ShoppingList)
  {
  }

  lemma PurchaseScoreBracketFree()
    ensures NoOpenBracket(PurchaseScore)
  {
  }

  lemma ProteinScoreBracketFree()
    ensures NoOpenBracket(ProteinScore)
  {
  }

  lemma CarbScoreBracketFree()
    ensures NoOpenBracket(CarbScore)
  {
  }

  lemma FatScoreBracketFree()
    ensures NoOpenBracket(FatScore)
  {
  }

  lemma VitaminScoreBracketFree()
    ensures NoOpenBracket(VitaminScore)
  {
  }

  lemma NextShoppingBracketFree()
    ensures NoOpenBracket(NextShopping)
  {
  }

  lemma SupplementsBracketFree()
    ensures NoOpenBracket(Supplements)
  {
  }

  lemma ExtraScoreBracketFree()
    ensures NoOpenBracket(ExtraScore)
  {
  }

  lemma ClosingNoteBracketFree()
    ensures NoOpenBracket(ClosingNote)
  {
  }

  lemma SummaryBodyBracketFree()
    ensures NoOpenBracket(SummaryBody)
  {
    ShoppingListBracketFree();
    PurchaseScoreBracketFree();
    ProteinScoreBracketFree();
    CarbScoreBracketFree();
    FatScoreBracketFree();
    VitaminScoreBracketFree();
  }

  lemma MealPlanBodyBracketFree()
    ensures NoOpenBracket(MealPlanBody)
  {
  }

  lemma NutrientBodyBracketFree()
    ensures NoOpenBracket(NutrientBody)
  {
  }

  lemma ExtraTipsBodyBracketFree()
    ensures NoOpenBracket(ExtraTipsBody)
  {
    NextShoppingBracketFree();
    SupplementsBracketFree();
    ExtraScoreBracketFree();
    ClosingNoteBracketFree();
  }

  lemma FormatRequestBracketFree()
    ensures NoOpenBracket(FormatRequest)
  {
  }

  /** No text under a template heading contains '[', so none of it can hold a heading. */
  lemma TemplateBodiesBracketFree()
    ensures forall i :: 0 <= i < |TemplateBodies| ==> NoOpenBracket(TemplateBodies[i])
  {
    SummaryBodyBracketFree();
    MealPlanBodyBracketFree();
    NutrientBodyBracketFree();
    ExtraTipsBodyBracketFree();
  }

  lemma InterleaveFour(h0: string, h1: string, h2: string, h3: string,
                       b0: string, b1: string, b2: string, b3: string)
    ensures Interleave([h0, h1, h2, h3], [b0, b1, b2, b3]) == h0 + b0 + h1 + b1 + h2 + b2 + h3 + b3
  {
    var x3 := Interleave([h3], [b3]);
    assert [h3][1..] == [] && [b3][1..] == [];
    assert x3 == h3 + b3 + Interleave([], []);
    var x2 := Interleave([h2, h3], [b2, b3]);
    assert [h2, h3][1..] == [h3] && [b2, b3][1..] == [b3];
    assert x2 == h2 + b2 + x3;
    var x1 := Interleave([h1, h2, h3], [b1, b2, b3]);
    assert [h1, h2, h3][1..] == [h2, h3] && [b1, b2, b3][1..] == [b2, b3];
    assert x1 == h1 + b1 + x2;
    assert [h0, h1, h2, h3][1..] == [h1, h2, h3] && [b0, b1, b2, b3][1..] == [b1, b2, b3];
    assert Interleave([h0, h1, h2, h3], [b0, b1, b2, b3]) == h0 + b0 + x1;
  }

  /** The report template is the four headings, each followed by its text. */
  lemma ReportTemplateLayout()
    ensures ReportTemplate() == Interleave(TemplateHeadings, TemplateBodies)
  {
    InterleaveFour(ReceiptSummary, MealPlan, NutrientAnalysis, ExtraTips,
                   SummaryBody, MealPlanBody, NutrientBody, ExtraTipsBody);
  }

  /** A reply that repeats the report template after any text without '[' is
      read back as exactly the template's four sections, in order, each with
      the stripped text under its heading. */
  lemma EchoedTemplateParses(lead: string)
    requires NoOpenBracket(lead)
    ensures |Sectionize(lead + ReportTemplate())| == |TemplateHeadings|
    ensures forall i :: 0 <= i < |TemplateHeadings| ==>
      Sectionize(lead + ReportTemplate())[i] == Section(TemplateHeadings[i], Strip(TemplateBodies[i]))
  {
    TemplateHeadingsAreHeadings();
    TemplateBodiesBracketFree();
    ReportTemplateLayout();
    SectionizeLayout(lead, TemplateHeadings, TemplateBodies);
  }

  /** When the profile fields and the receipt text hold no '[', the prompt
      itself parses into the four template sections: the text in front of the
      template is dropped as leading text. */
  lemma PromptParsesAsTemplate(gender: string, height: string, weight: string, goal: string, receiptText: string)
    requires NoOpenBracket(gender) && NoOpenBracket(height) && NoOpenBracket(weight)
    requires NoOpenBracket(goal) && NoOpenBracket(receiptText)
    ensures var p := MealPlanPrompt(gender, height, weight, goal, receiptText);
      |Sectionize(p)| == |TemplateHeadings| &&
      forall i :: 0 <= i < |TemplateHeadings| ==> Sectionize(p)[i].title == TemplateHeadings[i]
  {
    FormatRequestBracketFree();
    var lead := ProfileAndReceipt(gender, height, weight, goal, receiptText);
    assert NoOpenBracket(lead);
    EchoedTemplateParses(lead);
  }
}
