/** The analysis button of app.py and the session state it writes. The state
    holds two entries that survive reruns of the script: whether an analysis
    has completed and the reply it stored. The button is enabled only for a
    complete profile, a non-blank receipt text and no completed analysis; a
    click builds the prompt, asks the model, and stores a non-empty reply. */
module Session {
  import opened Wrappers
  import opened Text
  import opened Prompt
  import opened Sectionizer
  import opened Display

  /** The profile fields are all filled in: Python's truthiness of the two
      strings and the two positivity tests on the numbers. */
  predicate ProfileComplete(gender: string, height: real, weight: real, goal: string) {
    gender != "" && height > 0.0 && weight > 0.0 && goal != ""
  }

  /** The enabling condition of the analysis button. The receipt text is None
      when no image was uploaded or the text could not be read. */
  predicate ButtonEnabled(extracted: Option<string>, gender: string, height: real, weight: real,
                          goal: string, completed: bool)
  {
    extracted.Some? && Strip(extracted.value) != "" &&
    ProfileComplete(gender, height, weight, goal) && !completed
  }

  /** The button is enabled exactly for a present receipt text that is not all
      whitespace, a complete profile, and no completed analysis. */
  lemma ButtonEnabledIff(extracted: Option<string>, gender: string, height: real, weight: real,
                         goal: string, completed: bool)
    ensures ButtonEnabled(extracted, gender, height, weight, goal, completed) <==>
      extracted.Some? && !IsBlank(extracted.value) &&
      ProfileComplete(gender, height, weight, goal) && !completed
  {
    if extracted.Some? {
      StripEmptyIffBlank(extracted.value);
    }
  }

  /** What a press of the button did. */
  datatype ClickOutcome =
    | Disabled   // the button was disabled, so the press did nothing
    | NoReply    // the model gave no reply or an empty one; nothing was stored
    | Analysed   // the reply was stored and the analysis marked complete

  /** What the page shows under the form. */
  datatype Page = FormOnly | Result(screen: Screen)

  class AnalysisState {
    var analysisCompleted: bool
    var analysisResult: Option<string>

    /** The two entries are written together, and only with a non-empty reply. */
    predicate Valid()
      reads this
    {
      (analysisCompleted <==> analysisResult.Some?) &&
      (analysisResult.Some? ==> analysisResult.value != "")
    }

    /** The first run of the script: no analysis has completed. */
    constructor()
      ensures Valid()
      ensures !analysisCompleted && analysisResult == None
    {
      analysisCompleted := false;
      analysisResult := None;
    }

    /** Whether the button is enabled for these inputs in the current state. */
    predicate Enabled(extracted: Option<string>, gender: string, height: real, weight: real, goal: string)
      reads this
    {
      ButtonEnabled(extracted, gender, height, weight, goal, analysisCompleted)
    }

    /** A press of the analysis button. The number formatting of Python and
        the model call are parameters: show renders a height or weight as the
        prompt prints it, ask is the model's reply to a prompt. */
    method Click(extracted: Option<string>, gender: string, height: real, weight: real, goal: string,
                 show: real -> string, ask: string -> Option<string>) returns (outcome: ClickOutcome)
      requires Valid()
      modifies this
      ensures Valid()
      ensures old(analysisCompleted) ==> analysisCompleted
      ensures !old(Enabled(extracted, gender, height, weight, goal)) ==>
        outcome == Disabled && unchanged(this)
      ensures old(Enabled(extracted, gender, height, weight, goal)) ==>
        var reply := ask(MealPlanPrompt(gender, show(height), show(weight), goal, extracted.value));
        if reply.Some? && reply.value != "" then
          outcome == Analysed && analysisCompleted && analysisResult == reply
        else
          outcome == NoReply && unchanged(this)
    {
      if !Enabled(extracted, gender, height, weight, goal) {
        return Disabled;
      }
      var prompt := MealPlanPrompt(gender, show(height), show(weight), goal, extracted.value);
      var response := ask(prompt);
      if response.Some? && response.value != "" {
        analysisCompleted := true;
        analysisResult := response;
        outcome := Analysed;
      } else {
        outcome := NoReply;
      }
    }

    /** The result area: shown once an analysis has completed and its reply is
        stored. In a valid state the stored-reply test follows from completion,
        and the raw reply is shown exactly when it holds no heading. */
    function Shown(): (p: Page)
      reads this
      ensures Valid() ==> (p.Result? <==> analysisCompleted)
      ensures p.Result? ==> analysisResult.Some? && p.screen == Render(analysisResult.value)
      ensures p.Result? ==> analysisResult.Some? && (p.screen.RawReply? <==> NoHeading(analysisResult.value))
    {
      if analysisCompleted && analysisResult.Some? then
        RawReplyIffNoHeading(analysisResult.value);
        Result(Render(analysisResult.value))
      else
        FormOnly
    }
  }

  /** Once an analysis has completed, the button stays disabled whatever the
      inputs: a further press neither asks the model nor changes the state. */
  method ClickAfterAnalysis(s: AnalysisState, extracted: Option<string>, gender: string, height: real,
                            weight: real, goal: string, show: real -> string, ask: string -> Option<string>)
      returns (outcome: ClickOutcome)
    requires s.Valid() && s.analysisCompleted
    modifies s
    ensures outcome == Disabled && unchanged(s)
    ensures s.Shown().Result?
  {
    outcome := s.Click(extracted, gender, height, weight, goal, show, ask);
  }
}
