/**
 * The decisions `main` takes between its steps: stop when the
 * description is empty, stop when the model produced no text, otherwise
 * extract the script; afterwards run the script only on a `y` answer.
 * The model call itself is a parameter: `generate` gives the text
 * `invoke_bedrock_model` returns for a description, `None` when the call
 * failed.
 */
module Driver {
  import opened Wrappers
  import opened PyStr
  import opened Description
  import opened CodeExtraction

  /** How a run of `main` ends, up to saving the script. */
  datatype Outcome =
    | InputEnded                                   // `input()` raised `EOFError`
    | NoDescription                                // "No description provided. Exiting."
    | GenerationFailed                             // "Failed to generate diagram code. Exiting."
    | ScriptReady(description: string, code: string) // both are saved next

  /** Steps 1 to 3 of `main`, with its two early exits. */
  function Run(input: seq<string>, generate: string -> Option<string>): (outcome: Outcome)
    ensures outcome == InputEnded <==> CollectLines(input).None?
    ensures outcome.ScriptReady? ==>
      && CollectLines(input).Some?
      && outcome.description == Join(CollectLines(input).value, "\n")
      && outcome.description != ""
      && generate(outcome.description).Some?
      && generate(outcome.description).value != ""
      && outcome.code == ExtractPythonCode(generate(outcome.description).value)
    ensures CollectLines(input).Some? ==>
      var description := Join(CollectLines(input).value, "\n");
      description != "" && generate(description).Some? && generate(description).value != "" ==>
        outcome == ScriptReady(description, ExtractPythonCode(generate(description).value))
  {
    match CollectLines(input)
    case None => InputEnded
    case Some(lines) =>
      var description := Join(lines, "\n");
      if description == "" then NoDescription
      else
        match generate(description)
        case None => GenerationFailed
        case Some(text) =>
          if text == "" then GenerationFailed
          else ScriptReady(description, ExtractPythonCode(text))
  }

  /**
   * The run stops for lack of a description exactly when the first line
   * is `done`, or the first line is empty and the second is `done`.
   */
  lemma NoDescriptionExactly(input: seq<string>, generate: string -> Option<string>)
    ensures Run(input, generate) == NoDescription <==>
      || (|input| >= 1 && IsDone(input[0]))
      || (|input| >= 2 && input[0] == "" && IsDone(input[1]))
  {
    match CollectLines(input)
    case None =>
    case Some(lines) =>
      JoinEmpty(lines, "\n");
      if |lines| >= 1 {
        assert lines[0] == input[0];
        assert !IsDone(input[0]);
      }
      if |lines| == 1 {
        assert IsDone(input[1]);
      }
      if |lines| >= 2 {
        assert !IsDone(input[1]);
      }
  }

  /** The model is consulted only with a non-empty description, and its text is used only when non-empty. */
  lemma GenerationGuard(input: seq<string>, generate: string -> Option<string>)
    requires CollectLines(input).Some?
    requires Join(CollectLines(input).value, "\n") != ""
    ensures var reply := generate(Join(CollectLines(input).value, "\n"));
      Run(input, generate) == GenerationFailed <==> reply.None? || reply.value == ""
  {
  }

  /** `input(...).lower() == 'y'`: the answer that runs the script. */
  predicate WantsToRun(answer: string) {
    Lower(answer) == "y"
  }

  /** Only `y` and `Y` run the script. */
  lemma WantsToRunExactly(answer: string)
    ensures WantsToRun(answer) <==> answer == "y" || answer == "Y"
  {
    if WantsToRun(answer) {
      assert |answer| == 1;
      assert Lower(answer)[0] == LowerChar(answer[0]) == 'y';
      assert answer[0] == 'y' || answer[0] == 'Y';
      assert answer == [answer[0]];
    } else {
      assert Lower("y") == "y" && Lower("Y") == "y";
    }
  }
}
