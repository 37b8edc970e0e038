/**
 * `get_user_description`: reads console lines until one that is `done`
 * in any letter case and joins the lines before it with line feeds.
 * The console is modelled as the sequence of lines it will deliver;
 * reaching its end before a `done` line is Python's `EOFError`, which
 * the function does not catch, and appears here as `None`.
 */
module Description {
  import opened Wrappers
  import opened PyStr

  /** `line.lower() == 'done'`: the line that ends the description. */
  predicate IsDone(line: string) {
    Lower(line) == "done"
  }

  /**
   * The lines kept before the first `done` line, or `None` when the
   * input has no `done` line. The result is exactly the prefix of the
   * input up to that first `done` line.
   */
  function CollectLines(input: seq<string>): (r: Option<seq<string>>)
    ensures r.None? <==> forall k :: 0 <= k < |input| ==> !IsDone(input[k])
    ensures r.Some? ==>
      && |r.value| < |input|
      && r.value == input[..|r.value|]
      && IsDone(input[|r.value|])
      && forall k :: 0 <= k < |r.value| ==> !IsDone(input[k])
  {
    if |input| == 0 then None
    else if IsDone(input[0]) then Some([])
    else
      match CollectLines(input[1..])
      case None => None
      case Some(rest) => Some([input[0]] + rest)
  }

  /**
   * The loop of `get_user_description`: append each line to `lines`
   * until a `done` line, then return `"\n".join(lines)`.
   */
  method GetUserDescription(input: seq<string>) returns (description: Option<string>)
    ensures description.None? <==> CollectLines(input).None?
    ensures description.Some? ==> description.value == Join(CollectLines(input).value, "\n")
  {
    var lines: seq<string> := [];
    var i := 0;
    while true
      invariant 0 <= i <= |input|
      invariant lines == input[..i]
      invariant forall k :: 0 <= k < i ==> !IsDone(input[k])
      decreases |input| - i
    {
      if i == |input| {
        return None;
      }
      var line := input[i];
      if IsDone(line) {
        break;
      }
      lines := lines + [line];
      i := i + 1;
    }
    assert CollectLines(input).Some? && |CollectLines(input).value| == i;
    return Some(Join(lines, "\n"));
  }

  /** Any letter case of `done` ends the input; extra characters around it do not. */
  lemma DoneSpellings()
    ensures IsDone("done") && IsDone("DONE") && IsDone("Done")
    ensures !IsDone(" done") && !IsDone("done ") && !IsDone("don") && !IsDone("")
  {
    assert Lower("DONE") == "done";
    assert Lower("Done") == "done";
  }

  /** A line holding any whitespace, such as `" done"`, never ends the input. */
  lemma SpacedLineNeverDone(line: string, k: nat)
    requires k < |line| && IsSpace(line[k])
    ensures !IsDone(line)
  {
    assert Lower(line)[k] == line[k];
    if |line| == 4 {
      assert !IsSpace("done"[k]);
    }
  }

  /** Lines after the first `done` line are never read. */
  lemma {:induction false} CollectIgnoresLaterInput(input: seq<string>, more: seq<string>)
    requires CollectLines(input).Some?
    ensures CollectLines(input + more) == CollectLines(input)
  {
    if !IsDone(input[0]) {
      assert (input + more)[1..] == input[1..] + more;
      CollectIgnoresLaterInput(input[1..], more);
    }
  }

  /**
   * Console lines never contain a line feed, so the description
   * determines the lines it was joined from whenever there was at
   * least one.
   */
  lemma DescriptionDeterminesLines(input: seq<string>)
    requires forall k :: 0 <= k < |input| ==> '\n' !in input[k]
    requires CollectLines(input).Some? && |CollectLines(input).value| > 0
    ensures Split(Join(CollectLines(input).value, "\n"), '\n') == CollectLines(input).value
  {
    var lines := CollectLines(input).value;
    assert forall k :: 0 <= k < |lines| ==> lines[k] == input[k];
    SplitJoin(lines, '\n');
  }
}
