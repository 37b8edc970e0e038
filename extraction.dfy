/**
 * `extract_python_code`: pulls the diagram script out of the text the
 * model returned. The first Markdown block opened by ```` ```python ````
 * wins; without one, the script is everything from the first
 * `from diagrams import`; without either, the text is returned as is.
 */
module CodeExtraction {
  import opened PyStr

  /** The opening fence of a Python code block. */
  const Fence: string := "```python"
  /** Any fence; the first one after the opening fence closes the block. */
  const Tick: string := "```"
  /** The import every generated script starts with. */
  const Anchor: string := "from diagrams import"

  /** The index just past the first opening fence (`find("```python") + len("```python")`). */
  function CodeStart(text: string): (start: int)
    ensures Contains(text, Fence) ==> |Fence| <= start <= |text|
  {
    Find(text, Fence, 0) + |Fence|
  }

  /**
   * The script in `text`. When the opening fence has no closing fence
   * after it, `find` gives -1 and the slice `text[start:-1]` stops one
   * character short of the end of the text.
   */
  function ExtractPythonCode(text: string): (code: string)
    ensures |code| <= |text|
  {
    if Contains(text, Fence) && Contains(text, Tick) then
      var start := CodeStart(text);
      Strip(Slice(text, start, Find(text, Tick, start)))
    else if Contains(text, Anchor) then
      Strip(text[Find(text, Anchor, 0)..])
    else
      text
  }

  /** The code starts right after the first occurrence of the opening fence. */
  lemma CodeStartFollowsFence(text: string)
    requires Contains(text, Fence)
    ensures OccursAt(text, Fence, CodeStart(text) - |Fence|)
    ensures forall j :: 0 <= j < CodeStart(text) - |Fence| ==> !OccursAt(text, Fence, j)
  {
  }

  /** `Find` returns the first occurrence at or after `start`. */
  lemma FindIs(s: string, pat: string, start: nat, k: nat)
    requires start <= k && OccursAt(s, pat, k)
    requires forall j :: start <= j < k ==> !OccursAt(s, pat, j)
    ensures Find(s, pat, start) == k
  {
  }

  /** Every opening fence is also a fence, so the second test of the first branch is implied by the first. */
  lemma FenceHasTick(text: string)
    requires Contains(text, Fence)
    ensures Contains(text, Tick)
  {
    var k :| 0 <= k <= |text| && OccursAt(text, Fence, k);
    assert text[k..k + |Tick|] == text[k..k + |Fence|][..|Tick|];
    assert OccursAt(text, Tick, k);
  }

  /**
   * In `pre + Fence + rest`, the first opening fence is the one after
   * `pre` when `pre` holds none: the fence cannot begin inside `pre` and
   * run on into the fence after it.
   */
  lemma FirstFence(pre: string, rest: string)
    requires !Contains(pre, Fence)
    ensures Find(pre + Fence + rest, Fence, 0) == |pre|
  {
    var t := pre + Fence + rest;
    assert t[|pre|..|pre| + |Fence|] == Fence;
    forall j | 0 <= j < |pre|
      ensures !OccursAt(t, Fence, j)
    {
      if j + |Fence| <= |pre| {
        assert t[j..j + |Fence|] == pre[j..j + |Fence|];
        assert !OccursAt(pre, Fence, j);
      } else if |pre| - j <= 3 {
        assert t[j + 3] == Fence[3 - (|pre| - j)] == '`';
        assert t[j..j + |Fence|][3] != Fence[3];
      } else {
        assert t[|pre|] == '`' != Fence[|pre| - j];
        assert t[j..j + |Fence|][|pre| - j] != Fence[|pre| - j];
      }
    }
    FindIs(t, Fence, 0, |pre|);
  }

  /**
   * In `u + body + Tick + rest`, searching from the end of `u` finds the
   * fence after `body` when `body` holds none and does not end with a
   * backtick (which would make a fence one or two places earlier).
   */
  lemma FirstTick(u: string, body: string, rest: string)
    requires !Contains(body, Tick)
    requires body == [] || body[|body| - 1] != '`'
    ensures Find(u + body + Tick + rest, Tick, |u|) == |u| + |body|
  {
    var t := u + body + Tick + rest;
    var e := |u| + |body|;
    assert t[e..e + |Tick|] == Tick;
    forall j | |u| <= j < e
      ensures !OccursAt(t, Tick, j)
    {
      if j + |Tick| <= e {
        assert t[j..j + |Tick|] == body[j - |u|..j - |u| + |Tick|];
        assert !OccursAt(body, Tick, j - |u|);
      } else if j == e - 1 {
        assert t[j] == body[|body| - 1];
        assert t[j..j + |Tick|][0] != Tick[0];
      } else {
        assert t[j + 1] == body[|body| - 1];
        assert t[j..j + |Tick|][1] != Tick[1];
      }
    }
    FindIs(t, Tick, |u|, e);
  }

  /** The script is always one contiguous piece of the text. */
  lemma ExtractIsSlice(text: string)
    ensures IsSlice(ExtractPythonCode(text), text)
  {
    var code := ExtractPythonCode(text);
    if Contains(text, Fence) && Contains(text, Tick) {
      var start := CodeStart(text);
      var piece := Slice(text, start, Find(text, Tick, start));
      StripIsSlice(piece);
      SliceOfSlice(code, piece, text);
    } else if Contains(text, Anchor) {
      var piece := text[Find(text, Anchor, 0)..];
      assert IsSlice(piece, text) by { assert piece == text[Find(text, Anchor, 0)..|text|]; }
      StripIsSlice(piece);
      SliceOfSlice(code, piece, text);
    } else {
      assert code == text[0..|text|];
    }
  }

  /** With an opening fence, the first branch is taken. */
  lemma FencedBranch(text: string)
    requires Contains(text, Fence)
    ensures ExtractPythonCode(text) ==
      Strip(Slice(text, CodeStart(text), Find(text, Tick, CodeStart(text))))
  {
    FenceHasTick(text);
  }

  /** Text with neither an opening fence nor the import comes back exactly as given, not stripped. */
  lemma ExtractWithoutMarkers(text: string)
    requires !Contains(text, Fence) && !Contains(text, Anchor)
    ensures ExtractPythonCode(text) == text
  {
  }

  /** Between the opening fence and the next fence there is no fence. */
  lemma NoTickBeforeClose(text: string, start: nat)
    requires Find(text, Tick, start) != -1
    ensures !Contains(text[start..Find(text, Tick, start)], Tick)
  {
    var piece := text[start..Find(text, Tick, start)];
    forall k | 0 <= k <= |piece|
      ensures !OccursAt(piece, Tick, k)
    {
      if k + |Tick| <= |piece| {
        assert piece[k..k + |Tick|] == text[start + k..start + k + |Tick|];
        assert !OccursAt(text, Tick, start + k);
      }
    }
  }

  /**
   * A closed block: the script is the stripped text between the end of
   * the first opening fence and the next fence; it holds no fence and
   * neither starts nor ends with whitespace.
   */
  lemma ClosedBlock(text: string)
    requires Contains(text, Fence)
    requires Find(text, Tick, CodeStart(text)) != -1
    ensures var start, end := CodeStart(text), Find(text, Tick, CodeStart(text));
      && start <= end <= |text|
      && ExtractPythonCode(text) == Strip(text[start..end])
      && !Contains(ExtractPythonCode(text), Tick)
    ensures var code := ExtractPythonCode(text);
      code == [] || (!IsSpace(code[0]) && !IsSpace(code[|code| - 1]))
  {
    FencedBranch(text);
    var start, end := CodeStart(text), Find(text, Tick, CodeStart(text));
    var piece := text[start..end];
    assert ExtractPythonCode(text) == Strip(piece);
    NoTickBeforeClose(text, start);
    StripIsSlice(piece);
    NotContainsSlice(Strip(piece), piece, Tick);
  }

  /**
   * An unclosed block: `end_idx` is -1 and the slice stops one character
   * before the end of the text, so the script is that shortened tail,
   * stripped — or empty when the opening fence ends the text.
   */
  lemma UnclosedBlock(text: string)
    requires Contains(text, Fence)
    requires Find(text, Tick, CodeStart(text)) == -1
    ensures ExtractPythonCode(text) ==
      if CodeStart(text) < |text| then Strip(text[CodeStart(text)..|text| - 1]) else []
  {
    FencedBranch(text);
  }

  /** An opening fence with nothing after it gives an empty script. */
  lemma FenceAtEnd(pre: string)
    requires !Contains(pre, Fence)
    ensures ExtractPythonCode(pre + Fence) == []
  {
    var text := pre + Fence;
    FirstFence(pre, []);
    assert text + [] == text;
    assert CodeStart(text) == |text|;
    UnclosedBlock(text);
  }

  /** Searching past `u` finds no fence when what follows has no backtick. */
  lemma NoTickAfter(u: string, body: string)
    requires '`' !in body
    ensures Find(u + body, Tick, |u|) == -1
  {
    var text := u + body;
    forall k | |u| <= k
      ensures !OccursAt(text, Tick, k)
    {
      if k + |Tick| <= |text| {
        assert text[k] == body[k - |u|];
        assert text[k..k + |Tick|][0] != Tick[0];
      }
    }
  }

  /** A text that starts with the opening fence has its code right after it. */
  lemma LeadingFence(body: string)
    ensures Contains(Fence + body, Fence) && CodeStart(Fence + body) == |Fence|
  {
    FirstFence([], body);
    assert [] + Fence + body == Fence + body;
  }

  /**
   * A block that is never closed loses the last character of its code:
   * `"```python" + body` gives `body` minus its final character, stripped
   * (`FenceAtEnd` covers an empty `body`).
   */
  lemma UnclosedBlockDropsLastChar(body: string)
    requires '`' !in body
    requires body != []
    ensures ExtractPythonCode(Fence + body) == Strip(body[..|body| - 1])
  {
    var text := Fence + body;
    LeadingFence(body);
    NoTickAfter(Fence, body);
    UnclosedBlock(text);
    assert ExtractPythonCode(text) == Strip(text[|Fence|..|text| - 1]);
    assert text[|Fence|..|text| - 1] == body[..|body| - 1];
  }

  /**
   * The opening fence takes priority over the import: whatever `pre`
   * holds — `from diagrams import` included — the script is the stripped
   * body of the first closed block.
   */
  lemma FenceBeatsAnchor(pre: string, body: string, post: string)
    requires !Contains(pre, Fence)
    requires !Contains(body, Tick)
    requires body == [] || body[|body| - 1] != '`'
    ensures ExtractPythonCode(pre + Fence + body + Tick + post) == Strip(body)
  {
    var text := pre + Fence + body + Tick + post;
    var start := |pre| + |Fence|;
    FirstFence(pre, body + Tick + post);
    assert pre + Fence + (body + Tick + post) == text;
    assert CodeStart(text) == start;
    FirstTick(pre + Fence, body, post);
    var end := Find(text, Tick, start);
    assert end == start + |body|;
    FencedBranch(text);
    assert ExtractPythonCode(text) == Strip(Slice(text, start, end));
    assert Slice(text, start, end) == text[start..end] == body;
  }

  /** A stripped text keeps a prefix that starts and ends with a non-space. */
  lemma StripKeepsPrefix(t: string, p: string)
    requires 0 < |p| <= |t| && t[..|p|] == p
    requires !IsSpace(p[0]) && !IsSpace(p[|p| - 1])
    ensures |p| <= |Strip(t)| && Strip(t)[..|p|] == p
  {
    var i, j :| 0 <= i <= j <= |t| && Strip(t) == t[i..j] && AllSpace(t[..i]) && AllSpace(t[j..]);
    assert t[0] == p[0] && t[|p| - 1] == p[|p| - 1];
    assert AllSpace(t[..i]) && AllSpace(t[j..]);
    assert i == 0;
    assert j >= |p|;
  }

  /**
   * Without an opening fence, the script is the stripped suffix of the
   * text from the first `from diagrams import`; it begins with that
   * import, and extracting again leaves it unchanged.
   */
  lemma AnchorBranch(text: string, k: nat)
    requires !Contains(text, Fence)
    requires OccursAt(text, Anchor, k)
    requires forall j :: 0 <= j < k ==> !OccursAt(text, Anchor, j)
    ensures ExtractPythonCode(text) == Strip(text[k..])
    ensures |Anchor| <= |ExtractPythonCode(text)| && ExtractPythonCode(text)[..|Anchor|] == Anchor
    ensures ExtractPythonCode(ExtractPythonCode(text)) == ExtractPythonCode(text)
  {
    FindIs(text, Anchor, 0, k);
    var tail := text[k..];
    var code := Strip(tail);
    assert tail[..|Anchor|] == Anchor;
    StripKeepsPrefix(tail, Anchor);
    assert IsSlice(tail, text) by { assert tail == text[k..|text|]; }
    StripIsSlice(tail);
    SliceOfSlice(code, tail, text);
    NotContainsSlice(code, text, Fence);
    assert OccursAt(code, Anchor, 0);
    FindIs(code, Anchor, 0, 0);
    assert code[0..] == code;
    StripIdempotent(tail);
  }
}
