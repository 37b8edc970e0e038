/**
 * The part of `invoke_bedrock_model` that turns the decoded response
 * body into the generated text and the token counts. The body is
 * modelled after JSON decoding: each field is either absent or holds a
 * value of the expected shape.
 */
module BedrockResponse {
  import opened Wrappers
  import opened PyStr

  /** One entry of the `content` list: its `type` and its `text`. */
  datatype Item = Item(kind: Option<string>, text: Option<string>)

  /** The `usage` object. */
  datatype Usage = Usage(inputTokens: Option<int>, outputTokens: Option<int>)

  /** The decoded response body: the Messages format (`content`), the older Text Completions format (`completion`) and `usage`. */
  datatype Body = Body(content: Option<seq<Item>>, completion: Option<string>, usage: Option<Usage>)

  /** The token counts that are printed and logged. */
  datatype TokenCounts = TokenCounts(input: int, output: int, total: int)

  /** `item.get('type') == 'text'`. */
  predicate IsTextItem(item: Item) {
    item.kind == Some("text")
  }

  /**
   * The `content_parts` the loop collects from `items`: for each item
   * whose `type` is `"text"`, in order, its `text` (`""` when missing).
   */
  function TextParts(items: seq<Item>): (parts: seq<string>)
    ensures |parts| <= |items|
  {
    if |items| == 0 then []
    else
      var last := items[|items| - 1];
      TextParts(items[..|items| - 1]) + (if IsTextItem(last) then [last.text.GetOr("")] else [])
  }

  /** `'content' in response_body and len(response_body.get('content', [])) > 0`. */
  predicate HasContent(body: Body) {
    body.content.Some? && |body.content.value| > 0
  }

  /**
   * The generated text. `repr` stands for `str(response_body)`, Python's
   * rendering of the whole body, which is the text when neither known
   * format is present.
   */
  method SelectGeneratedText(body: Body, repr: string) returns (text: string)
    ensures HasContent(body) ==> text == Join(TextParts(body.content.value), "\n")
    ensures !HasContent(body) && body.completion.Some? ==> text == body.completion.value
    ensures !HasContent(body) && body.completion.None? ==> text == repr
  {
    if HasContent(body) {
      var items := body.content.value;
      var contentParts: seq<string> := [];
      for i := 0 to |items|
        invariant contentParts == TextParts(items[..i])
      {
        var item := items[i];
        assert items[..i + 1][..i] == items[..i];
        if item.kind == Some("text") {
          contentParts := contentParts + [item.text.GetOr("")];
        }
      }
      assert items[..|items|] == items;
      text := Join(contentParts, "\n");
    } else if body.completion.Some? {
      text := body.completion.value;
    } else {
      text := repr;
    }
  }

  /**
   * `usage.input_tokens`, `usage.output_tokens` and their sum, each
   * count being 0 when it or the whole `usage` object is missing.
   */
  function CountTokens(body: Body): (counts: TokenCounts)
    ensures counts.total == counts.input + counts.output
    ensures body.usage.None? ==> counts == TokenCounts(0, 0, 0)
    ensures body.usage.Some? ==>
      && counts.input == body.usage.value.inputTokens.GetOr(0)
      && counts.output == body.usage.value.outputTokens.GetOr(0)
  {
    var usage := body.usage.GetOr(Usage(None, None));
    var input := usage.inputTokens.GetOr(0);
    var output := usage.outputTokens.GetOr(0);
    TokenCounts(input, output, input + output)
  }

  /** The collected parts keep the order of the items: the parts of a concatenation are the concatenated parts. */
  lemma {:induction false} TextPartsAppend(a: seq<Item>, b: seq<Item>)
    ensures TextParts(a + b) == TextParts(a) + TextParts(b)
    decreases |b|
  {
    if |b| > 0 {
      var init := b[..|b| - 1];
      assert (a + b)[..|a + b| - 1] == a + init;
      assert (a + b)[|a + b| - 1] == b[|b| - 1];
      TextPartsAppend(a, init);
    } else {
      assert a + b == a;
    }
  }

  /** A part is collected exactly for each item of type `"text"`, and it is that item's text. */
  lemma {:induction false} TextPartsMembers(items: seq<Item>, p: string)
    ensures p in TextParts(items) <==>
      exists k :: 0 <= k < |items| && IsTextItem(items[k]) && items[k].text.GetOr("") == p
  {
    if |items| > 0 {
      var init := items[..|items| - 1];
      TextPartsMembers(init, p);
      var last := items[|items| - 1];
      if IsTextItem(last) && last.text.GetOr("") == p {
        assert p in TextParts(items);
      }
      assert forall k :: 0 <= k < |init| ==> init[k] == items[k];
    }
  }

  /** Items of any other type contribute nothing; only text items are counted. */
  lemma {:induction false} TextPartsCount(items: seq<Item>)
    ensures |TextParts(items)| == |set k | 0 <= k < |items| && IsTextItem(items[k])|
  {
    if |items| > 0 {
      var n := |items| - 1;
      var init := items[..n];
      TextPartsCount(init);
      var before := set k | 0 <= k < n && IsTextItem(init[k]);
      var all := set k | 0 <= k < |items| && IsTextItem(items[k]);
      assert before == set k | 0 <= k < n && IsTextItem(items[k]);
      if IsTextItem(items[n]) {
        assert all == before + {n};
      } else {
        assert all == before;
      }
    }
  }
}
