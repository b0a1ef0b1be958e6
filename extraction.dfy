/** `extractResponseText`: recover the reply text from a completion payload
    of no fixed shape. The convenience field `output_text` wins when it holds
    a non-blank string. Otherwise the non-blank strings in the `text`, `value`
    and `content` fields of the `output[*].content[*]` items are collected in
    encounter order (`text` twice on an `"output_text"` item) and joined with
    a blank line; the result is `null` when nothing is found, and a `null` or
    `undefined` entry in `output` raises a TypeError. */
module Extraction {
  import opened Js
  import opened Strings

  /** The separator passed to `parts.join`. */
  const Separator: string := "\n\n"

  /** `typeof v === "string" && v.trim()`: the trimmed string when the test
      passes, as a one-element list of fragments, and no fragment otherwise. */
  function TrimmedFragment(v: JsValue): seq<string> {
    if v.Str? && Trim(v.s) != [] then [Trim(v.s)] else []
  }

  /** Every fragment is non-blank and trimmed: what each push adds. */
  predicate AreFragments(parts: seq<string>) {
    forall i :: 0 <= i < |parts| ==> parts[i] != [] && IsTrimmed(parts[i])
  }

  lemma AppendFragments(a: seq<string>, b: seq<string>)
    requires AreFragments(a) && AreFragments(b)
    ensures AreFragments(a + b)
  {
  }

  /** What one content item `c` pushes: its `text`, its `value` and its
      `content`, each independently, then its `text` once more when its
      `type` is `"output_text"`. Every field is read with `?.`, so an item of
      any shape, `null` included, is tolerated. */
  function ItemFragments(c: JsValue): seq<string> {
    TrimmedFragment(Get(c, "text"))
    + TrimmedFragment(Get(c, "value"))
    + TrimmedFragment(Get(c, "content"))
    + (if Get(c, "type") == Str("output_text") then TrimmedFragment(Get(c, "text")) else [])
  }

  lemma ItemFragmentsAreFragments(c: JsValue)
    ensures AreFragments(ItemFragments(c))
  {
    var text, value, content := TrimmedFragment(Get(c, "text")), TrimmedFragment(Get(c, "value")),
                                TrimmedFragment(Get(c, "content"));
    var again := if Get(c, "type") == Str("output_text") then text else [];
    AppendFragments(text, value);
    AppendFragments(text + value, content);
    AppendFragments(text + value + content, again);
  }

  /** The fragments of a list of content items, in order. */
  function ContentFragments(items: seq<JsValue>): (r: seq<string>)
    ensures AreFragments(r)
  {
    if items == [] then []
    else
      var init, last := ContentFragments(items[..|items| - 1]), ItemFragments(items[|items| - 1]);
      ItemFragmentsAreFragments(items[|items| - 1]);
      AppendFragments(init, last);
      init + last
  }

  /** An output item's content list; a missing or non-array `content` is empty. */
  function ContentOf(out: JsValue): seq<JsValue> {
    ArrayOrEmpty(Get(out, "content"))
  }

  /** The fragments of a list of output items: each item's content fragments, in order. */
  function OutputFragments(outs: seq<JsValue>): (r: seq<string>)
    ensures AreFragments(r)
  {
    if outs == [] then []
    else
      var init, last := OutputFragments(outs[..|outs| - 1]), ContentFragments(ContentOf(outs[|outs| - 1]));
      AppendFragments(init, last);
      init + last
  }

  /** The output list of a payload; a missing or non-array `output` is empty. */
  function Outputs(data: JsValue): seq<JsValue> {
    ArrayOrEmpty(Get(data, "output"))
  }

  /** Some output item is `null` or `undefined`, so reading its `content`
      without optional chaining throws a TypeError. */
  predicate HasNullish(outs: seq<JsValue>) {
    exists i :: 0 <= i < |outs| && IsNullish(outs[i])
  }

  /** `typeof data.output_text === "string" && data.output_text.trim()` */
  predicate HasOutputText(data: JsValue) {
    Get(data, "output_text").Str? && !IsBlank(Get(data, "output_text").s)
  }

  /** The completion of `extractResponseText(data)`: `null`, a string, or a TypeError. */
  function ResponseText(data: JsValue): Outcome<Option<string>>
  {
    if !Truthy(data) then Return(None)
    else if HasOutputText(data) then Return(Some(Trim(Get(data, "output_text").s)))
    else if HasNullish(Outputs(data)) then Throw
    else
      var joined := Trim(Join(OutputFragments(Outputs(data)), Separator));
      if joined != [] then Return(Some(joined)) else Return(None)
  }

  /** Any text returned is non-empty and has no whitespace at either end. */
  lemma ResponseTextIsTrimmed(data: JsValue)
    ensures var r := ResponseText(data);
      r.Return? && r.value.Some? ==> r.value.value != [] && IsTrimmed(r.value.value)
  {
  }

  /** The payload's `error` field is never read: the extraction ignores it. */
  lemma ErrorFieldIsIgnored(fields: map<string, JsValue>, e: JsValue)
    ensures ResponseText(Obj(fields["error" := e])) == ResponseText(Obj(fields - {"error"}))
  {
    var d, d' := Obj(fields["error" := e]), Obj(fields - {"error"});
    assert Get(d, "output_text") == Get(d', "output_text");
    assert Get(d, "output") == Get(d', "output");
  }

  /** `if (typeof v === "string" && v.trim()) parts.push(v.trim())` */
  method PushIfNonBlank(parts: seq<string>, v: JsValue) returns (parts': seq<string>)
    ensures parts' == parts + TrimmedFragment(v)
  {
    parts' := parts;
    if v.Str? && Trim(v.s) != [] {
      parts' := parts' + [Trim(v.s)];
    }
  }

  /** The inner loop of `extractResponseText`: every item of one output's
      content list pushes its fragments, in order. */
  method PushContentFragments(parts: seq<string>, content: seq<JsValue>) returns (parts': seq<string>)
    ensures parts' == parts + ContentFragments(content)
  {
    parts' := parts;
    for j := 0 to |content|
      invariant parts' == parts + ContentFragments(content[..j])
    {
      var c := content[j];
      ghost var pushed := parts';
      parts' := PushIfNonBlank(parts', Get(c, "text"));
      parts' := PushIfNonBlank(parts', Get(c, "value"));
      parts' := PushIfNonBlank(parts', Get(c, "content"));
      if Get(c, "type") == Str("output_text") {
        parts' := PushIfNonBlank(parts', Get(c, "text"));
      }
      ItemFragmentsPushed(pushed, parts', c);
      assert content[..j + 1][..j] == content[..j];
      assert ContentFragments(content[..j + 1]) == ContentFragments(content[..j]) + ItemFragments(c);
      AppendAssoc(parts, ContentFragments(content[..j]), ItemFragments(c));
    }
    assert content[..|content|] == content;
  }

  /** The four pushes for one content item append exactly `ItemFragments(c)`. */
  lemma ItemFragmentsPushed(before: seq<string>, after: seq<string>, c: JsValue)
    requires after == before + TrimmedFragment(Get(c, "text")) + TrimmedFragment(Get(c, "value"))
                      + TrimmedFragment(Get(c, "content"))
                      + (if Get(c, "type") == Str("output_text") then TrimmedFragment(Get(c, "text")) else [])
    ensures after == before + ItemFragments(c)
  {
    var text, value, content := TrimmedFragment(Get(c, "text")), TrimmedFragment(Get(c, "value")),
                                TrimmedFragment(Get(c, "content"));
    var again := if Get(c, "type") == Str("output_text") then text else [];
    AppendAssoc(before, text, value);
    AppendAssoc(before, text + value, content);
    AppendAssoc(before, text + value + content, again);
  }

  lemma AppendAssoc<T>(a: seq<T>, b: seq<T>, c: seq<T>)
    ensures a + (b + c) == a + b + c
  {
  }

  /** The outer loop of `extractResponseText`: the fragments of every output
      item, in order, or the TypeError raised by the first `null` or
      `undefined` item, whose `content` is read without `?.`. */
  method CollectFragments(outputs: seq<JsValue>) returns (r: Outcome<seq<string>>)
    ensures r.Throw? <==> HasNullish(outputs)
    ensures r.Return? ==> r.value == OutputFragments(outputs)
  {
    var parts: seq<string> := [];
    for i := 0 to |outputs|
      invariant parts == OutputFragments(outputs[..i])
      invariant forall k :: 0 <= k < i ==> !IsNullish(outputs[k])
    {
      var out := outputs[i];
      var contentField := Member(out, "content");
      if contentField.Throw? {
        assert IsNullish(outputs[i]);
        return Throw;
      }
      var content := ArrayOrEmpty(contentField.value);
      parts := PushContentFragments(parts, content);
      assert outputs[..i + 1][..i] == outputs[..i];
      assert forall k :: 0 <= k < i + 1 ==> !IsNullish(outputs[k]);
    }
    assert outputs[..|outputs|] == outputs;
    return Return(parts);
  }

  /** `extractResponseText(data)`: the early returns, the loops, the join
      and the final `joined || null`. */
  method ExtractResponseText(data: JsValue) returns (r: Outcome<Option<string>>)
    ensures r == ResponseText(data)
  {
    if !Truthy(data) {
      return Return(None);
    }
    var outputText := Get(data, "output_text");
    if outputText.Str? && Trim(outputText.s) != [] {
      return Return(Some(Trim(outputText.s)));
    }
    var outputs := ArrayOrEmpty(Get(data, "output"));
    var collected := CollectFragments(outputs);
    if collected.Throw? {
      return Throw;
    }
    var joined := Trim(Join(collected.value, Separator));
    if joined != [] {
      r := Return(Some(joined));
    } else {
      r := Return(None);
    }
  }

  /** Fragments of consecutive content lists follow one another. */
  lemma {:induction false} ContentFragmentsAppend(a: seq<JsValue>, b: seq<JsValue>)
    ensures ContentFragments(a + b) == ContentFragments(a) + ContentFragments(b)
  {
    if b != [] {
      var b' := b[..|b| - 1];
      assert (a + b)[..|a + b| - 1] == a + b';
      ContentFragmentsAppend(a, b');
    } else {
      assert a + b == a;
    }
  }

  /** Encounter order over the outputs: the fragments of consecutive output
      lists follow one another. */
  lemma {:induction false} OutputFragmentsAppend(a: seq<JsValue>, b: seq<JsValue>)
    ensures OutputFragments(a + b) == OutputFragments(a) + OutputFragments(b)
  {
    if b != [] {
      var b' := b[..|b| - 1];
      assert (a + b)[..|a + b| - 1] == a + b';
      OutputFragmentsAppend(a, b');
    } else {
      assert a + b == a;
    }
  }

  /** The fallback path: `null` exactly when no fragment was collected,
      otherwise the fragments joined with a blank line, which the final
      `trim` leaves as they are. */
  lemma FallbackJoinsFragments(data: JsValue)
    requires Truthy(data) && !HasOutputText(data) && !HasNullish(Outputs(data))
    ensures OutputFragments(Outputs(data)) == [] ==> ResponseText(data) == Return(None)
    ensures OutputFragments(Outputs(data)) != [] ==>
              ResponseText(data) == Return(Some(Join(OutputFragments(Outputs(data)), Separator)))
  {
    JoinOfTrimmedIsTrimmed(OutputFragments(Outputs(data)), Separator);
  }

  /** The fields of a content item do not compete: every one of `text`,
      `value` and `content` that holds a non-blank string is collected. */
  lemma EveryNonBlankFieldIsCollected(c: JsValue, key: string)
    requires key == "text" || key == "value" || key == "content"
    requires Get(c, key).Str? && !IsBlank(Get(c, key).s)
    ensures Trim(Get(c, key).s) in ItemFragments(c)
  {
  }

  /** An `"output_text"` item contributes its trimmed `text` first and again
      last, with its `value` and `content` fragments between. */
  lemma OutputTextItemCountsTwice(c: JsValue)
    requires Get(c, "type") == Str("output_text")
    requires Get(c, "text").Str? && !IsBlank(Get(c, "text").s)
    ensures var t := Trim(Get(c, "text").s);
      ItemFragments(c) == [t] + TrimmedFragment(Get(c, "value")) + TrimmedFragment(Get(c, "content")) + [t]
      && multiset(ItemFragments(c))[t] >= 2
  {
  }

  /** A falsy payload, or one with no usable `output_text` and a non-array
      `output`, gives `null`. */
  lemma NoOutputListGivesNull(data: JsValue)
    requires !Truthy(data) || (!HasOutputText(data) && !Get(data, "output").Arr?)
    ensures ResponseText(data) == Return(None)
  {
  }

  lemma JoinTwo(x: string, y: string, sep: string)
    ensures Join([x, y], sep) == x + sep + y
  {
    assert [x, y][..1] == [x];
  }

  lemma OneOutputFragments(out: JsValue)
    ensures OutputFragments([out]) == ContentFragments(ContentOf(out))
  {
    assert [out][..0] == [];
  }

  lemma OneItemFragments(c: JsValue)
    ensures ContentFragments([c]) == ItemFragments(c)
  {
    assert [c][..0] == [];
  }

  lemma TwoItemFragments(c: JsValue, d: JsValue)
    ensures ContentFragments([c, d]) == ItemFragments(c) + ItemFragments(d)
  {
    assert [c, d][..1] == [c];
    OneItemFragments(c);
  }

  /** A payload whose `output` holds one item with the content list `items`. */
  function OneOutput(items: seq<JsValue>): JsValue {
    Obj(map["output" := Arr([Obj(map["content" := Arr(items)])])])
  }

  lemma OneOutputFallback(items: seq<JsValue>)
    ensures var data := OneOutput(items);
      && Truthy(data) && !HasOutputText(data) && !HasNullish(Outputs(data))
      && OutputFragments(Outputs(data)) == ContentFragments(items)
  {
    var out, data := Obj(map["content" := Arr(items)]), OneOutput(items);
    assert Get(data, "output_text") == Undefined;
    assert Outputs(data) == [out];
    assert ContentOf(out) == items;
    OneOutputFragments(out);
  }

  /** An item with one string field among `text`, `value` and `content`
      contributes that string, trimmed, once. */
  lemma SingleFieldItem(key: string, s: string)
    requires key == "text" || key == "value" || key == "content"
    requires !IsBlank(s)
    ensures ItemFragments(Obj(map[key := Str(s)])) == [Trim(s)]
  {
  }

  /** `{ output: [{ content: [{ text: a }, { value: b }] }] }` gives `a`, a
      blank line, then `b`, both trimmed. */
  lemma FragmentsJoinedInOrder(a: string, b: string)
    requires !IsBlank(a) && !IsBlank(b)
    ensures ResponseText(OneOutput([Obj(map["text" := Str(a)]), Obj(map["value" := Str(b)])]))
            == Return(Some(Trim(a) + Separator + Trim(b)))
  {
    var first, second := Obj(map["text" := Str(a)]), Obj(map["value" := Str(b)]);
    SingleFieldItem("text", a);
    SingleFieldItem("value", b);
    TwoItemFragments(first, second);
    OneOutputFallback([first, second]);
    FallbackJoinsFragments(OneOutput([first, second]));
    JoinTwo(Trim(a), Trim(b), Separator);
  }

  /** A payload without `output_text` whose answer comes as one
      `{ type: "output_text", text }` content item, the shape the completion
      API uses, yields that text twice. */
  lemma OutputTextItemDuplicated(text: string)
    requires !IsBlank(text)
    ensures ResponseText(OneOutput([Obj(map["type" := Str("output_text"), "text" := Str(text)])]))
            == Return(Some(Trim(text) + Separator + Trim(text)))
  {
    var item := Obj(map["type" := Str("output_text"), "text" := Str(text)]);
    OutputTextItemFragments(text);
    OneItemFragments(item);
    OneOutputFallback([item]);
    FallbackJoinsFragments(OneOutput([item]));
    JoinTwo(Trim(text), Trim(text), Separator);
  }

  lemma OutputTextItemFragments(text: string)
    requires !IsBlank(text)
    ensures ItemFragments(Obj(map["type" := Str("output_text"), "text" := Str(text)])) == [Trim(text), Trim(text)]
  {
    var item := Obj(map["type" := Str("output_text"), "text" := Str(text)]);
    assert Get(item, "text") == Str(text);
    assert Get(item, "value") == Undefined && Get(item, "content") == Undefined;
    assert Get(item, "type") == Str("output_text");
  }

  /** A usable `output_text` is returned trimmed, whatever `output` holds,
      even a `null` item that the walk would have thrown on. */
  lemma OutputTextWins(text: string, output: JsValue)
    requires !IsBlank(text)
    ensures ResponseText(Obj(map["output_text" := Str(text), "output" := output])) == Return(Some(Trim(text)))
  {
    var data := Obj(map["output_text" := Str(text), "output" := output]);
    assert Get(data, "output_text") == Str(text);
  }

  /** An output item whose `content` is missing or not an array contributes
      no fragment. */
  lemma NonArrayContentIsEmpty(out: JsValue)
    requires !Get(out, "content").Arr?
    ensures OutputFragments([out]) == []
  {
    OneOutputFragments(out);
  }

  lemma MissingOrMalformedOutputGivesNull()
    ensures ResponseText(Obj(map[])) == Return(None)
    ensures ResponseText(Obj(map["output" := Str("not-an-array")])) == Return(None)
    ensures ResponseText(Null) == Return(None)
  {
  }

  lemma NullOutputItemThrows()
    ensures ResponseText(Obj(map["output" := Arr([Obj(map[]), Null])])) == Throw
  {
    assert IsNullish([Obj(map[]), Null][1]);
  }
}
