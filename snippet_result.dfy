/**
 * The transform local to the preview component
 * (src/components/snippet-result.tsx): the same entry shape as the lib
 * transform, but the scope list is kept as a list and the body is split at
 * `\n` only.
 */
module SnippetResult {
  import opened Strings
  import opened SnippetForm
  import opened DataTransform

  datatype PreviewSnippet = PreviewSnippet(
    prefix: Prefix,
    scope: seq<string>,
    body: seq<string>,
    description: string)

  /** The component's `snippetData2vscodeJson`: one key, the snippet's name. */
  function PreviewJson(data: SnippetData): (json: map<string, PreviewSnippet>)
    ensures json.Keys == {data.name}
  {
    map[data.name := PreviewSnippet(
      data.prefix,
      data.scope,
      Split(data.body, '\n'),
      DescriptionOrName(data.description, data.name))]
  }

  /** Prefix, scope and the description fallback as the form holds them. */
  lemma PreviewFields(data: SnippetData)
    ensures data.name in PreviewJson(data)
    ensures var e := PreviewJson(data)[data.name];
      e.prefix == data.prefix && e.scope == data.scope
      && (data.description != "" ==> e.description == data.description)
      && (data.description == "" ==> e.description == data.name)
  {
  }

  /**
   * The body is split at every `\n` and nowhere else: one line more than
   * there are `\n`s, and the lines joined with `\n` give back the body
   * exactly, `\r` included.
   */
  lemma PreviewBody(data: SnippetData)
    ensures var body := PreviewJson(data)[data.name].body;
      |body| == Count(data.body, '\n') + 1
      && (forall i :: 0 <= i < |body| ==> '\n' !in body[i])
      && Join(body, '\n') == data.body
  {
    JoinSplit(data.body, '\n');
  }

  /**
   * `"a\r\nb"` previews as `["a\r", "b"]`: the `\r` stays at the line end.
   * The strings come in as parameters pinned by the precondition rather than
   * as literals in the postcondition: a literal there makes the verifier
   * unfold every function over it, which costs far more than the proof.
   */
  lemma CarriageReturnSurvives(a: string, b: string)
    requires a == "a" && b == "b"
    ensures Split(a + "\r\n" + b, '\n') == [a + "\r", b]
  {
    SplitJoin([a + "\r", b], '\n');
    assert Join([a + "\r", b], '\n') == a + "\r\n" + b;
  }

  /** The lib transform's scope is the comma join of the preview's scope list. */
  lemma ScopeDiffers(data: SnippetData)
    ensures SnippetData2VscodeJson(data)[data.name].scope == Join(PreviewJson(data)[data.name].scope, ',')
  {
  }

  /**
   * The two transforms give the same body exactly when the body has no
   * `\r`; and all other fields but the scope always agree.
   */
  lemma BodiesAgreeIffNoCarriageReturn(data: SnippetData)
    ensures SnippetData2VscodeJson(data)[data.name].body == PreviewJson(data)[data.name].body
        <==> '\r' !in data.body
    ensures SnippetData2VscodeJson(data)[data.name].prefix == PreviewJson(data)[data.name].prefix
    ensures SnippetData2VscodeJson(data)[data.name].description == PreviewJson(data)[data.name].description
  {
    var lib := SplitLines(data.body);
    var preview := Split(data.body, '\n');
    if '\r' !in data.body {
      SplitLinesWithoutCarriageReturn(data.body);
    } else {
      // Joined, the preview's lines give back the body with its `\r`, which
      // none of the lib's lines has.
      JoinSplit(data.body, '\n');
      JoinOfLinesHasNoCarriageReturn(lib);
      assert lib != preview;
    }
  }
}
