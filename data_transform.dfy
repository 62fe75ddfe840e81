/**
 * The snippet transform of src/lib/data-transform.ts: the form record
 * becomes the VSCode snippet entry `{ [name]: { prefix, scope, body,
 * description } }`.
 */
module DataTransform {
  import opened Strings
  import opened SnippetForm

  /** The value stored under the snippet's name. */
  datatype VscodeSnippet = VscodeSnippet(
    prefix: Prefix,
    scope: string,
    body: seq<string>,
    description: string)

  /** A line: no `\n` and no `\r` inside. */
  predicate IsLine(s: string)
  {
    '\n' !in s && '\r' !in s
  }

  /**
   * `body.split(/\r?\n|\r/g)`, as a left-to-right scanner: at a `\r` the
   * regular expression first tries `\r\n`, so a `\r` followed by `\n` is one
   * separator and a lone `\r` is another; each separator ends a line,
   * empty lines included.
   */
  function SplitLines(s: string): (lines: seq<string>)
    ensures |lines| >= 1
    ensures forall i :: 0 <= i < |lines| ==> IsLine(lines[i])
    decreases |s|
  {
    if s == [] then [""]
    else if s[0] == '\n' then [""] + SplitLines(s[1..])
    else if s[0] == '\r' then
      if |s| > 1 && s[1] == '\n' then [""] + SplitLines(s[2..]) else [""] + SplitLines(s[1..])
    else
      var rest := SplitLines(s[1..]);
      [[s[0]] + rest[0]] + rest[1..]
  }

  /**
   * The reference for the line split: every `\r\n` and every lone `\r`
   * replaced by `\n`, everything else as it was.
   */
  function NormalizeNewlines(s: string): (r: string)
    ensures '\r' !in r
    decreases |s|
  {
    if s == [] then []
    else if s[0] == '\r' then
      if |s| > 1 && s[1] == '\n' then "\n" + NormalizeNewlines(s[2..]) else "\n" + NormalizeNewlines(s[1..])
    else [s[0]] + NormalizeNewlines(s[1..])
  }

  /** A string without `\r` is its own normal form. */
  lemma {:induction false} NormalizeWithoutCarriageReturn(s: string)
    requires '\r' !in s
    ensures NormalizeNewlines(s) == s
    decreases |s|
  {
    if s != [] {
      assert s[0] in s;
      assert forall c :: c in s[1..] ==> c in s;
      NormalizeWithoutCarriageReturn(s[1..]);
      assert s == [s[0]] + s[1..];
    }
  }

  /**
   * The line split is the plain split at `\n` of the normalised text:
   * `\r\n` and lone `\r` are separators exactly like `\n`.
   */
  lemma {:induction false} SplitLinesIsSplitOfNormalized(s: string)
    ensures SplitLines(s) == Split(NormalizeNewlines(s), '\n')
    decreases |s|
  {
    if s == [] {
    } else if s[0] == '\n' {
      SplitLinesIsSplitOfNormalized(s[1..]);
      assert NormalizeNewlines(s) == "\n" + NormalizeNewlines(s[1..]);
      SplitAtSeparator(NormalizeNewlines(s[1..]), '\n');
    } else if s[0] == '\r' {
      var t := if |s| > 1 && s[1] == '\n' then s[2..] else s[1..];
      SplitLinesIsSplitOfNormalized(t);
      assert NormalizeNewlines(s) == "\n" + NormalizeNewlines(t);
      SplitAtSeparator(NormalizeNewlines(t), '\n');
    } else {
      SplitLinesIsSplitOfNormalized(s[1..]);
      assert NormalizeNewlines(s) == [s[0]] + NormalizeNewlines(s[1..]);
      SplitAtOther(s[0], NormalizeNewlines(s[1..]), '\n');
    }
  }

  /**
   * One line more than there are separators, a separator being a `\r\n`,
   * a lone `\r` or a lone `\n`; so the empty body gives one empty line.
   */
  lemma LineCount(s: string)
    ensures |SplitLines(s)| == Count(NormalizeNewlines(s), '\n') + 1
  {
    SplitLinesIsSplitOfNormalized(s);
  }

  /** Joining the lines with `\n` gives the body with normalised line ends. */
  lemma JoinLines(s: string)
    ensures Join(SplitLines(s), '\n') == NormalizeNewlines(s)
  {
    SplitLinesIsSplitOfNormalized(s);
    JoinSplit(NormalizeNewlines(s), '\n');
  }

  /** A text with only `\n` line ends is split exactly at its `\n`s. */
  lemma SplitLinesWithoutCarriageReturn(s: string)
    requires '\r' !in s
    ensures SplitLines(s) == Split(s, '\n')
  {
    SplitLinesIsSplitOfNormalized(s);
    NormalizeWithoutCarriageReturn(s);
  }

  lemma {:induction false} JoinOfLinesHasNoCarriageReturn(lines: seq<string>)
    requires forall i :: 0 <= i < |lines| ==> IsLine(lines[i])
    ensures '\r' !in Join(lines, '\n')
  {
    if |lines| > 1 {
      JoinOfLinesHasNoCarriageReturn(lines[1..]);
      assert '\r' !in lines[0];
    }
  }

  /** Splitting lines joined with `\n` gives back the same lines. */
  lemma SplitLinesOfJoin(lines: seq<string>)
    requires |lines| >= 1
    requires forall i :: 0 <= i < |lines| ==> IsLine(lines[i])
    ensures SplitLines(Join(lines, '\n')) == lines
  {
    JoinOfLinesHasNoCarriageReturn(lines);
    SplitLinesWithoutCarriageReturn(Join(lines, '\n'));
    SplitJoin(lines, '\n');
  }

  /** `description || name`: only the empty string falls back, white space does not. */
  function DescriptionOrName(description: string, name: string): (d: string)
    ensures description != "" ==> d == description
    ensures description == "" ==> d == name
  {
    if description != "" then description else name
  }

  /** `snippetData2vscodeJson`: a map with exactly one key, the snippet's name. */
  function SnippetData2VscodeJson(data: SnippetData): (json: map<string, VscodeSnippet>)
    ensures json.Keys == {data.name}
  {
    map[data.name := VscodeSnippet(
      data.prefix,
      Join(data.scope, ','),
      SplitLines(data.body),
      DescriptionOrName(data.description, data.name))]
  }

  /** The entry under the name: the prefix passes through in the shape it has. */
  lemma PrefixPassesThrough(data: SnippetData)
    ensures data.name in SnippetData2VscodeJson(data)
    ensures SnippetData2VscodeJson(data)[data.name].prefix == data.prefix
  {
  }

  /**
   * The scope is the comma join: empty for an empty scope, and, when no
   * scope contains a comma, splitting it at commas gives back the scope list
   * in order with duplicates kept.
   */
  lemma ScopeIsCommaJoined(data: SnippetData)
    ensures var scope := SnippetData2VscodeJson(data)[data.name].scope;
      (data.scope == [] ==> scope == "")
      && (|data.scope| >= 1 && (forall i :: 0 <= i < |data.scope| ==> ',' !in data.scope[i]) ==>
            Split(scope, ',') == data.scope && Count(scope, ',') == |data.scope| - 1)
  {
    if |data.scope| >= 1 && (forall i :: 0 <= i < |data.scope| ==> ',' !in data.scope[i]) {
      SplitJoin(data.scope, ',');
      CountJoin(data.scope, ',');
    }
  }

  /**
   * The body is the universal line split: lines without line breaks, one
   * more than there are separators, that join back to the normalised text.
   */
  lemma BodyIsLineSplit(data: SnippetData)
    ensures var body := SnippetData2VscodeJson(data)[data.name].body;
      |body| == Count(NormalizeNewlines(data.body), '\n') + 1
      && (forall i :: 0 <= i < |body| ==> IsLine(body[i]))
      && Join(body, '\n') == NormalizeNewlines(data.body)
  {
    LineCount(data.body);
    JoinLines(data.body);
  }

  lemma DescriptionFallsBack(data: SnippetData)
    ensures var d := SnippetData2VscodeJson(data)[data.name].description;
      (data.description != "" ==> d == data.description)
      && (data.description == "" ==> d == data.name)
  {
  }

  /** The all-empty form gives `{"": {prefix: "", scope: "", body: [""], description: ""}}`. */
  lemma EmptyFormTransform()
    ensures SnippetData2VscodeJson(EmptySnippet()) == map["" := VscodeSnippet(Single(""), "", [""], "")]
  {
  }

  /**
   * The line-ending cases of the transform's tests: `\n`, `\r\n` and `\r` alike.
   * The strings come in as parameters pinned by the precondition rather than
   * as literals in the postcondition: a literal there makes the verifier
   * unfold every function over it, which costs far more than the proof.
   */
  lemma LineEndingExamples(l1: string, l2: string)
    requires l1 == "line1" && l2 == "line2"
    ensures SplitLines(l1 + "\n" + l2) == [l1, l2]
    ensures SplitLines(l1 + "\r\n" + l2) == [l1, l2]
    ensures SplitLines(l1 + "\r" + l2) == [l1, l2]
  {
    assert IsLine(l1) && IsLine(l2);
    TwoLines(l1, "\n", l2);
    TwoLines(l1, "\r\n", l2);
    TwoLines(l1, "\r", l2);
  }

  /** Two lines with any of the three separators between them. */
  lemma TwoLines(a: string, sep: string, b: string)
    requires IsLine(a) && IsLine(b)
    requires sep == "\n" || sep == "\r\n" || sep == "\r"
    ensures SplitLines(a + sep + b) == [a, b]
  {
    NormalizeAround(a, sep, b);
    SplitLinesIsSplitOfNormalized(a + sep + b);
    JoinTwo(a, b, '\n');
    SplitJoin([a, b], '\n');
  }

  /**
   * Two separators in a row give an empty line between them (literals as
   * parameters, as in `LineEndingExamples`).
   */
  lemma EmptyLineKept(l1: string, l2: string)
    requires l1 == "line1" && l2 == "line2"
    ensures SplitLines(l1 + "\n\n" + l2) == [l1, "", l2]
  {
    assert IsLine(l1) && IsLine(l2) && IsLine("");
    JoinThree(l1, "", l2, '\n');
    assert l1 + "\n" + "" + "\n" + l2 == l1 + "\n\n" + l2;
    SplitLinesOfJoin([l1, "", l2]);
  }

  /**
   * White-space-only lines are kept as they are (literals as parameters, as
   * in `LineEndingExamples`).
   */
  lemma BlankLinesKept(w: string)
    requires w == "   "
    ensures SplitLines(w + "\n" + w + "\n" + w) == [w, w, w]
  {
    assert IsLine(w);
    JoinThree(w, w, w, '\n');
    SplitLinesOfJoin([w, w, w]);
  }

  /** A line in front of the text is left alone by the normalisation. */
  lemma {:induction false} NormalizeAfterLine(a: string, t: string)
    requires IsLine(a)
    ensures NormalizeNewlines(a + t) == a + NormalizeNewlines(t)
    decreases |a|
  {
    if a == [] {
      assert a + t == t;
    } else {
      assert (a + t)[1..] == a[1..] + t;
      assert a[0] in a;
      assert forall c :: c in a[1..] ==> c in a;
      NormalizeAfterLine(a[1..], t);
      assert a == [a[0]] + a[1..];
    }
  }

  /** Each of the three separators in front of a line normalises to `\n`. */
  lemma NormalizeSeparator(sep: string, b: string)
    requires IsLine(b)
    requires sep == "\n" || sep == "\r\n" || sep == "\r"
    ensures NormalizeNewlines(sep + b) == "\n" + b
  {
    var t := sep + b;
    NormalizeWithoutCarriageReturn(b);
    if sep == "\r\n" {
      assert t[2..] == b;
    } else if sep == "\n" {
      assert t[1..] == b;
    } else {
      assert t[1..] == b;
      assert |t| > 1 ==> t[1] == b[0];
    }
  }

  /** Each of the three separators between two lines normalises to `\n`. */
  lemma NormalizeAround(a: string, sep: string, b: string)
    requires IsLine(a) && IsLine(b)
    requires sep == "\n" || sep == "\r\n" || sep == "\r"
    ensures NormalizeNewlines(a + sep + b) == a + "\n" + b
  {
    assert a + sep + b == a + (sep + b);
    NormalizeAfterLine(a, sep + b);
    NormalizeSeparator(sep, b);
    assert a + ("\n" + b) == a + "\n" + b;
  }
}
