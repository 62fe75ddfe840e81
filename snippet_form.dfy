/**
 * The snippet form (src/components/snippet-form.tsx): the record the form
 * edits, its single-field update, the normaliser of the prefix input and
 * the rule that picks the editor language from the first scope.
 */
module SnippetForm {
  import opened Wrappers
  import opened Strings
  import opened ScopeOptions

  /** `string | string[]`: one trigger word, or the list split at commas. */
  datatype Prefix = Single(text: string) | Multiple(items: seq<string>)

  datatype SnippetData = SnippetData(
    name: string,
    prefix: Prefix,
    scope: seq<string>,
    body: string,
    description: string)

  /**
   * The all-empty form of the tests, under the declared types: the empty
   * scope is the empty list.
   */
  function EmptySnippet(): SnippetData
  {
    SnippetData("", Single(""), [], "", "")
  }

  datatype FieldName = NameField | PrefixField | ScopeField | BodyField | DescriptionField

  /**
   * A `(field, value)` pair passed to `handleInputChange`, with the value
   * of the type the field has.
   */
  datatype FieldUpdate =
    | SetName(name: string)
    | SetPrefix(prefix: Prefix)
    | SetScope(scope: seq<string>)
    | SetBody(body: string)
    | SetDescription(description: string)
  {
    function Field(): FieldName
    {
      match this
      case SetName(_) => NameField
      case SetPrefix(_) => PrefixField
      case SetScope(_) => ScopeField
      case SetBody(_) => BodyField
      case SetDescription(_) => DescriptionField
    }
  }

  /**
   * `{ ...data, [field]: value }`: the record handed to `onChange` equals
   * `data` in every field except the one updated, which holds the new value.
   */
  function HandleInputChange(data: SnippetData, u: FieldUpdate): (r: SnippetData)
    ensures r.name == (if u.SetName? then u.name else data.name)
    ensures r.prefix == (if u.SetPrefix? then u.prefix else data.prefix)
    ensures r.scope == (if u.SetScope? then u.scope else data.scope)
    ensures r.body == (if u.SetBody? then u.body else data.body)
    ensures r.description == (if u.SetDescription? then u.description else data.description)
  {
    match u
    case SetName(n) => data.(name := n)
    case SetPrefix(p) => data.(prefix := p)
    case SetScope(s) => data.(scope := s)
    case SetBody(b) => data.(body := b)
    case SetDescription(d) => data.(description := d)
  }

  /** Updates of two different fields can be applied in either order. */
  lemma UpdatesCommute(data: SnippetData, u: FieldUpdate, v: FieldUpdate)
    requires u.Field() != v.Field()
    ensures HandleInputChange(HandleInputChange(data, u), v)
         == HandleInputChange(HandleInputChange(data, v), u)
  {
  }

  /** A second update of the same field overwrites the first. */
  lemma LastUpdateWins(data: SnippetData, u: FieldUpdate, v: FieldUpdate)
    requires u.Field() == v.Field()
    ensures HandleInputChange(HandleInputChange(data, u), v) == HandleInputChange(data, v)
  {
  }

  /** Setting a field to the value it already has gives back the same record. */
  lemma UpdateWithSameValue(data: SnippetData)
    ensures HandleInputChange(data, SetName(data.name)) == data
    ensures HandleInputChange(data, SetPrefix(data.prefix)) == data
    ensures HandleInputChange(data, SetScope(data.scope)) == data
    ensures HandleInputChange(data, SetBody(data.body)) == data
    ensures HandleInputChange(data, SetDescription(data.description)) == data
  {
  }

  /** The editor's `onChange`: an `undefined` value clears the body. */
  function OnBodyChange(data: SnippetData, value: Option<string>): (r: SnippetData)
    ensures value.None? ==> r == data.(body := "")
    ensures value.Some? ==> r == data.(body := value.value)
  {
    HandleInputChange(data, SetBody(match value case Some(b) => b case None => ""))
  }

  /** Every piece of `parts`, trimmed. */
  function TrimAll(parts: seq<string>): (r: seq<string>)
    ensures |r| == |parts|
    ensures forall i :: 0 <= i < |r| ==> r[i] == Trim(parts[i])
  {
    seq(|parts|, i requires 0 <= i < |parts| => Trim(parts[i]))
  }

  /** `TrimAll` is determined by what each piece trims to. */
  lemma TrimAllPointwise(parts: seq<string>, words: seq<string>)
    requires |words| == |parts|
    requires forall i :: 0 <= i < |parts| ==> Trim(parts[i]) == words[i]
    ensures TrimAll(parts) == words
  {
  }

  /**
   * The prefix input's rule: a raw value with a comma becomes the list of
   * its comma-separated pieces, each trimmed, empty pieces kept; a raw
   * value without a comma is kept as it is, untrimmed.
   */
  function NormalizePrefix(raw: string): (p: Prefix)
    ensures ',' !in raw ==> p == Single(raw)
    ensures ',' in raw ==> p.Multiple?
    ensures p.Multiple? ==> |p.items| == Count(raw, ',') + 1 >= 2
    ensures p.Multiple? ==> forall i :: 0 <= i < |p.items| ==>
              ',' !in p.items[i] && IsTrimmed(p.items[i])
    ensures p.Multiple? ==> forall i :: 0 <= i < |p.items| ==>
              p.items[i] == Trim(Split(raw, ',')[i])
  {
    if ',' in raw then
      var parts := Split(raw, ',');
      assert forall i :: 0 <= i < |parts| ==> ',' !in Trim(parts[i]) by {
        forall i | 0 <= i < |parts| ensures ',' !in Trim(parts[i]) {
          TrimKeepsCharacters(parts[i]);
        }
      }
      Multiple(TrimAll(parts))
    else Single(raw)
  }

  /** The prefix input's `onChange`. */
  function OnPrefixInput(data: SnippetData, raw: string): (r: SnippetData)
    ensures r == data.(prefix := NormalizePrefix(raw))
  {
    HandleInputChange(data, SetPrefix(NormalizePrefix(raw)))
  }

  /**
   * Without surrounding white space, joining the pieces of a split prefix
   * with commas gives back the raw input.
   */
  lemma {:induction false} NormalizePrefixRoundTrip(raw: string)
    requires ',' in raw
    requires forall i :: 0 <= i < |Split(raw, ',')| ==> IsTrimmed(Split(raw, ',')[i])
    ensures NormalizePrefix(raw).Multiple?
    ensures Join(NormalizePrefix(raw).items, ',') == raw
  {
    var parts := Split(raw, ',');
    var items := NormalizePrefix(raw).items;
    forall i | 0 <= i < |parts| ensures items[i] == parts[i] {
      TrimTrimmed(parts[i]);
    }
    assert items == parts;
    JoinSplit(raw, ',');
  }

  /** Comma-joined pieces whose trimmed forms are `words` normalise to `words`. */
  lemma NormalizeJoinedPieces(pieces: seq<string>, words: seq<string>)
    requires |pieces| >= 2 && |words| == |pieces|
    requires forall i :: 0 <= i < |pieces| ==> ',' !in pieces[i] && Trim(pieces[i]) == words[i]
    ensures NormalizePrefix(Join(pieces, ',')) == Multiple(words)
  {
    var raw := Join(pieces, ',');
    CountJoin(pieces, ',');
    SplitJoin(pieces, ',');
    assert ',' in raw;
    TrimAllPointwise(pieces, words);
  }

  /** `pad + w + pad` trims to `w` for a trimmed `w` and a padding of spaces. */
  lemma SpacePaddedTrims(p: string, pad: string, w: string)
    requires pad == " " || pad == "  "
    requires IsTrimmed(w) && ',' !in w && p == pad + w + pad
    ensures Trim(p) == w && ',' !in p
  {
    SpaceIsWhiteSpace();
    assert forall k :: 0 <= k < |pad| ==> pad[k] == ' ';
    TrimPadded(pad, w, pad);
  }

  lemma NormalizeThreePieces(p1: string, p2: string, p3: string, w1: string, w2: string, w3: string)
    requires ',' !in p1 && ',' !in p2 && ',' !in p3
    requires Trim(p1) == w1 && Trim(p2) == w2 && Trim(p3) == w3
    ensures NormalizePrefix(p1 + "," + p2 + "," + p3) == Multiple([w1, w2, w3])
  {
    var pieces, words := [p1, p2, p3], [w1, w2, w3];
    forall i | 0 <= i < 3 ensures ',' !in pieces[i] && Trim(pieces[i]) == words[i] {
      if i == 0 {} else if i == 1 {} else {}
    }
    NormalizeJoinedPieces(pieces, words);
    JoinThree(p1, p2, p3, ',');
  }

  /** Three comma-free trimmed words padded with one or two spaces, as the user types them. */
  lemma NormalizePaddedWords(w1: string, w2: string, w3: string)
    requires IsTrimmed(w1) && ',' !in w1
    requires IsTrimmed(w2) && ',' !in w2
    requires IsTrimmed(w3) && ',' !in w3
    ensures var p1, p2, p3 := " " + w1 + " ", "  " + w2 + "  ", " " + w3 + " ";
      NormalizePrefix(p1 + "," + p2 + "," + p3) == Multiple([w1, w2, w3])
  {
    var p1, p2, p3 := " " + w1 + " ", "  " + w2 + "  ", " " + w3 + " ";
    SpacePaddedTrims(p1, " ", w1);
    SpacePaddedTrims(p2, "  ", w2);
    SpacePaddedTrims(p3, " ", w3);
    NormalizeThreePieces(p1, p2, p3, w1, w2, w3);
  }

  /**
   * The example from the form's tests: the input `" prefix1 ,  prefix2  , prefix3 "`
   * is stored as `["prefix1", "prefix2", "prefix3"]`.
   * The strings come in as parameters pinned by the precondition rather than
   * as literals in the postcondition: a literal there makes the verifier
   * unfold every function over it, which costs far more than the proof.
   */
  lemma NormalizePrefixExample(w1: string, w2: string, w3: string)
    requires w1 == "prefix1" && w2 == "prefix2" && w3 == "prefix3"
    ensures var p1, p2, p3 := " " + w1 + " ", "  " + w2 + "  ", " " + w3 + " ";
      NormalizePrefix(p1 + "," + p2 + "," + p3) == Multiple([w1, w2, w3])
  {
    VisibleEndsTrimmed(w1);
    VisibleEndsTrimmed(w2);
    VisibleEndsTrimmed(w3);
    NormalizePaddedWords(w1, w2, w3);
  }

  // ----- editor language -----

  /**
   * The language the `useEffect` on `data.scope` leaves behind, given the
   * one it had before: plain text for an empty scope; otherwise the
   * language of the first option whose value is `scope[0]`; and the
   * previous language when no option matches.
   */
  function NextLanguage(prev: string, scope: seq<string>, options: seq<ScopeOption>): (lang: string)
    ensures |scope| == 0 ==> lang == "plaintext"
    ensures |scope| > 0 ==>
      lang == prev || exists i :: 0 <= i < |options| && options[i].value == scope[0] && lang == LanguageId(options[i])
  {
    if |scope| == 0 then "plaintext"
    else
      match FindByValue(options, scope[0])
      case Some(i) => LanguageId(options[i])
      case None => prev
  }

  lemma EmptyScopeIsPlaintext(prev: string, options: seq<ScopeOption>)
    ensures NextLanguage(prev, [], options) == "plaintext"
  {
  }

  /** With a scope, the first option whose value is `scope[0]` decides. */
  lemma FirstMatchDecides(prev: string, scope: seq<string>, options: seq<ScopeOption>, i: nat)
    requires |scope| > 0 && i < |options| && options[i].value == scope[0]
    requires forall j :: 0 <= j < i ==> options[j].value != scope[0]
    ensures NextLanguage(prev, scope, options) == LanguageId(options[i])
  {
  }

  /** When no option's value is `scope[0]`, the language stays as it was. */
  lemma NoMatchKeepsLanguage(prev: string, scope: seq<string>, options: seq<ScopeOption>)
    requires |scope| > 0
    requires forall j :: 0 <= j < |options| ==> options[j].value != scope[0]
    ensures NextLanguage(prev, scope, options) == prev
  {
  }

  /** Only `scope[0]` is consulted: the rest of the scope has no influence. */
  lemma OnlyFirstScopeMatters(prev: string, scope: seq<string>, options: seq<ScopeOption>)
    requires |scope| > 0
    ensures NextLanguage(prev, scope, options) == NextLanguage(prev, [scope[0]], options)
  {
  }

  /** The editor language: `useState('plaintext')` updated by the effect on `data.scope`. */
  class EditorLanguage {
    var language: string

    constructor ()
      ensures language == "plaintext"
    {
      language := "plaintext";
    }

    /** The effect body, run when `data.scope` changes. */
    method OnScopeChange(scope: seq<string>, options: seq<ScopeOption>)
      modifies this
      ensures language == NextLanguage(old(language), scope, options)
    {
      if |scope| == 0 {
        language := "plaintext";
        return;
      }
      var found := FindByValue(options, scope[0]);
      if found.Some? {
        language := LanguageId(options[found.value]);
      }
    }
  }
}
