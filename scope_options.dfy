/**
 * The entries of the scope-option table: a VSCode scope identifier and,
 * optionally, the Monaco editor language it maps to. The table itself
 * (src/data/scope-options.ts) is not part of this model; every operation
 * takes it as a parameter.
 */
module ScopeOptions {
  import opened Wrappers

  datatype ScopeOption = ScopeOption(value: string, monacoCode: Option<string>)

  /** `o.monacoCode ?? o.value`: only a missing code falls back, an empty one does not. */
  function LanguageId(o: ScopeOption): (id: string)
    ensures o.monacoCode.Some? ==> id == o.monacoCode.value
    ensures o.monacoCode.None? ==> id == o.value
  {
    match o.monacoCode
    case Some(code) => code
    case None => o.value
  }

  /**
   * `options.find(item => item.value === v)`, given as the index of the
   * first option whose value is `v`, or `None` when there is none.
   */
  function FindByValue(options: seq<ScopeOption>, v: string): (r: Option<nat>)
    ensures r.Some? ==> r.value < |options| && options[r.value].value == v
    ensures r.Some? ==> forall j :: 0 <= j < r.value ==> options[j].value != v
    ensures r.None? <==> forall j :: 0 <= j < |options| ==> options[j].value != v
  {
    if options == [] then None
    else if options[0].value == v then Some(0)
    else
      match FindByValue(options[1..], v)
      case None => None
      case Some(i) => Some(i + 1)
  }
}
