/**
 * The completion-provider part of the Monaco glue (src/lib/monaco.ts):
 * `setSuggestions` registers one provider per distinct editor language of
 * the scope-option table, and each provider offers the same snippet
 * placeholders and variables over a range that covers the typed `$`.
 * `registerCompletionItemProvider` is modelled by appending to a log.
 */
module Monaco {
  import opened Wrappers
  import opened ScopeOptions

  /** One call of `registerCompletionItemProvider(language, { triggerCharacters, ... })`. */
  datatype Registration = Registration(language: string, triggerCharacters: seq<string>)

  /** The options left out by `.filter(o => o.monacoCode !== 'plaintext')`. */
  predicate IsSkipped(o: ScopeOption)
    ensures IsSkipped(o) ==> LanguageId(o) == "plaintext"
  {
    o.monacoCode == Some("plaintext")
  }

  /** The languages of the options that pass the filter, in table order. */
  function EligibleLanguages(options: seq<ScopeOption>): (ls: seq<string>)
    ensures |ls| <= |options|
  {
    if options == [] then []
    else
      var rest := EligibleLanguages(options[1..]);
      if IsSkipped(options[0]) then rest else [LanguageId(options[0])] + rest
  }

  /** Without `plaintext`-coded options, the eligible languages are the table's, index for index. */
  lemma {:induction false} NothingSkipped(options: seq<ScopeOption>)
    requires forall k :: 0 <= k < |options| ==> !IsSkipped(options[k])
    ensures var ls := EligibleLanguages(options);
      |ls| == |options| && forall k :: 0 <= k < |options| ==> ls[k] == LanguageId(options[k])
  {
    if options != [] {
      NothingSkipped(options[1..]);
    }
  }

  /** A language is eligible exactly when some option that passes the filter has it. */
  lemma {:induction false} EligibleLanguagesMembers(options: seq<ScopeOption>)
    ensures forall x :: x in EligibleLanguages(options) <==>
              exists o :: o in options && !IsSkipped(o) && LanguageId(o) == x
  {
    if options != [] {
      EligibleLanguagesMembers(options[1..]);
      assert forall o :: o in options[1..] ==> o in options;
      assert forall o :: o in options ==> o == options[0] || o in options[1..];
    }
  }

  /**
   * The reference for the registration order: the elements of `ids` not in
   * `seen`, each at its first occurrence, in order.
   */
  function FirstOccurrences(ids: seq<string>, seen: set<string>): seq<string>
  {
    if ids == [] then []
    else if ids[0] in seen then FirstOccurrences(ids[1..], seen)
    else [ids[0]] + FirstOccurrences(ids[1..], seen + {ids[0]})
  }

  /** Exactly the elements of `ids` not in `seen` occur among the first occurrences. */
  lemma {:induction false} FirstOccurrencesMembers(ids: seq<string>, seen: set<string>)
    ensures forall x :: x in FirstOccurrences(ids, seen) <==> x in ids && x !in seen
  {
    if ids != [] {
      if ids[0] in seen {
        FirstOccurrencesMembers(ids[1..], seen);
      } else {
        FirstOccurrencesMembers(ids[1..], seen + {ids[0]});
      }
      assert forall x :: x in ids <==> x == ids[0] || x in ids[1..];
    }
  }

  predicate Distinct(s: seq<string>)
  {
    forall i, j :: 0 <= i < j < |s| ==> s[i] != s[j]
  }

  /** First occurrences are distinct. */
  lemma {:induction false} FirstOccurrencesDistinct(ids: seq<string>, seen: set<string>)
    ensures Distinct(FirstOccurrences(ids, seen))
  {
    if ids != [] {
      if ids[0] in seen {
        assert FirstOccurrences(ids, seen) == FirstOccurrences(ids[1..], seen);
        FirstOccurrencesDistinct(ids[1..], seen);
      } else {
        var rest := FirstOccurrences(ids[1..], seen + {ids[0]});
        FirstOccurrencesDistinct(ids[1..], seen + {ids[0]});
        FirstOccurrencesMembers(ids[1..], seen + {ids[0]});
        var r := [ids[0]] + rest;
        assert FirstOccurrences(ids, seen) == r;
        forall i, j | 0 <= i < j < |r| ensures r[i] != r[j] {
          assert r[j] == rest[j - 1] && r[j] in rest;
          assert r[j] !in seen + {ids[0]};
          if i > 0 {
            assert r[i] == rest[i - 1];
            assert rest[i - 1] != rest[j - 1];
          } else {
            assert r[i] == ids[0];
          }
        }
      }
    }
  }

  /** The index of the first occurrence of `x` in `ids`. */
  function IndexOf(ids: seq<string>, x: string): (k: nat)
    requires x in ids
    ensures k < |ids| && ids[k] == x
    ensures forall j :: 0 <= j < k ==> ids[j] != x
  {
    if ids[0] == x then 0 else 1 + IndexOf(ids[1..], x)
  }

  lemma IndexOfTail(ids: seq<string>, x: string)
    requires |ids| > 0 && x in ids[1..] && x != ids[0]
    ensures IndexOf(ids, x) == 1 + IndexOf(ids[1..], x)
  {
  }

  /** The elements of `r`, all in `ids`, come in the order of their first occurrence there. */
  predicate InFirstOccurrenceOrder(r: seq<string>, ids: seq<string>)
  {
    (forall x :: x in r ==> x in ids)
    && forall i, j :: 0 <= i < j < |r| ==> IndexOf(ids, r[i]) < IndexOf(ids, r[j])
  }

  /** Order in `ids[1..]` is order in `ids` for elements other than `ids[0]`. */
  lemma OrderInTail(r: seq<string>, ids: seq<string>)
    requires |ids| > 0 && ids[0] !in r
    requires InFirstOccurrenceOrder(r, ids[1..])
    ensures InFirstOccurrenceOrder(r, ids)
  {
    forall x | x in r ensures x in ids && IndexOf(ids, x) == 1 + IndexOf(ids[1..], x) {
      IndexOfTail(ids, x);
    }
    forall i, j | 0 <= i < j < |r| ensures IndexOf(ids, r[i]) < IndexOf(ids, r[j]) {
      assert r[i] in r && r[j] in r;
    }
  }

  /** Putting `ids[0]` in front keeps the order. */
  lemma OrderWithHead(r: seq<string>, ids: seq<string>)
    requires |ids| > 0 && ids[0] !in r && InFirstOccurrenceOrder(r, ids)
    ensures InFirstOccurrenceOrder([ids[0]] + r, ids)
  {
    var q := [ids[0]] + r;
    forall j | 0 < j < |q| ensures IndexOf(ids, q[0]) < IndexOf(ids, q[j]) {
      assert q[j] == r[j - 1] && q[j] in r;
      assert ids[IndexOf(ids, q[j])] != ids[0];
    }
    forall i, j | 0 < i < j < |q| ensures IndexOf(ids, q[i]) < IndexOf(ids, q[j]) {
      assert q[i] == r[i - 1] && q[j] == r[j - 1];
    }
  }

  /** First occurrences come in the order in which they first occur. */
  lemma {:induction false} FirstOccurrencesOrdered(ids: seq<string>, seen: set<string>)
    ensures InFirstOccurrenceOrder(FirstOccurrences(ids, seen), ids)
  {
    if ids != [] {
      var seen' := if ids[0] in seen then seen else seen + {ids[0]};
      var rest := FirstOccurrences(ids[1..], seen');
      FirstOccurrencesOrdered(ids[1..], seen');
      FirstOccurrencesMembers(ids[1..], seen');
      OrderInTail(rest, ids);
      if ids[0] !in seen {
        OrderWithHead(rest, ids);
      }
    }
  }

  const TriggerCharacters: seq<string> := ["$"]

  function Languages(log: seq<Registration>): (ls: seq<string>)
    ensures |ls| == |log| && forall i :: 0 <= i < |log| ==> ls[i] == log[i].language
  {
    seq(|log|, i requires 0 <= i < |log| => log[i].language)
  }

  /** Logging one more registration: the registered set grows by its language. */
  lemma RegisterOne(log: seq<Registration>, registered: set<string>, lang: string)
    requires forall x :: x in registered <==> x in Languages(log)
    ensures Languages(log + [Registration(lang, TriggerCharacters)]) == Languages(log) + [lang]
    ensures forall x :: x in registered + {lang} <==> x in Languages(log + [Registration(lang, TriggerCharacters)])
  {
    assert Languages(log + [Registration(lang, TriggerCharacters)]) == Languages(log) + [lang];
  }

  lemma FirstOccurrencesCons(x: string, t: seq<string>, seen: set<string>)
    ensures FirstOccurrences([x] + t, seen)
         == if x in seen then FirstOccurrences(t, seen) else [x] + FirstOccurrences(t, seen + {x})
  {
    assert ([x] + t)[1..] == t;
  }

  lemma EligibleStep(options: seq<ScopeOption>, i: nat)
    requires i < |options|
    ensures EligibleLanguages(options[i..])
         == (if IsSkipped(options[i]) then [] else [LanguageId(options[i])]) + EligibleLanguages(options[i + 1..])
  {
    assert options[i..][0] == options[i];
    assert options[i..][1..] == options[i + 1..];
  }

  /** One option further into the scan: what is still to be registered. */
  lemma ScanStep(options: seq<ScopeOption>, i: nat, registered: set<string>)
    requires i < |options|
    ensures var rest := FirstOccurrences(EligibleLanguages(options[i + 1..]), registered);
      (IsSkipped(options[i]) || LanguageId(options[i]) in registered) ==>
        FirstOccurrences(EligibleLanguages(options[i..]), registered) == rest
    ensures var lang := LanguageId(options[i]);
      (!IsSkipped(options[i]) && lang !in registered) ==>
        FirstOccurrences(EligibleLanguages(options[i..]), registered)
        == [lang] + FirstOccurrences(EligibleLanguages(options[i + 1..]), registered + {lang})
  {
    EligibleStep(options, i);
    if !IsSkipped(options[i]) {
      FirstOccurrencesCons(LanguageId(options[i]), EligibleLanguages(options[i + 1..]), registered);
    }
  }

  /** What the registration order implies: distinct, complete, in first-occurrence order. */
  lemma RegistrationOrderProperties(options: seq<ScopeOption>)
    ensures var ls := FirstOccurrences(EligibleLanguages(options), {});
      Distinct(ls)
      && (forall x :: x in ls <==> exists o :: o in options && !IsSkipped(o) && LanguageId(o) == x)
      && InFirstOccurrenceOrder(ls, EligibleLanguages(options))
  {
    EligibleLanguagesMembers(options);
    FirstOccurrencesMembers(EligibleLanguages(options), {});
    FirstOccurrencesDistinct(EligibleLanguages(options), {});
    FirstOccurrencesOrdered(EligibleLanguages(options), {});
  }

  /**
   * The state of the scan before option `i`: `registered` holds the logged
   * languages, and what the log still lacks is the first occurrences among
   * the remaining options.
   */
  ghost predicate Scanned(options: seq<ScopeOption>, i: nat, registered: set<string>, log: seq<Registration>)
    requires i <= |options|
  {
    (forall x :: x in registered <==> x in Languages(log))
    && Languages(log) + FirstOccurrences(EligibleLanguages(options[i..]), registered)
       == FirstOccurrences(EligibleLanguages(options), {})
  }

  /** Passing over a skipped option or a registered language keeps the scan state. */
  lemma PassStep(options: seq<ScopeOption>, i: nat, registered: set<string>, log: seq<Registration>)
    requires i < |options| && Scanned(options, i, registered, log)
    requires IsSkipped(options[i]) || LanguageId(options[i]) in registered
    ensures Scanned(options, i + 1, registered, log)
  {
    ScanStep(options, i, registered);
  }

  /** Registering a new language keeps the scan state. */
  lemma RegisterStep(options: seq<ScopeOption>, i: nat, registered: set<string>, log: seq<Registration>)
    requires i < |options| && Scanned(options, i, registered, log)
    requires !IsSkipped(options[i]) && LanguageId(options[i]) !in registered
    ensures var lang := LanguageId(options[i]);
      Scanned(options, i + 1, registered + {lang}, log + [Registration(lang, TriggerCharacters)])
  {
    var lang := LanguageId(options[i]);
    ScanStep(options, i, registered);
    RegisterOne(log, registered, lang);
    var rest := FirstOccurrences(EligibleLanguages(options[i + 1..]), registered + {lang});
    assert Languages(log) + ([lang] + rest) == (Languages(log) + [lang]) + rest;
  }

  /**
   * `setSuggestions`: the log of registrations is one provider per language
   * in the order of first occurrence among the options that pass the
   * filter; so no language is registered twice, every such option's language
   * is registered, and every registered language is one of them.
   */
  method SetSuggestions(options: seq<ScopeOption>) returns (log: seq<Registration>)
    ensures Languages(log) == FirstOccurrences(EligibleLanguages(options), {})
    ensures forall k :: 0 <= k < |log| ==> log[k].triggerCharacters == TriggerCharacters
  {
    var registered: set<string> := {};
    log := [];
    var i := 0;
    assert options[0..] == options;
    while i < |options|
      invariant 0 <= i <= |options|
      invariant Scanned(options, i, registered, log)
      invariant forall k :: 0 <= k < |log| ==> log[k].triggerCharacters == TriggerCharacters
    {
      var o := options[i];
      var lang := LanguageId(o);
      if IsSkipped(o) || lang in registered {
        PassStep(options, i, registered, log);
      } else {
        RegisterStep(options, i, registered, log);
        registered := registered + {lang};
        log := log + [Registration(lang, TriggerCharacters)];
      }
      i := i + 1;
    }
    assert options[i..] == [];
    assert Languages(log) + [] == Languages(log);
  }

  // ----- the completion provider -----

  datatype Position = Position(lineNumber: int, column: int)

  /** What `model.getWordUntilPosition(position)` reports. */
  datatype WordAtPosition = WordAtPosition(word: string, startColumn: int, endColumn: int)

  datatype Range = Range(startLineNumber: int, endLineNumber: int, startColumn: int, endColumn: int)

  /**
   * The replacement range: on the position's line, from one column before
   * the word (where the triggering `$` is) to the word's end; one column
   * wider than the word.
   */
  function ReplacementRange(position: Position, word: WordAtPosition): (r: Range)
    ensures r.startLineNumber == r.endLineNumber == position.lineNumber
    ensures r.endColumn - r.startColumn == word.endColumn - word.startColumn + 1
    ensures r.endColumn == word.endColumn
  {
    Range(position.lineNumber, position.lineNumber, word.startColumn - 1, word.endColumn)
  }

  datatype CompletionItemKind = Snippet | Variable

  datatype Suggestion = Suggestion(
    labelText: string,
    kind: CompletionItemKind,
    insertText: string,
    detail: string,
    range: Range)

  /** A suggestion whose label is also the text it inserts. */
  function Item(text: string, kind: CompletionItemKind, detail: string, range: Range): Suggestion
  {
    Suggestion(text, kind, text, detail, range)
  }

  /**
   * The fixed suggestion list: five tab-stop and placeholder forms, then
   * eleven snippet variables, each inserting its own label over `range`.
   */
  function Suggestions(range: Range): (s: seq<Suggestion>)
    ensures |s| == 16
    ensures forall i :: 0 <= i < |s| ==> s[i].range == range && s[i].insertText == s[i].labelText
  {
    [ Item("$1", Snippet, "第一个占位符位置", range),
      Item("$2", Snippet, "第二个占位符位置", range),
      Item("$0", Snippet, "最终光标位置", range),
      Item("${1:placeholder}", Snippet, "带默认值的占位符", range),
      Item("${1|one,two,three|}", Snippet, "带选项的占位符", range),
      Item("$TM_SELECTED_TEXT", Variable, "当前选中的文本", range),
      Item("$TM_CURRENT_LINE", Variable, "当前行的内容", range),
      Item("$TM_CURRENT_WORD", Variable, "当前单词", range),
      Item("$TM_LINE_INDEX", Variable, "行号（从0开始）", range),
      Item("$TM_LINE_NUMBER", Variable, "行号（从1开始）", range),
      Item("$TM_FILENAME", Variable, "当前文件名", range),
      Item("$TM_FILENAME_BASE", Variable, "当前文件名（不含扩展名）", range),
      Item("$TM_DIRECTORY", Variable, "当前文件的目录名", range),
      Item("$TM_FILEPATH", Variable, "当前文件的完整路径", range),
      Item("$CLIPBOARD", Variable, "剪贴板内容", range),
      Item("$WORKSPACE_NAME", Variable, "工作区名称", range) ]
  }

  /**
   * `provideCompletionItems`: the same for every registered language, the
   * sixteen suggestions over the replacement range of the position.
   */
  function ProvideCompletionItems(position: Position, word: WordAtPosition): (items: seq<Suggestion>)
    ensures |items| == 16
    ensures forall i :: 0 <= i < |items| ==>
              (items[i].range.startLineNumber == items[i].range.endLineNumber == position.lineNumber
               && items[i].range.startColumn == word.startColumn - 1
               && items[i].range.endColumn == word.endColumn)
  {
    Suggestions(ReplacementRange(position, word))
  }

  /**
   * Every provider offers the same list: whatever the position and the word,
   * the i-th suggestion has the same label, kind, inserted text and detail.
   */
  lemma ProvidersOfferSameList(p1: Position, w1: WordAtPosition, p2: Position, w2: WordAtPosition)
    ensures var a, b := ProvideCompletionItems(p1, w1), ProvideCompletionItems(p2, w2);
      |a| == |b|
      && forall i :: 0 <= i < |a| ==>
           a[i].labelText == b[i].labelText && a[i].kind == b[i].kind
           && a[i].insertText == b[i].insertText && a[i].detail == b[i].detail
  {
  }

  /** The first five suggestions are snippet forms, the other eleven `$`-variables. */
  lemma SuggestionKinds(range: Range)
    ensures var s := Suggestions(range);
      forall i :: 0 <= i < |s| ==> (s[i].kind == Snippet <==> i < 5)
  {
  }

  /** The labels of the suggestion list are all different. */
  lemma SuggestionLabelsDistinct(range: Range)
    ensures var s := Suggestions(range);
      forall i, j :: 0 <= i < j < |s| ==> s[i].labelText != s[j].labelText
  {
  }
}
