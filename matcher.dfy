/**
 * Choosing the template for an interface from its description. The loaded
 * templates are a dictionary from file name (`access.txt`) to template, in
 * loading order. A description `d` selects the template stored under
 * `d + ".txt"` if there is one; otherwise the first template, in loading
 * order, whose file name without its last extension occurs anywhere in `d`.
 * A missing or empty description selects nothing.
 */
module Matcher {
  import opened Wrappers
  import opened Text
  import opened Templates

  /** The loaded templates: `fileNames` lists the keys of `templates` in loading order. */
  datatype TemplateTable = TemplateTable(fileNames: seq<string>, templates: map<string, Template>)

  /** What a dictionary guarantees: the listed names are exactly its keys. */
  predicate Keyed(tt: TemplateTable) {
    && (forall n :: n in tt.templates ==> n in tt.fileNames)
    && (forall n :: n in tt.fileNames ==> n in tt.templates)
  }

  /** Whether the template file `fileName` matches description `d` by its base name. */
  predicate PartialMatch(fileName: string, d: string) {
    IsSubstring(BaseName(fileName), d)
  }

  /** Index of the first file name that matches `d` by its base name, or `|names|`. */
  function FirstPartialMatch(names: seq<string>, d: string): (k: nat)
    ensures k <= |names|
    ensures k < |names| ==> PartialMatch(names[k], d)
  {
    if names == [] then 0
    else if PartialMatch(names[0], d) then 0
    else 1 + FirstPartialMatch(names[1..], d)
  }

  /** No file name before the one `FirstPartialMatch` finds matches. */
  lemma {:induction false} FirstPartialMatchIsFirst(names: seq<string>, d: string, j: nat)
    requires j < FirstPartialMatch(names, d)
    ensures !PartialMatch(names[j], d)
  {
    if j > 0 {
      FirstPartialMatchIsFirst(names[1..], d, j - 1);
    }
  }

  /** `FirstPartialMatch` misses only when no file name matches. */
  lemma {:induction false} FirstPartialMatchMisses(names: seq<string>, d: string)
    ensures FirstPartialMatch(names, d) == |names| <==> forall n :: n in names ==> !PartialMatch(n, d)
  {
    if names != [] {
      FirstPartialMatchMisses(names[1..], d);
      assert names == [names[0]] + names[1..];
    }
  }

  /** The template for `description`; the result is always one of the loaded templates. */
  function FindMatchingTemplate(description: Option<string>, tt: TemplateTable): (r: Option<Template>)
    requires Keyed(tt)
    ensures r.Some? ==> exists n :: n in tt.templates && tt.templates[n] == r.value
  {
    match description
    case None => None
    case Some(d) =>
      if d == [] then None
      else if d + ".txt" in tt.templates then Some(tt.templates[d + ".txt"])
      else
        var k := FirstPartialMatch(tt.fileNames, d);
        if k < |tt.fileNames| then Some(tt.templates[tt.fileNames[k]]) else None
  }

  /** The template stored under the description plus `.txt` takes precedence over every partial match. */
  lemma ExactMatchWins(d: string, tt: TemplateTable)
    requires Keyed(tt) && d != [] && d + ".txt" in tt.templates
    ensures FindMatchingTemplate(Some(d), tt) == Some(tt.templates[d + ".txt"])
  {
  }

  /**
   * Without an exact match, the result is the template of the first file, in
   * loading order, whose base name occurs in the description.
   */
  lemma PartialMatchIsFirst(d: string, tt: TemplateTable)
    requires Keyed(tt) && d != [] && d + ".txt" !in tt.templates
    requires FindMatchingTemplate(Some(d), tt).Some?
    ensures exists k ::
      && 0 <= k < |tt.fileNames|
      && FindMatchingTemplate(Some(d), tt).value == tt.templates[tt.fileNames[k]]
      && PartialMatch(tt.fileNames[k], d)
      && (forall j :: 0 <= j < k ==> !PartialMatch(tt.fileNames[j], d))
  {
    var k := FirstPartialMatch(tt.fileNames, d);
    forall j | 0 <= j < k
      ensures !PartialMatch(tt.fileNames[j], d)
    {
      FirstPartialMatchIsFirst(tt.fileNames, d, j);
    }
  }

  /**
   * No template is selected exactly when the description is missing or empty,
   * or no loaded file's base name occurs in it. An exact match is itself a
   * partial one, since the base name of `d + ".txt"` is `d`.
   */
  lemma NoMatchIff(description: Option<string>, tt: TemplateTable)
    requires Keyed(tt)
    ensures FindMatchingTemplate(description, tt).None? <==>
      (description.None? || description.value == [] ||
       forall n :: n in tt.fileNames ==> !PartialMatch(n, description.value))
  {
    if description.Some? && description.value != [] {
      var d := description.value;
      FirstPartialMatchMisses(tt.fileNames, d);
      if d + ".txt" in tt.templates {
        BaseNameOfTxt(d);
        SubstringOfItself(d);
        assert PartialMatch(d + ".txt", d);
      }
    }
  }
}
