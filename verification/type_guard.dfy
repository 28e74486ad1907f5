/**
 * Guards on the untyped result of a request: each accepts a value that is
 * not `None`, is iterable, and holds only elements of the classes the guard
 * names. An empty iterable passes every guard; `None` and a non-iterable
 * value pass none.
 */
module TypeGuard {

  /** The class of one element of a result. */
  datatype Tag =
    | Location
    | LocationLink
    | WorkspaceSymbol
    | DocumentSymbol
    | SymbolInformation
    | CompletionItem
    | Command
    | CodeAction
    | OtherClass

  /** A result: `None`, an iterable with elements of the given classes, or anything else. */
  datatype Value = Null | Iterable(items: seq<Tag>) | NotIterable

  /** The eight guards. */
  datatype Guard =
    | IsLocations
    | IsDefinitionLinks
    | IsLocationLinks
    | IsWorkspaceSymbols
    | IsDocumentSymbols
    | IsSymbolInformationSeq
    | IsCompletionItems
    | IsCodeActions

  /** The classes whose instances a guard lets through. */
  function Accepted(g: Guard): set<Tag> {
    match g
    case IsLocations => {Location}
    case IsDefinitionLinks => {LocationLink}
    case IsLocationLinks => {LocationLink}
    case IsWorkspaceSymbols => {WorkspaceSymbol}
    case IsDocumentSymbols => {DocumentSymbol}
    case IsSymbolInformationSeq => {SymbolInformation}
    case IsCompletionItems => {CompletionItem}
    case IsCodeActions => {Command, CodeAction}
  }

  /** `all(isinstance(item, accepted) for item in items)`, element by element. */
  function AllIn(items: seq<Tag>, accepted: set<Tag>): (b: bool)
    ensures b <==> forall i :: 0 <= i < |items| ==> items[i] in accepted
    decreases |items|
  {
    if |items| == 0 then true
    else if items[0] !in accepted then false
    else
      var rest := AllIn(items[1..], accepted);
      assert forall i :: 1 <= i < |items| ==> items[i] == items[1..][i - 1];
      rest
  }

  /** `result is not None and isinstance(result, Iterable) and all(...)`. */
  function Check(g: Guard, v: Value): (b: bool)
    ensures b ==> v.Iterable?
    ensures v.Iterable? && |v.items| == 0 ==> b
  {
    v.Iterable? && AllIn(v.items, Accepted(g))
  }

  /** Every guard rejects `None` and non-iterable values, and accepts an empty iterable. */
  lemma RejectsNullAcceptsEmpty(g: Guard)
    ensures !Check(g, Null) && !Check(g, NotIterable)
    ensures Check(g, Iterable([]))
  {
  }

  /** `is_definition_links` and `is_location_links` are the same guard. */
  lemma DefinitionLinksAreLocationLinks(v: Value)
    ensures Check(IsDefinitionLinks, v) == Check(IsLocationLinks, v)
  {
  }

  /** `is_code_actions` accepts any mixture of commands and code actions and nothing else. */
  lemma CodeActionsMixture(items: seq<Tag>)
    ensures Check(IsCodeActions, Iterable(items))
      <==> forall i :: 0 <= i < |items| ==> items[i] == Command || items[i] == CodeAction
  {
  }

  /** A guard holds of a concatenation exactly when it holds of both parts. */
  lemma CheckAppend(g: Guard, a: seq<Tag>, b: seq<Tag>)
    ensures Check(g, Iterable(a + b)) <==> Check(g, Iterable(a)) && Check(g, Iterable(b))
  {
    assert forall i :: 0 <= i < |a| ==> (a + b)[i] == a[i];
    assert forall i :: 0 <= i < |b| ==> (a + b)[|a| + i] == b[i];
  }

  /** Two guards with no class in common both accept only the empty iterable. */
  lemma DisjointGuards(g1: Guard, g2: Guard, v: Value)
    requires Accepted(g1) !! Accepted(g2)
    requires Check(g1, v) && Check(g2, v)
    ensures v == Iterable([])
  {
    InBoth(v.items, Accepted(g1), Accepted(g2));
    assert Accepted(g1) * Accepted(g2) == {};
  }

  /** Elements drawn from two sets are drawn from their intersection. */
  lemma InBoth(items: seq<Tag>, a: set<Tag>, b: set<Tag>)
    requires AllIn(items, a) && AllIn(items, b)
    ensures AllIn(items, a * b)
  {
  }

  /** A non-empty result that `is_locations` accepts is rejected by `is_location_links`. */
  lemma LocationsAreNotLinks(v: Value)
    requires Check(IsLocations, v) && v != Iterable([])
    ensures !Check(IsLocationLinks, v)
  {
    if Check(IsLocationLinks, v) {
      DisjointGuards(IsLocations, IsLocationLinks, v);
    }
  }
}
