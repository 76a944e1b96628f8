// The slice of the Vue template AST that the `valid-v-else-if` rule reads,
// and the three host helpers it calls (`prevElementHasIf`, `hasDirective`,
// `hasAttributeValue` from the plugin's utilities), stated over that slice.

module Template {

  datatype Option<T> = None | Some(value: T)

  datatype Position = Position(line: nat, column: nat)

  /** Source span of a node (`node.loc`). */
  datatype Loc = Loc(start: Position, end: Position)

  /** The key of a directive attribute `v-name:argument.mod1.mod2`
      (`node.key`): the directive name, its optional argument and its
      modifiers in source order. */
  datatype DirectiveKey = DirectiveKey(name: string, argument: Option<string>, modifiers: seq<string>)

  /** JavaScript truthiness of `node.key.argument`: absent (`null`) and the
      empty string are falsy, any other string is truthy. */
  predicate ArgumentTruthy(argument: Option<string>)
  {
    argument.Some? && argument.value != ""
  }

  /** A directive attribute (`VAttribute` with `directive == true`).
      `hasValue` is the host's `hasAttributeValue` verdict on it: whether the
      attribute carries a usable value expression. */
  datatype Attribute = Attribute(key: DirectiveKey, hasValue: bool, loc: Loc)

  /** An element of the template, seen through the names of the directives
      on its start tag (`if`, `else-if`, `else`, `for`, ...). */
  datatype Element = Element(name: string, directiveNames: set<string>)

  /** A child of an element: a nested element, a text run, or an
      interpolation `{{ ... }}`. */
  datatype Node =
    | ElementNode(element: Element)
    | TextNode(text: string)
    | ExpressionNode(source: string)

  /** `hasDirective(element, name)`: the element carries directive `v-<name>`. */
  predicate HasDirective(element: Element, name: string)
  {
    name in element.directiveNames
  }

  /** A sibling that opens or continues a conditional chain: an element
      carrying `v-if` or `v-else-if`. */
  predicate HasIfBranch(n: Node)
  {
    n.ElementNode? && (HasDirective(n.element, "if") || HasDirective(n.element, "else-if"))
  }

  /** Index of the nearest sibling, among `preceding` (the siblings before an
      element, in document order), that the host classifies as an element.
      The classification `isElement` (which whitespace, comments or
      interpolations are skipped) belongs to the host and is a parameter. */
  function NearestElement(preceding: seq<Node>, isElement: Node -> bool): (r: Option<nat>)
    ensures r.None? <==> forall j :: 0 <= j < |preceding| ==> !isElement(preceding[j])
    ensures r.Some? ==>
      && r.value < |preceding|
      && isElement(preceding[r.value])
      && forall j :: r.value < j < |preceding| ==> !isElement(preceding[j])
    decreases |preceding|
  {
    if preceding == [] then None
    else if isElement(preceding[|preceding| - 1]) then Some(|preceding| - 1)
    else NearestElement(preceding[..|preceding| - 1], isElement)
  }

  /** `prevElementHasIf(element)`: the nearest preceding element sibling
      exists and carries `v-if` or `v-else-if`. Only that one sibling is
      consulted. */
  predicate PrevElementHasIf(preceding: seq<Node>, isElement: Node -> bool)
  {
    match NearestElement(preceding, isElement)
    case None => false
    case Some(i) => HasIfBranch(preceding[i])
  }

  /** With no element among the preceding siblings there is nothing to chain
      from; otherwise the answer is exactly whether the LAST element-classified
      sibling opens a chain, whatever the siblings before it carry. */
  lemma PrevElementHasIfNearest(preceding: seq<Node>, isElement: Node -> bool)
    ensures (forall j :: 0 <= j < |preceding| ==> !isElement(preceding[j]))
              ==> !PrevElementHasIf(preceding, isElement)
    ensures PrevElementHasIf(preceding, isElement) <==>
      exists i :: 0 <= i < |preceding| && isElement(preceding[i]) && HasIfBranch(preceding[i])
        && forall j :: i < j < |preceding| ==> !isElement(preceding[j])
  {
    var r := NearestElement(preceding, isElement);
    if r.Some? {
      assert isElement(preceding[r.value]);
    }
  }

  /** Siblings appended after the nearest element do not change the answer
      as long as the host classifies none of them as an element (text and
      interpolations skipped under a classification that skips them). */
  lemma {:induction false} PrevElementHasIfSkipsNonElements(preceding: seq<Node>, skipped: seq<Node>, isElement: Node -> bool)
    requires forall j :: 0 <= j < |skipped| ==> !isElement(skipped[j])
    ensures NearestElement(preceding + skipped, isElement) == NearestElement(preceding, isElement)
    ensures PrevElementHasIf(preceding + skipped, isElement) == PrevElementHasIf(preceding, isElement)
    decreases |skipped|
  {
    if skipped != [] {
      var all := preceding + skipped;
      var shorter := skipped[..|skipped| - 1];
      assert all[..|all| - 1] == preceding + shorter;
      assert all[|all| - 1] == skipped[|skipped| - 1];
      PrevElementHasIfSkipsNonElements(preceding, shorter, isElement);
    } else {
      assert preceding + skipped == preceding;
    }
  }
}
