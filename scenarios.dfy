// Concrete templates and what the rule reports on their `v-else-if`.

module ValidVElseIfScenarios {
  import opened Template
  import opened ValidVElseIf

  /** A classification under which exactly the element children count. */
  predicate IsVElement(n: Node)
  {
    n.ElementNode?
  }

  const At := Loc(Position(1, 20), Position(1, 35))

  function ElseIf(argument: Option<string>, modifiers: seq<string>, hasValue: bool): Attribute
  {
    Attribute(DirectiveKey("else-if", argument, modifiers), hasValue, At)
  }

  /** `<div v-if="a"></div>`, the opening branch. */
  const IfDiv := ElementNode(Element("div", {"if"}))

  /** `<div v-if="a"></div><div v-else-if="b"></div>` reports nothing. */
  lemma ChainedElseIfIsValid()
    ensures Validate(Occurrence(ElseIf(None, [], true), Element("div", {"else-if"}), [IfDiv]), IsVElement) == []
  {
    var occ := Occurrence(ElseIf(None, [], true), Element("div", {"else-if"}), [IfDiv]);
    assert PrevElementHasIf(occ.preceding, IsVElement);
    ValidateEmptyIffWellFormed(occ, IsVElement);
  }

  /** `<div v-else-if="b"></div>` alone, or after text only, reports only the
      missing chain. */
  lemma UnchainedElseIf(text: string)
    ensures var occ := Occurrence(ElseIf(None, [], true), Element("div", {"else-if"}), [TextNode(text)]);
      Validate(occ, IsVElement) == [Problem(occ.attr, At, NotPrecededByIf)]
  {
    var occ := Occurrence(ElseIf(None, [], true), Element("div", {"else-if"}), [TextNode(text)]);
    assert !PrevElementHasIf(occ.preceding, IsVElement);
    ValidateUnfolded(occ, IsVElement);
  }

  /** `<div v-if="a"></div><div v-if="c" v-else-if="b"></div>` reports only
      the `v-if` on the same element. */
  lemma ElseIfWithIf()
    ensures var occ := Occurrence(ElseIf(None, [], true), Element("div", {"if", "else-if"}), [IfDiv]);
      Validate(occ, IsVElement) == [Problem(occ.attr, At, CoexistsWithIf)]
  {
    var occ := Occurrence(ElseIf(None, [], true), Element("div", {"if", "else-if"}), [IfDiv]);
    assert PrevElementHasIf(occ.preceding, IsVElement);
    assert !HasDirective(occ.element, "else");
    ValidateUnfolded(occ, IsVElement);
  }

  /** `<div v-if="a"></div><div v-else-if:arg.mod></div>` reports the
      argument, the modifier and the missing value, in that order. */
  lemma ElseIfWithArgumentModifierNoValue()
    ensures var occ := Occurrence(ElseIf(Some("arg"), ["mod"], false), Element("div", {"else-if"}), [IfDiv]);
      Validate(occ, IsVElement) ==
        [Problem(occ.attr, At, HasArgument), Problem(occ.attr, At, HasModifier), Problem(occ.attr, At, MissingValue)]
  {
    var occ := Occurrence(ElseIf(Some("arg"), ["mod"], false), Element("div", {"else-if"}), [IfDiv]);
    assert PrevElementHasIf(occ.preceding, IsVElement);
    assert !HasDirective(occ.element, "if") && !HasDirective(occ.element, "else");
    ValidateUnfolded(occ, IsVElement);
  }

  /** `<div v-if="a"></div><div v-else-if:="b"></div>`: the argument is the
      empty string, which is falsy, so nothing is reported. */
  lemma EmptyArgumentIsFalsy()
    ensures Validate(Occurrence(ElseIf(Some(""), [], true), Element("div", {"else-if"}), [IfDiv]), IsVElement) == []
  {
    var occ := Occurrence(ElseIf(Some(""), [], true), Element("div", {"else-if"}), [IfDiv]);
    assert PrevElementHasIf(occ.preceding, IsVElement);
    ValidateEmptyIffWellFormed(occ, IsVElement);
  }
}
