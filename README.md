# valid-v-else-if, modelled in Dafny

This project models the `valid-v-else-if` rule of eslint-plugin-vue. The rule runs once for each
directive attribute named `else-if` in a Vue template. It looks up the element that owns the
attribute (two parent hops up) and runs six independent checks. Each failed check reports one
problem on the attribute, at the attribute's location, in this fixed order:

1. the nearest preceding element sibling must carry `v-if` or `v-else-if`;
2. the element must not also carry `v-if`;
3. the element must not also carry `v-else`;
4. the directive must have no argument;
5. the directive must have no modifier;
6. the directive must have a value.

No check returns early, so one attribute can get up to six problems.

Files:

- `template.dfy`, module `Template`: the part of the template AST the rule reads (attribute key,
  argument, modifiers, location, the owning element's directive names, the element's preceding
  siblings). It also holds the three host helpers the rule calls. `hasDirective` is membership in
  the element's set of directive names. `prevElementHasIf` looks at the nearest preceding sibling
  that a host-supplied classification `isElement` counts as an element. `hasAttributeValue` is the
  host's verdict, stored as the `hasValue` field of the attribute.
- `valid_v_else_if.dfy`, module `ValidVElseIf`: the six checks (`Check`, `Fails`), the reported
  problems (`Problem`), the specification `Validate` (the failing checks, filtered in handler
  order), the lemmas about it, and the handler itself. The handler `OnElseIf` is imperative:
  six `if` statements, each calling `RuleContext.Report`, which appends to the context's list of
  problems. It is proved to append exactly `Validate` of its input.
- `scenarios.dfy`, module `ValidVElseIfScenarios`: concrete templates and the problems they get.

The handler takes its input as values (attribute, element, preceding siblings) and modifies only
the rule context. So it never changes the element or the attribute.

## Model

| member | source | states |
|---|---|---|
| Template.NearestElement | lib/rules/valid-v-else-if.js:29 | The sibling `prevElementHasIf` consults: none exactly when no preceding sibling is classified as an element; otherwise an element-classified sibling with no element-classified sibling after it (the nearest one). |
| Template.PrevElementHasIfNearest | lib/rules/valid-v-else-if.js:29 | `prevElementHasIf` is false when there is no preceding element sibling. Otherwise it holds exactly when the last element-classified preceding sibling carries `v-if` or `v-else-if`. No sibling before that one is consulted. |
| Template.PrevElementHasIfSkipsNonElements | lib/rules/valid-v-else-if.js:29 | Non-element siblings between the nearest element and the visited element change neither the nearest element nor the verdict. |
| ValidVElseIf.ValidateReportsExactly | lib/rules/valid-v-else-if.js:29-70 | Each of the six problems is reported exactly when its condition holds: no `prevElementHasIf`; `hasDirective(element, 'if')`; `hasDirective(element, 'else')`; the argument is truthy (present and not the empty string); modifiers are non-empty; no `hasAttributeValue`. |
| ValidVElseIf.ValidateOrdered | lib/rules/valid-v-else-if.js:29-70 | Problems come out in the handler's check order. No check is reported twice. There are at most six problems. |
| ValidVElseIf.ValidateLocated | lib/rules/valid-v-else-if.js:30-33 | Every problem carries the attribute as its node and the attribute's own `loc`, and names a check that fails. |
| ValidVElseIf.ValidateEmptyIffWellFormed | lib/rules/valid-v-else-if.js:27-70 | No problem is reported exactly when the attribute follows an `if`/`else-if` element, its element has no `v-if` or `v-else`, and it has no truthy argument (none, or the empty string), no modifier and a value. |
| ValidVElseIf.ProblemsForDeterminedByFailures | lib/rules/valid-v-else-if.js:29-70 | The reported checks and their order depend only on which checks fail: two visits whose checks fail alike report the same checks in the same order. |
| ValidVElseIf.ProblemsForShape | lib/rules/valid-v-else-if.js:29-70 | Over any list of checks: at most one problem per listed check; each problem is on the visited attribute, at its location, for a listed check that fails. |
| ValidVElseIf.ProblemsForReported | lib/rules/valid-v-else-if.js:29-70 | Over any list of checks: a check is reported exactly when it is listed and fails, whatever the other checks do. |
| ValidVElseIf.ProblemsForRanked | lib/rules/valid-v-else-if.js:29-70 | Over any list of checks in handler order, the problems come out in that order. |
| ValidVElseIf.AllChecksRanked | lib/rules/valid-v-else-if.js:29-70 | The six checks are listed in the order the handler runs them. |
| ValidVElseIf.ValidateUnfolded | lib/rules/valid-v-else-if.js:29-70 | The specification equals the six conditional reports concatenated in source order. |
| ValidVElseIf.ReportsChain | lib/rules/valid-v-else-if.js:29-70 | Six appends, one per check in source order, add up to the specification. |
| ValidVElseIf.RuleContext.constructor | lib/rules/valid-v-else-if.js:24 | A fresh rule context has reported nothing. |
| ValidVElseIf.RuleContext.Report | lib/rules/valid-v-else-if.js:30-34 | `context.report` appends one problem and keeps the earlier ones in order. |
| ValidVElseIf.OnElseIf | lib/rules/valid-v-else-if.js:26-71 | The handler appends to the context exactly the problems of the specification, in check order, and changes nothing else. |
| ValidVElseIfScenarios.ChainedElseIfIsValid | lib/rules/valid-v-else-if.js:26-71 | `<div v-if="a"></div><div v-else-if="b"></div>` gets no problem. |
| ValidVElseIfScenarios.UnchainedElseIf | lib/rules/valid-v-else-if.js:29-35 | A `v-else-if` preceded only by text gets only the missing-chain problem. |
| ValidVElseIfScenarios.ElseIfWithIf | lib/rules/valid-v-else-if.js:36-42 | `v-if` and `v-else-if` on one element after a `v-if` element get only the same-element `v-if` problem. |
| ValidVElseIfScenarios.EmptyArgumentIsFalsy | lib/rules/valid-v-else-if.js:50-56 | `v-else-if:="b"` after a `v-if` element gets no problem: the empty argument is falsy. |
| ValidVElseIfScenarios.ElseIfWithArgumentModifierNoValue | lib/rules/valid-v-else-if.js:50-70 | `v-else-if:arg.mod` with no value gets the argument, modifier and value problems, in that order. |

## Left out

- The visitor plumbing is not modelled. This covers `create`, `utils.defineTemplateBodyVisitor` and
  the selector `VAttribute[directive=true][key.name='else-if']`. They belong to the linter's
  traversal engine. `OnElseIf` is what runs for each attribute the selector matches.
- The plugin's utilities module (`../utils`) is not part of this model. Its three helpers appear
  as follows:
  - `prevElementHasIf` takes the host's sibling classification as the parameter `isElement`, so
    the model does not fix how whitespace, comments or interpolations are skipped.
  - `hasDirective` is membership in the element's set of directive names.
  - `hasAttributeValue` is a boolean on the attribute.
- The owning element `node.parent.parent` is passed to the handler together with its preceding
  siblings. Dafny datatypes cannot hold parent pointers, so the tree itself is not modelled.
- `context.report` is modelled as appending to a list. ESLint's own handling of reports
  (sorting, output) is not modelled. A problem records its check, and `Check.Message` gives the
  exact message text.
- The argument check tests `node.key.argument` for JavaScript truthiness. The argument is a
  string or `null`, so the model reports it only when it is present and not the empty string
  (`ArgumentTruthy`). No other falsy values can occur for a string.
- The `meta` block is not modelled: description, category, documentation URL, `fixable: false`
  and the empty option schema. It is registration data with no behaviour.
- Running the rule twice on the same template gives the same problems. In the model this holds
  by construction, because `Validate` is a function of its input.
