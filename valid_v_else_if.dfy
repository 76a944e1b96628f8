// The `valid-v-else-if` rule: for every directive attribute named `else-if`
// it runs six independent checks on the attribute and its owning element and
// reports one problem per failed check, in a fixed order.

module ValidVElseIf {
  import opened Template

  /** The six checks, in the order the handler runs them. */
  datatype Check =
    | NotPrecededByIf    // previous element sibling lacks `v-if`/`v-else-if`
    | CoexistsWithIf     // the same element also carries `v-if`
    | CoexistsWithElse   // the same element also carries `v-else`
    | HasArgument        // `v-else-if:arg`
    | HasModifier        // `v-else-if.mod`
    | MissingValue       // `v-else-if` without a value
  {
    /** Position of the check in the handler. */
    function Rank(): nat
    {
      match this
      case NotPrecededByIf => 0
      case CoexistsWithIf => 1
      case CoexistsWithElse => 2
      case HasArgument => 3
      case HasModifier => 4
      case MissingValue => 5
    }

    /** The message the rule reports for a failure of this check. */
    function Message(): string
    {
      match this
      case NotPrecededByIf =>
        "'v-else-if' directives require being preceded by the element which has a 'v-if' or 'v-else-if' directive."
      case CoexistsWithIf => "'v-else-if' and 'v-if' directives can't exist on the same element."
      case CoexistsWithElse => "'v-else-if' and 'v-else' directives can't exist on the same element."
      case HasArgument => "'v-else-if' directives require no argument."
      case HasModifier => "'v-else-if' directives require no modifier."
      case MissingValue => "'v-else-if' directives require that attribute value."
    }
  }

  /** The checks in handler order. */
  const AllChecks: seq<Check> :=
    [NotPrecededByIf, CoexistsWithIf, CoexistsWithElse, HasArgument, HasModifier, MissingValue]

  /** One visit of the handler: the `else-if` attribute (`node`), the element
      two parent hops up (`node.parent.parent`) and that element's preceding
      siblings in document order. */
  datatype Occurrence = Occurrence(attr: Attribute, element: Element, preceding: seq<Node>)

  /** One `context.report` call: the node, its location and the message,
      the message identified by the check that failed. */
  datatype Problem = Problem(node: Attribute, loc: Loc, check: Check)
  {
    function Message(): string { check.Message() }
  }

  /** Whether check `c` fails on the occurrence, with the host's sibling
      classification `isElement`. */
  predicate Fails(c: Check, occ: Occurrence, isElement: Node -> bool)
  {
    match c
    case NotPrecededByIf => !PrevElementHasIf(occ.preceding, isElement)
    case CoexistsWithIf => HasDirective(occ.element, "if")
    case CoexistsWithElse => HasDirective(occ.element, "else")
    case HasArgument => ArgumentTruthy(occ.attr.key.argument)
    case HasModifier => |occ.attr.key.modifiers| > 0
    case MissingValue => !occ.attr.hasValue
  }

  /** An attribute none of whose checks fails. */
  predicate WellFormed(occ: Occurrence, isElement: Node -> bool)
  {
    && PrevElementHasIf(occ.preceding, isElement)
    && !HasDirective(occ.element, "if")
    && !HasDirective(occ.element, "else")
    && !ArgumentTruthy(occ.attr.key.argument)
    && occ.attr.key.modifiers == []
    && occ.attr.hasValue
  }

  /** The problem reported on the occurrence when check `c` fails. */
  function ProblemFor(occ: Occurrence, c: Check): Problem
  {
    Problem(occ.attr, occ.attr.loc, c)
  }

  /** What check `c` alone reports: its problem if it fails, else nothing. */
  function Outcome(occ: Occurrence, isElement: Node -> bool, c: Check): seq<Problem>
  {
    if Fails(c, occ, isElement) then [ProblemFor(occ, c)] else []
  }

  /** The problems for the failing checks among `checks`, in their order. */
  function ProblemsFor(occ: Occurrence, isElement: Node -> bool, checks: seq<Check>): seq<Problem>
    decreases |checks|
  {
    if checks == [] then []
    else Outcome(occ, isElement, checks[0]) + ProblemsFor(occ, isElement, checks[1..])
  }

  /** What one visit reports: every check runs, none suppresses another. */
  function Validate(occ: Occurrence, isElement: Node -> bool): seq<Problem>
  {
    ProblemsFor(occ, isElement, AllChecks)
  }

  /** Some problem in `ps` is for check `c`. */
  predicate Reported(ps: seq<Problem>, c: Check)
  {
    exists i :: 0 <= i < |ps| && ps[i].check == c
  }

  /** Checks listed in strictly increasing rank. */
  predicate StrictlyRanked(checks: seq<Check>)
  {
    forall i, j :: 0 <= i < j < |checks| ==> checks[i].Rank() < checks[j].Rank()
  }

  // ---------------------------------------------------------------------------
  // Properties of ProblemsFor over any list of checks
  // ---------------------------------------------------------------------------

  /** Each problem is about the visited attribute and sits at its location,
      and there is at most one problem per listed check. */
  lemma {:induction false} ProblemsForShape(occ: Occurrence, isElement: Node -> bool, checks: seq<Check>)
    ensures |ProblemsFor(occ, isElement, checks)| <= |checks|
    ensures forall p :: p in ProblemsFor(occ, isElement, checks) ==>
      p.node == occ.attr && p.loc == occ.attr.loc && p.check in checks && Fails(p.check, occ, isElement)
    decreases |checks|
  {
    if checks != [] {
      ProblemsForShape(occ, isElement, checks[1..]);
    }
  }

  /** A check is reported exactly when it is listed and fails. */
  lemma {:induction false} ProblemsForReported(occ: Occurrence, isElement: Node -> bool, checks: seq<Check>, c: Check)
    ensures Reported(ProblemsFor(occ, isElement, checks), c) <==> c in checks && Fails(c, occ, isElement)
    decreases |checks|
  {
    var ps := ProblemsFor(occ, isElement, checks);
    if checks != [] {
      var head := Outcome(occ, isElement, checks[0]);
      var rest := ProblemsFor(occ, isElement, checks[1..]);
      assert ps == head + rest;
      ProblemsForReported(occ, isElement, checks[1..], c);
      if Reported(rest, c) {
        var i :| 0 <= i < |rest| && rest[i].check == c;
        assert ps[|head| + i] == rest[i];
      }
      if c == checks[0] && Fails(c, occ, isElement) {
        assert ps[0].check == c;
      }
      assert checks == [checks[0]] + checks[1..];
    }
  }

  /** Problems come out in the order of the listed checks. */
  lemma {:induction false} ProblemsForRanked(occ: Occurrence, isElement: Node -> bool, checks: seq<Check>)
    requires StrictlyRanked(checks)
    ensures var ps := ProblemsFor(occ, isElement, checks);
      forall i, j :: 0 <= i < j < |ps| ==> ps[i].check.Rank() < ps[j].check.Rank()
    decreases |checks|
  {
    if checks != [] {
      var rest := ProblemsFor(occ, isElement, checks[1..]);
      ProblemsForRanked(occ, isElement, checks[1..]);
      ProblemsForShape(occ, isElement, checks[1..]);
      forall p | p in rest ensures checks[0].Rank() < p.check.Rank() {
        var k :| 0 <= k < |checks[1..]| && checks[1..][k] == p.check;
        assert checks[k + 1] == p.check;
      }
    }
  }

  // ---------------------------------------------------------------------------
  // Properties of one visit
  // ---------------------------------------------------------------------------

  /** Each of the six problems is reported exactly when its condition holds,
      whatever the other checks find. */
  lemma ValidateReportsExactly(occ: Occurrence, isElement: Node -> bool)
    ensures var ps := Validate(occ, isElement);
      && (Reported(ps, NotPrecededByIf) <==> !PrevElementHasIf(occ.preceding, isElement))
      && (Reported(ps, CoexistsWithIf) <==> HasDirective(occ.element, "if"))
      && (Reported(ps, CoexistsWithElse) <==> HasDirective(occ.element, "else"))
      && (Reported(ps, HasArgument) <==> ArgumentTruthy(occ.attr.key.argument))
      && (Reported(ps, HasModifier) <==> |occ.attr.key.modifiers| > 0)
      && (Reported(ps, MissingValue) <==> !occ.attr.hasValue)
  {
    forall c | true ensures Reported(Validate(occ, isElement), c) <==> Fails(c, occ, isElement) {
      ProblemsForReported(occ, isElement, AllChecks, c);
      assert c in AllChecks by { assert AllChecks[c.Rank()] == c; }
    }
  }

  /** The problems follow the handler's check order, so no check is reported
      twice, and there are at most six of them. */
  lemma ValidateOrdered(occ: Occurrence, isElement: Node -> bool)
    ensures var ps := Validate(occ, isElement);
      && |ps| <= 6
      && (forall i, j :: 0 <= i < j < |ps| ==> ps[i].check.Rank() < ps[j].check.Rank())
      && (forall i, j :: 0 <= i < j < |ps| ==> ps[i].check != ps[j].check)
  {
    AllChecksRanked();
    ProblemsForShape(occ, isElement, AllChecks);
    ProblemsForRanked(occ, isElement, AllChecks);
  }

  /** `AllChecks` lists each check at its rank. */
  lemma AllChecksRanked()
    ensures |AllChecks| == 6
    ensures StrictlyRanked(AllChecks)
  {
    forall k | 0 <= k < |AllChecks| ensures AllChecks[k].Rank() == k {
    }
  }

  /** Every problem is reported on the visited attribute, at its location,
      with the message of a check that fails. */
  lemma ValidateLocated(occ: Occurrence, isElement: Node -> bool)
    ensures forall p :: p in Validate(occ, isElement) ==>
      p.node == occ.attr && p.loc == occ.attr.loc && Fails(p.check, occ, isElement)
  {
    ProblemsForShape(occ, isElement, AllChecks);
  }

  /** An attribute preceded by a chain, alone among `if`/`else` on its
      element, with no argument, no modifier and a value produces no problem,
      and any other attribute produces at least one. */
  lemma ValidateEmptyIffWellFormed(occ: Occurrence, isElement: Node -> bool)
    ensures Validate(occ, isElement) == [] <==> WellFormed(occ, isElement)
  {
    ValidateReportsExactly(occ, isElement);
    ValidateLocated(occ, isElement);
    var ps := Validate(occ, isElement);
    if ps != [] {
      assert Fails(ps[0].check, occ, isElement);
    }
  }

  /** The problems are fixed by which checks fail: two visits whose checks
      fail alike report the same checks in the same order. */
  lemma {:induction false} ProblemsForDeterminedByFailures(occ1: Occurrence, occ2: Occurrence, isElement: Node -> bool, checks: seq<Check>)
    requires forall c :: Fails(c, occ1, isElement) == Fails(c, occ2, isElement)
    ensures var ps1, ps2 := ProblemsFor(occ1, isElement, checks), ProblemsFor(occ2, isElement, checks);
      |ps1| == |ps2| && forall i :: 0 <= i < |ps1| ==> ps1[i].check == ps2[i].check
    decreases |checks|
  {
    if checks != [] {
      ProblemsForDeterminedByFailures(occ1, occ2, isElement, checks[1..]);
    }
  }

  // ---------------------------------------------------------------------------
  // The handler
  // ---------------------------------------------------------------------------

  /** The reporting side of ESLint's rule context: the problems reported so
      far, in report order. */
  class RuleContext {
    var problems: seq<Problem>

    constructor ()
      ensures problems == []
    {
      problems := [];
    }

    /** `context.report({ node, loc, message })`. */
    method Report(p: Problem)
      modifies this
      ensures problems == old(problems) + [p]
    {
      problems := problems + [p];
    }
  }

  /** The handler registered for `VAttribute[directive=true][key.name='else-if']`:
      six independent checks, each reporting on the attribute at its
      location. It reads the occurrence and changes nothing but the
      problems reported. */
  method OnElseIf(context: RuleContext, node: Attribute, element: Element, preceding: seq<Node>, isElement: Node -> bool)
    modifies context
    ensures context.problems == old(context.problems) + Validate(Occurrence(node, element, preceding), isElement)
  {
    ghost var occ := Occurrence(node, element, preceding);
    ghost var s0 := context.problems;
    if !PrevElementHasIf(preceding, isElement) {
      context.Report(Problem(node, node.loc, NotPrecededByIf));
    }
    ghost var s1 := context.problems;
    assert s1 == s0 + Outcome(occ, isElement, NotPrecededByIf);
    if HasDirective(element, "if") {
      context.Report(Problem(node, node.loc, CoexistsWithIf));
    }
    ghost var s2 := context.problems;
    assert s2 == s1 + Outcome(occ, isElement, CoexistsWithIf);
    if HasDirective(element, "else") {
      context.Report(Problem(node, node.loc, CoexistsWithElse));
    }
    ghost var s3 := context.problems;
    assert s3 == s2 + Outcome(occ, isElement, CoexistsWithElse);
    if ArgumentTruthy(node.key.argument) {
      context.Report(Problem(node, node.loc, HasArgument));
    }
    ghost var s4 := context.problems;
    assert s4 == s3 + Outcome(occ, isElement, HasArgument);
    if |node.key.modifiers| > 0 {
      context.Report(Problem(node, node.loc, HasModifier));
    }
    ghost var s5 := context.problems;
    assert s5 == s4 + Outcome(occ, isElement, HasModifier);
    if !node.hasValue {
      context.Report(Problem(node, node.loc, MissingValue));
    }
    ghost var s6 := context.problems;
    assert s6 == s5 + Outcome(occ, isElement, MissingValue);
    ReportsChain(occ, isElement, s0, s1, s2, s3, s4, s5, s6);
  }

  /** `Validate` written out as the six conditional reports, concatenated. */
  lemma ValidateUnfolded(occ: Occurrence, isElement: Node -> bool)
    ensures Validate(occ, isElement) ==
      Outcome(occ, isElement, NotPrecededByIf)
      + Outcome(occ, isElement, CoexistsWithIf)
      + Outcome(occ, isElement, CoexistsWithElse)
      + Outcome(occ, isElement, HasArgument)
      + Outcome(occ, isElement, HasModifier)
      + Outcome(occ, isElement, MissingValue)
  {
    var r6: seq<Check> := [];
    var r5 := [MissingValue] + r6;
    var r4 := [HasModifier] + r5;
    var r3 := [HasArgument] + r4;
    var r2 := [CoexistsWithElse] + r3;
    var r1 := [CoexistsWithIf] + r2;
    assert AllChecks == [NotPrecededByIf] + r1;
    ProblemsForCons(occ, isElement, NotPrecededByIf, r1);
    ProblemsForCons(occ, isElement, CoexistsWithIf, r2);
    ProblemsForCons(occ, isElement, CoexistsWithElse, r3);
    ProblemsForCons(occ, isElement, HasArgument, r4);
    ProblemsForCons(occ, isElement, HasModifier, r5);
    ProblemsForCons(occ, isElement, MissingValue, r6);
  }

  /** Six appends, one per check in handler order, add up to `Validate`. */
  lemma ReportsChain(occ: Occurrence, isElement: Node -> bool, s0: seq<Problem>, s1: seq<Problem>, s2: seq<Problem>, s3: seq<Problem>, s4: seq<Problem>, s5: seq<Problem>, s6: seq<Problem>)
    requires s1 == s0 + Outcome(occ, isElement, NotPrecededByIf)
    requires s2 == s1 + Outcome(occ, isElement, CoexistsWithIf)
    requires s3 == s2 + Outcome(occ, isElement, CoexistsWithElse)
    requires s4 == s3 + Outcome(occ, isElement, HasArgument)
    requires s5 == s4 + Outcome(occ, isElement, HasModifier)
    requires s6 == s5 + Outcome(occ, isElement, MissingValue)
    ensures s6 == s0 + Validate(occ, isElement)
  {
    var o1, o2, o3 := Outcome(occ, isElement, NotPrecededByIf), Outcome(occ, isElement, CoexistsWithIf), Outcome(occ, isElement, CoexistsWithElse);
    var o4, o5, o6 := Outcome(occ, isElement, HasArgument), Outcome(occ, isElement, HasModifier), Outcome(occ, isElement, MissingValue);
    assert s2 == s0 + (o1 + o2);
    assert s3 == s0 + (o1 + o2 + o3);
    assert s4 == s0 + (o1 + o2 + o3 + o4);
    assert s5 == s0 + (o1 + o2 + o3 + o4 + o5);
    assert s6 == s0 + (o1 + o2 + o3 + o4 + o5 + o6);
    ValidateUnfolded(occ, isElement);
  }

  /** Unfolding `ProblemsFor` once. */
  lemma ProblemsForCons(occ: Occurrence, isElement: Node -> bool, c: Check, rest: seq<Check>)
    ensures ProblemsFor(occ, isElement, [c] + rest) == Outcome(occ, isElement, c) + ProblemsFor(occ, isElement, rest)
  {
    assert ([c] + rest)[1..] == rest;
  }
}
