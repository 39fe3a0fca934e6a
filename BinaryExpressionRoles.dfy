/**
 * Properties of the binary-expression node's role resolver and type derivation:
 * the round trips between role and child, the edge cases of the first/last
 * addressing scheme, and what the type derivation depends on.
 */
module BinaryExpressionRoles {
  import opened Optional
  import opened JavaElementTypes
  import opened PsiBinaryExpression

  /** No expression element type is also an operator token type. */
  predicate ExpressionKindsExcludeOperators(exprKinds: set<ElementType>)
  {
    exprKinds !! OperationsBitSet
  }

  /** Role to child to role, for the left operand: the first child comes back
      as the left operand exactly when it is an expression. */
  lemma LOperandRoundTrip(e: BinaryExpression, exprKinds: set<ElementType>)
    requires |e.children| > 0
    ensures FindChildByRole(e, exprKinds, LOperand) == Some(e.children[0])
    ensures GetChildRole(e, exprKinds, e.children[0]) == LOperand <==> e.children[0].kind in exprKinds
  {
  }

  /** Role to child to role, for the right operand: a right operand that exists
      comes back as the right operand exactly when the node has two children or more. */
  lemma ROperandRoundTrip(e: BinaryExpression, exprKinds: set<ElementType>)
    requires |e.children| > 0
    requires DistinctChildren(e.children)
    requires FindChildByRole(e, exprKinds, ROperand).Some?
    ensures GetChildRole(e, exprKinds, FindChildByRole(e, exprKinds, ROperand).value) == ROperand
            <==> |e.children| >= 2
  {
  }

  /** Role to child to role, for the operation sign: the sign comes back as the
      operation sign exactly when its kind is not also an expression kind. */
  lemma OperationSignRoundTrip(e: BinaryExpression, exprKinds: set<ElementType>)
    requires FindChildByRole(e, exprKinds, OperationSign).Some?
    ensures GetChildRole(e, exprKinds, FindChildByRole(e, exprKinds, OperationSign).value) == OperationSign
            <==> FindChildByRole(e, exprKinds, OperationSign).value.kind !in exprKinds
  {
  }

  /** Child to role to child: every role `GetChildRole` reports leads
      `FindChildByRole` back to that child, except that for the operation sign it
      leads to a child of an operator kind, which need not be this one. */
  lemma ChildRoleRoundTrip(e: BinaryExpression, exprKinds: set<ElementType>, child: AstNode)
    requires child in e.children
    ensures GetChildRole(e, exprKinds, child) == LOperand ==>
              FindChildByRole(e, exprKinds, LOperand) == Some(child)
    ensures GetChildRole(e, exprKinds, child) == ROperand ==>
              FindChildByRole(e, exprKinds, ROperand) == Some(child)
    ensures GetChildRole(e, exprKinds, child) == OperationSign ==>
              FindChildByRole(e, exprKinds, OperationSign).Some?
  {
  }

  /** The operation-sign lookup returns an operator child exactly when no
      operator child comes before it. */
  lemma OperationSignIsFirstOperator(e: BinaryExpression, exprKinds: set<ElementType>, i: nat)
    requires DistinctChildren(e.children)
    requires i < |e.children|
    requires e.children[i].kind in OperationsBitSet
    ensures FindChildByRole(e, exprKinds, OperationSign) == Some(e.children[i])
            <==> forall j :: 0 <= j < i ==> e.children[j].kind !in OperationsBitSet
  {
  }

  /** Duplicated operator tokens are not detected: a later operator child still
      reports the operation-sign role, but the lookup for that role never returns it. */
  lemma LaterOperatorRoleDoesNotLeadBack(e: BinaryExpression, exprKinds: set<ElementType>, i: nat, j: nat)
    requires DistinctChildren(e.children)
    requires i < j < |e.children|
    requires e.children[i].kind in OperationsBitSet
    requires e.children[j].kind in OperationsBitSet && e.children[j].kind !in exprKinds
    ensures GetChildRole(e, exprKinds, e.children[j]) == OperationSign
    ensures FindChildByRole(e, exprKinds, OperationSign) != Some(e.children[j])
  {
    OperationSignIsFirstOperator(e, exprKinds, j);
  }

  /** A lone expression child is both the first and the last child: the left and
      right operand lookups return it, it reports the left-operand role, and so
      the right-operand round trip fails. */
  lemma LoneExpressionChild(e: BinaryExpression, exprKinds: set<ElementType>)
    requires |e.children| == 1 && e.children[0].kind in exprKinds
    ensures FindChildByRole(e, exprKinds, LOperand) == Some(e.children[0])
    ensures FindChildByRole(e, exprKinds, ROperand) == Some(e.children[0])
    ensures GetChildRole(e, exprKinds, e.children[0]) == LOperand
    ensures GetChildRole(e, exprKinds, FindChildByRole(e, exprKinds, ROperand).value) != ROperand
  {
  }

  /** The left and right operand lookups agree exactly for a node whose one child
      is an expression. */
  lemma OperandsCoincideOnlyForLoneChild(e: BinaryExpression, exprKinds: set<ElementType>)
    requires |e.children| > 0
    requires DistinctChildren(e.children)
    ensures FindChildByRole(e, exprKinds, LOperand) == FindChildByRole(e, exprKinds, ROperand)
            <==> |e.children| == 1 && e.children[0].kind in exprKinds
  {
  }

  /** An expression child that is neither the first nor the last child has no role. */
  lemma MiddleExpressionChildHasNoRole(e: BinaryExpression, exprKinds: set<ElementType>, i: nat)
    requires DistinctChildren(e.children)
    requires 0 < i < |e.children| - 1
    requires e.children[i].kind in exprKinds
    ensures GetChildRole(e, exprKinds, e.children[i]) == NoRole
  {
  }

  /** A child that is neither an expression nor an operator token has no role. */
  lemma InertChildHasNoRole(e: BinaryExpression, exprKinds: set<ElementType>, child: AstNode)
    requires child in e.children
    requires child.kind !in exprKinds && child.kind !in OperationsBitSet
    ensures GetChildRole(e, exprKinds, child) == NoRole
  {
  }

  /** The first child whose kind is in `types`, in a concatenation. */
  lemma {:induction false} FindChildByTypeAppend(a: seq<AstNode>, b: seq<AstNode>, types: set<ElementType>)
    ensures FindChildByType(a + b, types) ==
            if FindChildByType(a, types).Some? then FindChildByType(a, types) else FindChildByType(b, types)
    decreases |a|
  {
    if a == [] {
      assert a + b == b;
    } else {
      assert (a + b)[0] == a[0];
      assert (a + b)[1..] == a[1..] + b;
      FindChildByTypeAppend(a[1..], b, types);
      FindChildByTypeStep(a, types);
      FindChildByTypeStep(a + b, types);
    }
  }

  /** One step of the search for the first child whose kind is in `types`. */
  lemma FindChildByTypeStep(s: seq<AstNode>, types: set<ElementType>)
    requires |s| > 0
    ensures FindChildByType(s, types) ==
            if s[0].kind in types then Some(s[0]) else FindChildByType(s[1..], types)
  {
  }

  /** Inserting a child that is neither an expression nor an operator token (white
      space, a comment) anywhere strictly between the first and last child changes
      no lookup by role. */
  lemma InertChildKeepsFindChildByRole(a: seq<AstNode>, x: AstNode, b: seq<AstNode>,
                                       exprKinds: set<ElementType>, role: ChildRole)
    requires |a| > 0 && |b| > 0
    requires x.kind !in exprKinds && x.kind !in OperationsBitSet
    ensures FindChildByRole(BinaryExpression(a + [x] + b), exprKinds, role)
            == FindChildByRole(BinaryExpression(a + b), exprKinds, role)
  {
    if role == OperationSign {
      FindChildByTypeAppend(a + [x], b, OperationsBitSet);
      FindChildByTypeAppend(a, [x], OperationsBitSet);
      FindChildByTypeAppend(a, b, OperationsBitSet);
    } else if role == LOperand {
      assert (a + [x] + b)[0] == a[0] == (a + b)[0];
    } else if role == ROperand {
      var n', n := |a + [x] + b|, |a + b|;
      assert (a + [x] + b)[n' - 1] == b[|b| - 1] == (a + b)[n - 1];
    }
  }

  /** The same insertion changes the role of no existing child, and the inserted
      child has no role. */
  lemma InertChildKeepsChildRoles(a: seq<AstNode>, x: AstNode, b: seq<AstNode>,
                                  exprKinds: set<ElementType>, child: AstNode)
    requires |a| > 0 && |b| > 0
    requires x.kind !in exprKinds && x.kind !in OperationsBitSet
    requires child in a + b
    ensures child in a + [x] + b
    ensures GetChildRole(BinaryExpression(a + [x] + b), exprKinds, child)
            == GetChildRole(BinaryExpression(a + b), exprKinds, child)
    ensures GetChildRole(BinaryExpression(a + [x] + b), exprKinds, x) == NoRole
  {
  }

  /** A node whose last child is not an expression has no type, whatever the
      operand types and whatever the combination rule: the rule is not consulted. */
  lemma TypeWithoutROperandIgnoresCombiner<T>(e: BinaryExpression, exprKinds: set<ElementType>,
                                              typeOf1: AstNode -> Option<T>, typeOf2: AstNode -> Option<T>,
                                              combine1: (Option<T>, Option<T>, ElementType) -> Option<T>,
                                              combine2: (Option<T>, Option<T>, ElementType) -> Option<T>)
    requires |e.children| > 0
    requires GetROperand(e, exprKinds).None?
    ensures DoGetType(e, exprKinds, typeOf1, combine1) == DoGetType(e, exprKinds, typeOf2, combine2)
    ensures DoGetType(e, exprKinds, typeOf1, combine1) == Computed(None)
  {
  }

  /** In a node whose expression and operator kinds are disjoint, with a child
      reporting the left-operand role, a child reporting the right-operand role and
      an operator child, the type is computed, and it is the combination rule
      applied to those two children's types and the operator's token type. */
  lemma TypeOfCompleteExpression<T>(e: BinaryExpression, exprKinds: set<ElementType>,
                                    typeOf: AstNode -> Option<T>,
                                    combine: (Option<T>, Option<T>, ElementType) -> Option<T>,
                                    l: AstNode, r: AstNode, k: nat)
    requires ExpressionKindsExcludeOperators(exprKinds)
    requires DistinctChildren(e.children)
    requires l in e.children && GetChildRole(e, exprKinds, l) == LOperand
    requires r in e.children && GetChildRole(e, exprKinds, r) == ROperand
    requires k < |e.children| && e.children[k].kind in OperationsBitSet
    ensures GetOperationSign(e, exprKinds).Some?
    ensures DoGetType(e, exprKinds, typeOf, combine).Computed?
    ensures DoGetType(e, exprKinds, typeOf, combine).t
            == combine(typeOf(l), typeOf(r), GetOperationTokenType(e, exprKinds))
  {
  }

  /** A node whose one child is an expression has a right operand but no operation
      sign, so deriving its type dereferences the missing sign. */
  lemma LoneExpressionChildHasNoType<T>(e: BinaryExpression, exprKinds: set<ElementType>,
                                        typeOf: AstNode -> Option<T>,
                                        combine: (Option<T>, Option<T>, ElementType) -> Option<T>)
    requires ExpressionKindsExcludeOperators(exprKinds)
    requires |e.children| == 1 && e.children[0].kind in exprKinds
    ensures GetROperand(e, exprKinds) == Some(e.children[0])
    ensures DoGetType(e, exprKinds, typeOf, combine) == MissingOperationSign
  {
  }

  /** On a complete, distinct-child node with disjoint expression and operator
      kinds (an expression first, an expression last, at least two children and an
      operator token), all three roles round-trip. */
  lemma RoundTripOnCompleteExpression(e: BinaryExpression, exprKinds: set<ElementType>)
    requires ExpressionKindsExcludeOperators(exprKinds)
    requires DistinctChildren(e.children)
    requires |e.children| >= 2
    requires e.children[0].kind in exprKinds && e.children[|e.children| - 1].kind in exprKinds
    requires exists i :: 0 <= i < |e.children| && e.children[i].kind in OperationsBitSet
    ensures GetChildRole(e, exprKinds, FindChildByRole(e, exprKinds, LOperand).value) == LOperand
    ensures GetChildRole(e, exprKinds, FindChildByRole(e, exprKinds, ROperand).value) == ROperand
    ensures GetChildRole(e, exprKinds, FindChildByRole(e, exprKinds, OperationSign).value) == OperationSign
  {
  }
}
