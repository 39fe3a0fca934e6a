# Binary-expression node of the Java syntax tree

This project models `PsiBinaryExpressionImpl`, which is the syntax-tree node for a Java binary expression such as `a + b` or `x && y`. The model covers two things.

**The role resolver.** A node is an ordered list of children. Each child is an `AstNode` with an identity (`id`) and an element type (`kind`).
- `FindChildByRole` goes from a role to a child:
  - the left operand is the first child, whatever its kind;
  - the right operand is the last child, but only when that child is an expression;
  - the operation sign is the first child whose kind is one of the 19 operator tokens in `OperationsBitSet`.
- `GetChildRole` goes the other way, from a child to its role. It tests first whether the child is an expression. If it is, the child gets:
  - the left-operand role when it is the first child;
  - otherwise, the right-operand role when it is the last child;
  - otherwise no role.
  A non-expression child whose kind is an operator token gets the operation-sign role. Every other child gets no role.

The getters `GetLOperand`, `GetROperand`, `GetOperationSign` and `GetOperationTokenType` are built on `FindChildByRole`.

**The type derivation `DoGetType`.** When there is no right operand, the type is null. Otherwise the type is a combination rule applied to three things: the left operand's type, the right operand's type and the operation sign's token type.

**What is left abstract.** Three things the source code does not define are parameters of the model:
- The set of expression element types is the parameter `exprKinds`.
- The operand type lookup is the parameter `typeOf`.
- The combination rule is the parameter `combine`.

Java `null` is `Option.None`. Node identity is the `AstNode` value. `DistinctChildren` says that no node occurs twice among the children, as in any real tree.

**Three places where the code does less than a binary expression is meant to guarantee.** The model follows the code in each:
- **Duplicated operator tokens.** A binary expression is meant to have exactly one operator token. The code never checks this. The sign lookup returns the first operator token. A later one still reports the operation-sign role (`LaterOperatorRoleDoesNotLeadBack`).
- **A lone expression child.** The left and right operands are meant to be different children. For a node whose only child is an expression, the code returns that child for both (`LoneExpressionChild`, `OperandsCoincideOnlyForLoneChild`).
- **The type of a one-child node.** An incomplete expression is meant to have no type. When the one child is an expression, the code takes it as a right operand. There is no operation sign, so the code dereferences null (`LoneExpressionChildHasNoType`).

## Model

| member | source | states |
|---|---|---|
| JavaElementTypes.OperationsBitSetIsTheOperatorTokens | source/com/intellij/psi/impl/source/tree/java/PsiBinaryExpressionImpl.java:98-102 | an element type is in the operator set exactly when it is one of the 19 listed operator tokens; no other type is in it |
| PsiBinaryExpression.FirstIndexOfType | source/com/intellij/psi/impl/source/tree/java/PsiBinaryExpressionImpl.java:81 | the position found is the first child whose kind is in the given set, and no earlier child's kind is; if no child matches, the position is the length of the list |
| PsiBinaryExpression.FindChildByType | source/com/intellij/psi/impl/source/tree/java/PsiBinaryExpressionImpl.java:81 | the result is null exactly when no child's kind is in the set; otherwise it is the first child whose kind is in the set |
| PsiBinaryExpression.FindChildByRole | source/com/intellij/psi/impl/source/tree/java/PsiBinaryExpressionImpl.java:68-83 | any result is a child of the node; the left operand is the first child with no kind check (null only when there are no children); the right operand is the last child exactly when that child is an expression, otherwise null; the operation sign is null exactly when no child is an operator token, and otherwise has an operator kind; every other role gives null |
| PsiBinaryExpression.GetChildRole | source/com/intellij/psi/impl/source/tree/java/PsiBinaryExpressionImpl.java:85-96 | for a child of the node: left operand exactly when it is an expression and the first child; right operand exactly when it is an expression, the last child and not the first; operation sign exactly when it is not an expression but is an operator token; no other role is ever produced |
| PsiBinaryExpression.GetLOperand | source/com/intellij/psi/impl/source/tree/java/PsiBinaryExpressionImpl.java:25-28 | the left operand exists exactly when the node has children, and then it is the first child |
| PsiBinaryExpression.GetROperand | source/com/intellij/psi/impl/source/tree/java/PsiBinaryExpressionImpl.java:30-32 | the right operand, when present, is the last child and is an expression; it is absent only when the last child is not an expression |
| PsiBinaryExpression.GetOperationSign | source/com/intellij/psi/impl/source/tree/java/PsiBinaryExpressionImpl.java:34-37 | the sign is absent exactly when no child is an operator token; when present, it is a child with an operator kind |
| PsiBinaryExpression.GetOperationTokenType | source/com/intellij/psi/impl/source/tree/java/PsiBinaryExpressionImpl.java:39-42 | the token type of an existing sign is one of the 19 operator tokens, and it is the kind of the first child that is an operator token |
| PsiBinaryExpression.DoGetType | source/com/intellij/psi/impl/source/tree/java/PsiBinaryExpressionImpl.java:44-57 | if the last child is not an expression, the type is null; if it is an expression but no child is an operator token, the missing sign is dereferenced; otherwise the type is the combination of the first child's type, the last child's type and the kind of the first operator child |
| BinaryExpressionRoles.LOperandRoundTrip | source/com/intellij/psi/impl/source/tree/java/PsiBinaryExpressionImpl.java:74-75 | the left-operand lookup returns the first child, and that child reports the left-operand role exactly when it is an expression |
| BinaryExpressionRoles.ROperandRoundTrip | source/com/intellij/psi/impl/source/tree/java/PsiBinaryExpressionImpl.java:77-78 | an existing right operand reports the right-operand role exactly when the node has at least two (distinct) children |
| BinaryExpressionRoles.OperationSignRoundTrip | source/com/intellij/psi/impl/source/tree/java/PsiBinaryExpressionImpl.java:80-81 | a found operation sign reports the operation-sign role exactly when its kind is not also an expression kind |
| BinaryExpressionRoles.ChildRoleRoundTrip | source/com/intellij/psi/impl/source/tree/java/PsiBinaryExpressionImpl.java:85-93 | a child that reports the left-operand role or the right-operand role is what the lookup for that role returns; a child that reports the operation-sign role means the sign lookup finds some sign |
| BinaryExpressionRoles.OperationSignIsFirstOperator | source/com/intellij/psi/impl/source/tree/java/PsiBinaryExpressionImpl.java:80-81 | an operator child, whether or not its kind is also an expression kind, is what the sign lookup returns exactly when no earlier child is an operator token |
| BinaryExpressionRoles.LaterOperatorRoleDoesNotLeadBack | source/com/intellij/psi/impl/source/tree/java/PsiBinaryExpressionImpl.java:80-93 | when there are two operator children, the later one still reports the operation-sign role, but the sign lookup never returns it: duplicates are not detected |
| BinaryExpressionRoles.LoneExpressionChild | source/com/intellij/psi/impl/source/tree/java/PsiBinaryExpressionImpl.java:74-78 | a lone expression child is returned for both the left and the right operand, reports the left-operand role, and so the right-operand round trip fails |
| BinaryExpressionRoles.OperandsCoincideOnlyForLoneChild | source/com/intellij/psi/impl/source/tree/java/PsiBinaryExpressionImpl.java:74-78 | the left and right operand lookups give the same answer exactly when the node has one child and it is an expression |
| BinaryExpressionRoles.MiddleExpressionChildHasNoRole | source/com/intellij/psi/impl/source/tree/java/PsiBinaryExpressionImpl.java:87-90 | an expression child strictly between the first and the last child has no role |
| BinaryExpressionRoles.InertChildHasNoRole | source/com/intellij/psi/impl/source/tree/java/PsiBinaryExpressionImpl.java:92-95 | a child that is neither an expression nor an operator token has no role |
| BinaryExpressionRoles.FindChildByTypeStep | source/com/intellij/psi/impl/source/tree/java/PsiBinaryExpressionImpl.java:81 | the search returns the head child when its kind matches, and otherwise the result of searching the rest |
| BinaryExpressionRoles.FindChildByTypeAppend | source/com/intellij/psi/impl/source/tree/java/PsiBinaryExpressionImpl.java:81 | searching a concatenation returns the first part's match if there is one, otherwise the second part's |
| BinaryExpressionRoles.InertChildKeepsFindChildByRole | source/com/intellij/psi/impl/source/tree/java/PsiBinaryExpressionImpl.java:68-83 | inserting a child that is neither an expression nor an operator token (white space, a comment) between the first and last child changes no role lookup |
| BinaryExpressionRoles.InertChildKeepsChildRoles | source/com/intellij/psi/impl/source/tree/java/PsiBinaryExpressionImpl.java:85-96 | the same insertion changes the role of no existing child, and the inserted child has no role |
| BinaryExpressionRoles.TypeWithoutROperandIgnoresCombiner | source/com/intellij/psi/impl/source/tree/java/PsiBinaryExpressionImpl.java:46-50 | without a right operand the type is null, the same for every operand type lookup and every combination rule, so neither is consulted |
| BinaryExpressionRoles.TypeOfCompleteExpression | source/com/intellij/psi/impl/source/tree/java/PsiBinaryExpressionImpl.java:44-56 | suppose expression and operator kinds are disjoint, one child reports the left-operand role, one reports the right-operand role, and an operator child exists; then a type is computed, and it combines the types of the two role-holding children with the operator's token type |
| BinaryExpressionRoles.LoneExpressionChildHasNoType | source/com/intellij/psi/impl/source/tree/java/PsiBinaryExpressionImpl.java:48-54 | a node whose only child is an expression has that child as its right operand, but with no sign its type derivation dereferences null |
| BinaryExpressionRoles.RoundTripOnCompleteExpression | source/com/intellij/psi/impl/source/tree/java/PsiBinaryExpressionImpl.java:68-96 | in a complete node (expressions first and last, at least two distinct children, an operator token, and expression kinds disjoint from operator kinds), all three roles round-trip |

## Left out

- `getType` (lines 59-66) and its resolve cache are not modelled. The cache is a project-wide memo store. It has its own invalidation and concurrency rules. `getType` only hands `doGetType` to that cache.
- `TypeConversionUtil.calcTypeForBinaryExpression` is not part of this model. It is the parameter `combine`, and no numeric-promotion, string-concatenation, shift or boolean rule is stated about it.
- The operands' own `getType` is the parameter `typeOf`. It is not resolved recursively here.
- The set of expression element types (`ElementType.EXPRESSION_BIT_SET`) is not part of this model. It is the parameter `exprKinds`.
- `CompositeElement.findChildByType` is not part of this model. `FindChildByType` models it as "the first child whose kind is in the set".
- FindChildByRole: does not model the `LOG.assertTrue(ChildRole.isUnique(role))` check at line 69. `isUnique` is not part of this model. No use of the role depends on the check: any role other than the three handled ones gives null.
- GetChildRole: models the parent check at line 86 as a precondition: the child must be one of the node's children. The two checks are treated differently because this one is a caller obligation. Passing another node's child is a programming error, and the role computed for such a child (looked up against positions in the wrong node) is meaningless.
- FindChildByRole: for the right-operand role, requires at least one child. With no children there is no last child, and line 78 dereferences null.
- DoGetType: inherits that precondition. When a right operand exists but the operation sign does not, the null dereference at line 54 is the result `MissingOperationSign`.
- GetOperationTokenType: requires the operation sign to exist. Without one, line 41 dereferences null. All this function has to do is read the kind of an existing sign.
- GetLOperand, GetOperationSign and GetOperationTokenType: the `@NotNull` annotations at lines 25, 34 and 39 are not modelled. The model returns null where the annotations promise a value: `GetLOperand` for a node with no children, and `GetOperationSign` for a node with no operator token.
- The casts to `PsiExpression` and `PsiJavaToken` in the getters are not modelled. The PSI class hierarchy is not part of this model.
- `accept` (lines 104-111) is not modelled: it is visitor dispatch with no logic of its own.
- `toString` is not modelled: it is string rendering. The `Logger` is not modelled either.
- `SourceTreeToPsiMap` is not modelled: it converts between the PSI and AST views, and a node and its PSI element are the same value here.
