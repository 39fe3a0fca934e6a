/**
 * The binary-expression node of the Java syntax tree: the role resolver that
 * maps between a child's position and kind and its role (left operand, right
 * operand, operation sign), the getters built on it, and the derivation of the
 * expression's type from its operands' types.
 *
 * The set of expression element types is not fixed here: every operation takes
 * it as the parameter `exprKinds`.
 */
module PsiBinaryExpression {
  import opened Optional
  import opened JavaElementTypes

  /** The roles a child can be asked for or reported with. `OtherRole` stands for
      every other role constant of the tree (parentheses, names, bodies, ...). */
  datatype ChildRole = NoRole | LOperand | ROperand | OperationSign | OtherRole(code: int)

  /** A binary-expression node, given by its ordered children. */
  datatype BinaryExpression = BinaryExpression(children: seq<AstNode>)

  /** The result of deriving the expression's type: a type or null, or the null
      dereference that happens when a right operand exists but no operation sign does. */
  datatype TypeOutcome<T> = Computed(t: Option<T>) | MissingOperationSign

  /** Position of the first child whose kind is in `types`, or `|children|` when there is none. */
  function FirstIndexOfType(children: seq<AstNode>, types: set<ElementType>): (i: nat)
    ensures i <= |children|
    ensures forall j :: 0 <= j < i ==> children[j].kind !in types
    ensures i < |children| ==> children[i].kind in types
  {
    if children == [] then 0
    else if children[0].kind in types then 0
    else 1 + FirstIndexOfType(children[1..], types)
  }

  /** The first child whose kind is in `types`, or null. */
  function FindChildByType(children: seq<AstNode>, types: set<ElementType>): (r: Option<AstNode>)
    ensures r.None? <==> forall j :: 0 <= j < |children| ==> children[j].kind !in types
    ensures r.Some? ==> exists i :: 0 <= i < |children| && children[i] == r.value
                          && r.value.kind in types
                          && forall j :: 0 <= j < i ==> children[j].kind !in types
  {
    var i := FirstIndexOfType(children, types);
    if i < |children| then Some(children[i]) else None
  }

  /** The child playing `role`, or null. Only the right-operand lookup reads the
      last child, so only it needs a child to exist. */
  function FindChildByRole(e: BinaryExpression, exprKinds: set<ElementType>, role: ChildRole): (r: Option<AstNode>)
    requires role == ROperand ==> |e.children| > 0
    ensures r.Some? ==> r.value in e.children
    ensures role == LOperand ==> (r.Some? <==> |e.children| > 0) && (r.Some? ==> r.value == e.children[0])
    ensures role == ROperand ==> (r.Some? <==> e.children[|e.children| - 1].kind in exprKinds)
                                 && (r.Some? ==> r.value == e.children[|e.children| - 1])
    ensures role == OperationSign ==>
              (r.None? <==> forall j :: 0 <= j < |e.children| ==> e.children[j].kind !in OperationsBitSet)
              && (r.Some? ==> r.value.kind in OperationsBitSet)
    ensures !role.LOperand? && !role.ROperand? && !role.OperationSign? ==> r.None?
  {
    match role
    case LOperand => if e.children == [] then None else Some(e.children[0])
    case ROperand =>
      var last := e.children[|e.children| - 1];
      if last.kind in exprKinds then Some(last) else None
    case OperationSign => FindChildByType(e.children, OperationsBitSet)
    case _ => None
  }

  /** The role of one of this node's children. The expression-kind test comes
      first, and within it the first-child test comes before the last-child test. */
  function GetChildRole(e: BinaryExpression, exprKinds: set<ElementType>, child: AstNode): (r: ChildRole)
    requires child in e.children
    ensures !r.OtherRole?
    ensures r == LOperand <==> child.kind in exprKinds && child == e.children[0]
    ensures r == ROperand <==> child.kind in exprKinds && child != e.children[0]
                               && child == e.children[|e.children| - 1]
    ensures r == OperationSign <==> child.kind !in exprKinds && child.kind in OperationsBitSet
  {
    if child.kind in exprKinds then
      if child == e.children[0] then LOperand
      else if child == e.children[|e.children| - 1] then ROperand
      else NoRole
    else if child.kind in OperationsBitSet then OperationSign
    else NoRole
  }

  /** The left operand: the first child whatever its kind, or null for a node without children. */
  function GetLOperand(e: BinaryExpression, exprKinds: set<ElementType>): (r: Option<AstNode>)
    ensures r.Some? <==> |e.children| > 0
    ensures r.Some? ==> r.value == e.children[0]
  {
    FindChildByRole(e, exprKinds, LOperand)
  }

  /** The right operand: the last child when it is an expression, null otherwise. */
  function GetROperand(e: BinaryExpression, exprKinds: set<ElementType>): (r: Option<AstNode>)
    requires |e.children| > 0
    ensures r.Some? ==> r.value == e.children[|e.children| - 1] && r.value.kind in exprKinds
    ensures r.None? ==> e.children[|e.children| - 1].kind !in exprKinds
  {
    FindChildByRole(e, exprKinds, ROperand)
  }

  /** The operation sign: the first child that is an operator token, null when there is none. */
  function GetOperationSign(e: BinaryExpression, exprKinds: set<ElementType>): (r: Option<AstNode>)
    ensures r.None? <==> forall j :: 0 <= j < |e.children| ==> e.children[j].kind !in OperationsBitSet
    ensures r.Some? ==> r.value in e.children && r.value.kind in OperationsBitSet
  {
    FindChildByRole(e, exprKinds, OperationSign)
  }

  /** The operator's token type, read from an operation sign that must exist:
      the kind of the first child that is an operator token. */
  function GetOperationTokenType(e: BinaryExpression, exprKinds: set<ElementType>): (r: ElementType)
    requires GetOperationSign(e, exprKinds).Some?
    ensures r in OperationsBitSet
    ensures exists i :: 0 <= i < |e.children| && e.children[i].kind == r
                        && forall j :: 0 <= j < i ==> e.children[j].kind !in OperationsBitSet
  {
    GetOperationSign(e, exprKinds).value.kind
  }

  /**
   * The type of the expression. `typeOf` gives the type (or null) of an operand
   * node; `combine` is the type-combination rule for a left type, a right type
   * and an operator token type. Neither is defined here.
   */
  function DoGetType<T>(e: BinaryExpression, exprKinds: set<ElementType>,
                        typeOf: AstNode -> Option<T>,
                        combine: (Option<T>, Option<T>, ElementType) -> Option<T>): (r: TypeOutcome<T>)
    requires |e.children| > 0
    ensures e.children[|e.children| - 1].kind !in exprKinds ==> r == Computed(None)
    ensures e.children[|e.children| - 1].kind in exprKinds
            && (forall j :: 0 <= j < |e.children| ==> e.children[j].kind !in OperationsBitSet)
            ==> r == MissingOperationSign
    ensures e.children[|e.children| - 1].kind in exprKinds && r != MissingOperationSign ==>
              exists i :: 0 <= i < |e.children| && e.children[i].kind in OperationsBitSet
                && (forall j :: 0 <= j < i ==> e.children[j].kind !in OperationsBitSet)
                && r == Computed(combine(typeOf(e.children[0]), typeOf(e.children[|e.children| - 1]),
                                         e.children[i].kind))
  {
    var lOperand := GetLOperand(e, exprKinds);
    var rOperand := GetROperand(e, exprKinds);
    if rOperand.None? then Computed(None)
    else
      var sign := GetOperationSign(e, exprKinds);
      if sign.None? then MissingOperationSign
      else
        var rType := typeOf(rOperand.value);
        var lType := typeOf(lOperand.value);
        Computed(combine(lType, rType, sign.value.kind))
  }
}
