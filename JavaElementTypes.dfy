/**
 * Element types of the Java syntax tree, as far as the binary-expression node
 * distinguishes them, and the tree nodes that carry them.
 */
module JavaElementTypes {

  /**
   * The 19 named constructors are the token types a binary expression accepts
   * as its operation sign. Every other element type (the composite types of
   * expressions, white space, comments, other tokens such as `=` or `+=`,
   * error elements) is an `OtherElement`, told apart by its index.
   */
  datatype ElementType =
    | OrOr | AndAnd | Or | Xor | And | EqEq | Ne | Lt | Gt | Le | Ge
    | LtLt | GtGt | GtGtGt | Plus | Minus | Asterisk | Div | Perc
    | OtherElement(index: nat)

  /** The closed set of operator token types of a binary expression. */
  const OperationsBitSet: set<ElementType> :=
    {OrOr, AndAnd, Or, Xor, And, EqEq,
     Ne, Lt, Gt, Le, Ge, LtLt,
     GtGt, GtGtGt, Plus, Minus, Asterisk, Div,
     Perc}

  /** A child node of the tree: its identity and its element type. */
  datatype AstNode = AstNode(id: nat, kind: ElementType)

  /** No node occurs twice among the children of one parent. */
  predicate DistinctChildren(children: seq<AstNode>)
  {
    forall i, j :: 0 <= i < j < |children| ==> children[i].id != children[j].id
  }

  /** An element type is an operation sign exactly when it is one of the 19 operator tokens. */
  lemma OperationsBitSetIsTheOperatorTokens(k: ElementType)
    ensures k in OperationsBitSet <==> !k.OtherElement?
  {
  }
}
