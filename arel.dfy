/**
 * The part of Arel's query tree that the historic rewriter inspects or changes.
 * Tables are compared by name alone; table aliases, which `Arel::Table#==` also
 * compares, are not modelled.
 */
module Arel {

  /** A table name as Rails spells it: lower-case letters, digits and underscores. */
  predicate IsIdentifier(s: string)
  {
    |s| > 0 && forall i :: 0 <= i < |s| ==> ('a' <= s[i] <= 'z' || '0' <= s[i] <= '9' || s[i] == '_')
  }

  type Identifier = s: string | IsIdentifier(s) witness "t"

  /** `Arel::Attributes::Attribute`: a column of a table. */
  datatype Attribute = Attribute(relation: string, name: string)

  /** One side of a comparison or of an ON condition: an attribute or an `Arel::Nodes::SqlLiteral`. */
  datatype Operand = Attr(attribute: Attribute) | SqlLiteral(sql: string)

  /** The comparison node classes the rewriter recognises. */
  datatype ComparisonKind =
    | HomogeneousIn | In | NotIn | Equality | NotEqual
    | LessThan | LessThanOrEqual | GreaterThan | GreaterThanOrEqual

  /**
   * A predicate of a where clause: a raw SQL string, a comparison whose right side
   * (the compared value) the rewriter never looks at, a `Grouping` around a binary
   * `And`/`Or`, or a node of any other class.
   */
  datatype Predicate =
    | Raw(sql: string)
    | Comparison(kind: ComparisonKind, attribute: Operand, value: string)
    | Grouping(lhs: Predicate, rhs: Predicate)
    | OtherNode(className: string)

  datatype Direction = Ascending | Descending

  /**
   * An order clause: an `SqlLiteral`; an `Ascending`/`Descending` node around an
   * expression; a `NullsFirst`/`NullsLast` node around another order clause; or a node
   * without an `expr`, such as a bare attribute or a function call.
   */
  datatype OrderClause =
    | OrderSql(sql: string)
    | Ordering(direction: Direction, expr: Operand)
    | NullsOrdering(nullsFirst: bool, inner: OrderClause)
    | OtherOrder(className: string)

  /**
   * A join source: a `StringJoin`, a join whose right side is an `On` node holding a
   * binary condition, or any other join node.
   */
  datatype JoinSource =
    | StringJoin(sql: string)
    | OnJoin(kind: string, relation: string, onLeft: Operand, onRight: Operand)
    | OtherJoin(kind: string)

  /** An entry of a select list: an attribute or a string. */
  datatype SelectValue = SelectAttribute(attribute: Attribute) | SelectSql(sql: string)

  /** A double-quoted SQL identifier. */
  function Quoted(name: string): string
  {
    "\"" + name + "\""
  }

  /** How an operand reads in SQL: a quoted `"table"."column"`, or the literal text. */
  function Sql(o: Operand): string
  {
    match o
    case Attr(a) => Quoted(a.relation) + "." + Quoted(a.name)
    case SqlLiteral(s) => s
  }
}
