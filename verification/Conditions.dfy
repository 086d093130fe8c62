/** Where clauses and what they say about a document (drive/src/query/conditions.rs). */
module Conditions {
  import opened Prelude
  import opened Values

  datatype WhereOperator =
    | Equal
    | GreaterThan
    | GreaterThanOrEquals
    | LessThan
    | LessThanOrEquals
    | Between
    | BetweenExcludeBounds
    | BetweenExcludeLeft
    | BetweenExcludeRight
    | In
    | StartsWith

  datatype WhereClause = WhereClause(field: string, operator: WhereOperator, value: Value)

  datatype QueryError =
    | InvalidWhereClauseOrder
    | InvalidWhereClauseComponents
    | InvalidInClause
    | InvalidBetweenClause
    | InvalidStartsWithClause
    | StartsWithIllegalString
    | InvalidSQL
    | Unsupported
    | DuplicateNonGroupableClauseSameField
    | MultipleInClauses
    | MultipleRangeClauses
    | RangeClausesNotGroupable
    | SerializationFailed

  type Document = map<string, Value>

  /** What an operator with operand `v` says about a stored value `x`. */
  predicate Satisfies(op: WhereOperator, v: Value, x: Value)
  {
    match op
    case Equal => Eq(x, v)
    case GreaterThan => Less(v, x)
    case GreaterThanOrEquals => AtMost(v, x)
    case LessThan => Less(x, v)
    case LessThanOrEquals => AtMost(x, v)
    case Between => IsPair(v) && AtMost(v.items[0], x) && AtMost(x, v.items[1])
    case BetweenExcludeBounds => IsPair(v) && Less(v.items[0], x) && Less(x, v.items[1])
    case BetweenExcludeLeft => IsPair(v) && Less(v.items[0], x) && AtMost(x, v.items[1])
    case BetweenExcludeRight => IsPair(v) && AtMost(v.items[0], x) && Less(x, v.items[1])
    case In => v.Array? && exists y | y in v.items :: Eq(x, y)
    case StartsWith => v.Text? && x.Text? && v.utf8 <= x.utf8
  }

  predicate IsPair(v: Value)
  {
    v.Array? && |v.items| == 2
  }

  /** A document without the field satisfies no clause on it. */
  predicate Holds(c: WhereClause, doc: Document)
  {
    c.field in doc && Satisfies(c.operator, c.value, doc[c.field])
  }

  predicate AllHold(cs: seq<WhereClause>, doc: Document)
  {
    forall c | c in cs :: Holds(c, doc)
  }

  function Flip(op: WhereOperator): Result<WhereOperator, QueryError>
  {
    match op
    case Equal => Ok(Equal)
    case GreaterThan => Ok(LessThan)
    case GreaterThanOrEquals => Ok(LessThanOrEquals)
    case LessThan => Ok(GreaterThan)
    case LessThanOrEquals => Ok(GreaterThanOrEquals)
    case _ => Err(InvalidWhereClauseOrder)
  }

  /** `v op x` says what `x Flip(op) v` says. */
  lemma FlipMeaning(op: WhereOperator, v: Value, x: Value)
    requires Flip(op).Ok?
    ensures Satisfies(op, x, v) <==> Satisfies(Flip(op).value, v, x)
    ensures Flip(Flip(op).value) == Ok(op)
  {
    EqSymmetric(x, v);
  }

  /** Exactly the five plain comparisons can be flipped. */
  lemma FlipAllowed(op: WhereOperator)
    ensures Flip(op).Ok? <==> op in {Equal, GreaterThan, GreaterThanOrEquals, LessThan, LessThanOrEquals}
    ensures Flip(op).Err? ==> Flip(op).error == InvalidWhereClauseOrder
  {
  }

  function LessThanValue(a: WhereClause, b: WhereClause, allowEq: bool): Result<bool, QueryError>
  {
    if !Comparable(a.value, b.value) then Err(RangeClausesNotGroupable)
    else Ok(if allowEq then AtMost(a.value, b.value) else Less(a.value, b.value))
  }

  const IN_MAX: nat := 100

  /** The value before position `i` occurs again from `i` on. */
  predicate Recurs(vs: seq<Value>, i: nat)
    requires 1 <= i < |vs|
  {
    exists y | y in vs[i..] :: Eq(y, vs[i - 1])
  }

  /** The values of an in clause: between 1 and 100 of them, no two equal. */
  function InValues(c: WhereClause): (r: Result<seq<Value>, QueryError>)
    ensures r.Ok? <==>
            c.value.Array? && 1 <= |c.value.items| <= 100 &&
            forall i, j | 0 <= i < j < |c.value.items| :: !Eq(c.value.items[j], c.value.items[i])
    ensures r.Ok? ==> c.value.Array? && r.value == c.value.items
    ensures r.Err? ==> r.error == InvalidInClause
  {
    if !c.value.Array? then Err(InvalidInClause)
    else
      var vs := c.value.items;
      if |vs| == 0 || |vs| > IN_MAX then Err(InvalidInClause)
      else if exists i | 1 <= i < |vs| :: Recurs(vs, i) then
        assert exists i, j :: 0 <= i < j < |vs| && Eq(vs[j], vs[i]) by {
          var i :| 1 <= i < |vs| && Recurs(vs, i);
          var y :| y in vs[i..] && Eq(y, vs[i - 1]);
          var j :| 0 <= j < |vs| - i && vs[i..][j] == y;
          assert Eq(vs[i + j], vs[i - 1]);
        }
        Err(InvalidInClause)
      else
        assert forall i, j | 0 <= i < j < |vs| :: !Eq(vs[j], vs[i]) by {
          forall i, j | 0 <= i < j < |vs| ensures !Eq(vs[j], vs[i]) {
            if Eq(vs[j], vs[i]) {
              var k := i + 1;
              assert vs[j] == vs[k..][j - k];
              assert vs[j] in vs[k..] && Eq(vs[j], vs[k - 1]);
              assert Recurs(vs, k);
            }
          }
        }
        Ok(vs)
  }
}
