/** The Eloquent query builder, reduced to the clauses the scopes add to it. */
module Query {
  import opened PhpValues

  /** One clause a scope adds to a query. `Has` is a relationship-existence condition
      (`whereHas`) holding the constraints of its subquery; `Group` is a parenthesised
      OR of AND-blocks (`where(closure)` filled with `orWhere(closure)` calls). */
  datatype Clause =
    | Where(column: string, operator: Value, value: Value)
    | WhereIn(column: string, values: Value)
    | WhereDate(column: string, comparison: string, date: Value)
    | Like(column: string, pattern: string)
    | Has(relation: string, constraints: seq<Clause>)
    | Group(disjuncts: seq<seq<Clause>>)
    | OrderBy(column: string, direction: Value)
    | OrderBySubquery(subquery: Subquery, rawDirection: string)

  /** A correlated existence subquery over one relationship, selecting a column of the related
      model, the null column that `select(null)` asks for, or the scalar result of a further
      subquery. */
  datatype Subquery = Correlated(relation: string, projection: Projection)

  datatype Projection =
    | Column(name: string)
    | NullColumn
    | Scalar(inner: Subquery)

  /** How many `Has` clauses are nested, each holding a single constraint, from `c` inwards. */
  function HasDepth(c: Clause): (n: nat) {
    match c
    case Has(_, constraints) =>
      if |constraints| == 1 then
        assert constraints[0] in constraints;
        1 + HasDepth(constraints[0])
      else 1
    case _ => 0
  }

  /** `leaf` wrapped in one `Has` per relation, the first relation outermost. */
  function Nest(relations: seq<string>, leaf: Clause): (c: Clause)
    ensures !leaf.Has? ==> HasDepth(c) == |relations|
    ensures relations != [] ==> c.Has? && c.relation == relations[0]
  {
    if relations == [] then leaf else Has(relations[0], [Nest(relations[1..], leaf)])
  }

  /** How many correlated subqueries are nested, from `sub` inwards. */
  function Depth(sub: Subquery): (n: nat) {
    match sub
    case Correlated(_, Scalar(inner)) => 1 + Depth(inner)
    case Correlated(_, _) => 1
  }

  /** One correlated subquery per relation, the first relation outermost; the innermost one
      selects `column`. */
  function Chain(relations: seq<string>, column: string): (sub: Subquery)
    requires |relations| >= 1
    ensures Depth(sub) == |relations|
    ensures sub.relation == relations[0]
  {
    if |relations| == 1 then Correlated(relations[0], Column(column))
    else Correlated(relations[0], Scalar(Chain(relations[1..], column)))
  }

  /** A query under construction: every builder call appends one clause in place. */
  class Builder {
    var clauses: seq<Clause>

    constructor ()
      ensures clauses == []
    {
      clauses := [];
    }

    method Add(c: Clause)
      modifies this
      ensures clauses == old(clauses) + [c]
    {
      clauses := clauses + [c];
    }
  }
}
