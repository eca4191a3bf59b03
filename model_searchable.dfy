/** The ModelSearchable trait's scopes as methods that append to a query builder in place,
    each proved to add exactly what the matching Searchable function says. `when($value, ...)`
    is the `if IsTruthy(value)` at the head of each scope, and `whereHas` runs its callback
    on a fresh builder over the related model. */
module ModelSearchable {
  import opened PhpValues
  import opened PhpStrings
  import opened Query
  import opened Searchable

  method ScopeWhenWhere(query: Builder, field: string, operator: Value, value: Value)
    modifies query
    ensures query.clauses == old(query.clauses) + WhenWhere(field, operator, value)
  {
    if IsTruthy(value) {
      query.Add(Where(field, operator, value));
    }
  }

  method ScopeWhenWhereIn(query: Builder, attribute: string, values: Value)
    modifies query
    ensures query.clauses == old(query.clauses) + WhenWhereIn(attribute, values)
    decreases |attribute|
  {
    if IsTruthy(values) {
      var nested := ExplodeLimit2(attribute);
      if !EmptyAt(nested, 1) {
        var related := new Builder();
        ScopeWhenWhereIn(related, nested[1], values);
        assert related.clauses == WhenWhereIn(nested[1], values);
        query.Add(Has(nested[0], related.clauses));
      } else {
        query.Add(WhereIn(nested[0], values));
      }
    }
  }

  method ScopeWhereDateBetween(query: Builder, attribute: string, from: Value, to: Value)
    modifies query
    ensures query.clauses == old(query.clauses) + WhereDateBetween(attribute, from, to)
  {
    if IsTruthy(from) {
      query.Add(WhereDate(attribute, ">=", from));
    }
    if IsTruthy(to) {
      query.Add(WhereDate(attribute, "<=", to));
    }
  }

  method ScopeSearch(query: Builder, attribute: string, value: Value)
    modifies query
    ensures query.clauses == old(query.clauses) + Search(attribute, value)
    decreases |attribute|
  {
    if IsTruthy(value) {
      var nested := ExplodeLimit2(attribute);
      if !EmptyAt(nested, 1) {
        var related := new Builder();
        ScopeSearch(related, nested[1], value);
        assert related.clauses == Search(nested[1], value);
        query.Add(Has(nested[0], related.clauses));
      } else {
        query.Add(Like(nested[0], LikePattern(value)));
      }
    }
  }

  /** One `orWhere` callback of scopeScout: scopeSearch run on the fresh builder the callback
      receives, giving that disjunct's clauses. */
  method SearchDisjunct(attribute: string, value: Value) returns (clauses: seq<Clause>)
    ensures clauses == Search(attribute, value)
  {
    var disjunct := new Builder();
    ScopeSearch(disjunct, attribute, value);
    clauses := disjunct.clauses;
  }

  /** The closure scopeScout hands to `where`: for each attribute in turn, an `orWhere` whose
      callback runs scopeSearch on a fresh builder. */
  method ScoutGroup(attributes: seq<string>, value: Value) returns (group: Clause)
    ensures group.Group? && |group.disjuncts| == |attributes|
    ensures forall j :: 0 <= j < |attributes| ==> group.disjuncts[j] == Search(attributes[j], value)
  {
    var disjuncts: seq<seq<Clause>> := [];
    for i := 0 to |attributes|
      invariant disjuncts == Disjuncts(attributes[..i], value)
    {
      var clauses := SearchDisjunct(attributes[i], value);
      DisjunctsPrefix(attributes, i, value);
      disjuncts := disjuncts + [clauses];
    }
    assert attributes[..|attributes|] == attributes;
    group := Group(disjuncts);
  }

  method ScopeScout(query: Builder, attributes: seq<string>, value: Value)
    modifies query
    ensures query.clauses == old(query.clauses) + Scout(attributes, value)
  {
    if IsTruthy(value) {
      var group := ScoutGroup(attributes, value);
      assert group.disjuncts == Disjuncts(attributes, value);
      query.Add(group);
    }
  }

  method ScopeOrder(query: Builder, order: string, direction: Value)
    modifies query
    ensures query.clauses == old(query.clauses) + Order(order, direction)
  {
    if IsTruthy(Str(order)) && (LooseEqualsWord(direction, "desc") || LooseEqualsWord(direction, "asc")) {
      var nested := ExplodeLimit2(order);
      if !EmptyAt(nested, 1) {
        var subquery := NestedSelect(order);
        query.Add(OrderBySubquery(subquery, Interpolate(direction)));
      } else {
        query.Add(OrderBy(order, direction));
      }
    }
  }

  /** With a falsy driving value, applying the guarded scopes, each of them twice, leaves the
      query as it was. */
  method FalsyValueAppliedTwice(query: Builder, field: string, operator: Value, attribute: string,
                                attributes: seq<string>, value: Value)
    requires !IsTruthy(value)
    modifies query
    ensures query.clauses == old(query.clauses)
  {
    ScopeWhenWhere(query, field, operator, value);
    ScopeWhenWhere(query, field, operator, value);
    ScopeWhenWhereIn(query, attribute, value);
    ScopeWhenWhereIn(query, attribute, value);
    ScopeSearch(query, attribute, value);
    ScopeSearch(query, attribute, value);
    ScopeScout(query, attributes, value);
    ScopeScout(query, attributes, value);
  }
}
