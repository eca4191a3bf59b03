# ModelSearchable scopes in Dafny

A model of the `ModelSearchable` trait, a set of Laravel Eloquent query scopes. Each scope
adds conditions to a query and is guarded by the truthiness of a driving value (Laravel's
`when`). Several of them also follow a dot path through relationships:

- `scopeWhenWhere`: adds one `where` condition.
- `scopeWhenWhereIn` and `scopeSearch`: add a `whereIn` or a `LIKE "%value%"` condition. They
  split the attribute at its first dot with `explode('.', $attribute, 2)`. While the remainder
  is not PHP-`empty`, they open a `whereHas` on the first segment and recurse into it.
- `scopeWhereDateBetween`: adds a lower and an upper `whereDate` bound, independently of each
  other.
- `scopeScout`: adds one parenthesised group that ORs together one `scopeSearch` per attribute.
- `scopeNestedSelect`: builds a chain of correlated subqueries from a dot path. The innermost
  subquery selects the rest of the path as a column.
- `scopeOrder`: orders by a plain column, or by the nested-select subquery when the path opens
  a relationship. It applies only when the order is truthy and the direction passes
  `in_array($direction, ['desc', 'asc'])`.

Layout:

- `php_values.dfy` (`PhpValues`): the PHP values a driving argument can take, and three PHP
  rules over them:
  - truthiness;
  - interpolation into a double-quoted string;
  - PHP 8's loose `==` against a word, which `in_array` uses.
- `php_strings.dfy` (`PhpStrings`): `explode('.', s, 2)`, full `explode('.', s)` with its
  inverse `implode`, and `empty($parts[$k])`.
- `query.dfy` (`Query`): the query builder, reduced to the clauses the scopes add.
  - A `Builder` class appends clauses in place.
  - A `Has` clause holds the constraints of a `whereHas` subquery.
  - A `Group` clause holds the `orWhere` disjuncts of one parenthesised group.
  - A `Subquery` is the correlated existence query `scopeNestedSelect` builds. It selects a
    `Column`, the `NullColumn`, or the `Scalar` result of a further subquery.
- `searchable.dfy` (`Searchable`): each scope as a pure function of its arguments. Beside them
  are two reference definitions:
  - `PathTarget`: for the `whereHas` scopes, the relationships opened and the final attribute,
    read off all segments of the path at once.
  - `SelectTarget`: the same for nested select.

  Lemmas prove the recursive scopes equal to the reference definitions. Further lemmas cover
  the guard and dispatch of `scopeOrder`, plus worked examples.
- `model_searchable.dfy` (`ModelSearchable`): the scopes as methods that append to a `Builder`
  in place. Each method is proved to append exactly what its `Searchable` function gives.
  `whereHas` and `orWhere` callbacks get a fresh builder. `scopeScout`'s loop over the
  attributes is a `for` loop.

Behaviour of the code worth noting, which the model follows:

- `scopeOrder` orders directly whenever the remainder after the first dot is `""` or `"0"`,
  not only when the path has no dot. For example, `"a."` is ordered on as the column `"a."`.
- `scopeNestedSelect` recurses only when the second segment of the remainder is non-empty.
  The condition is not whether the remainder holds a dot: for `"a.b."`, the code selects the
  column `"b."`.
- A direction of `true` passes `in_array` under loose comparison, so the order guard accepts
  it along with `"asc"` and `"desc"`.
- For an empty attribute list, `scopeScout` still calls `where` with a closure, which is
  modelled as an empty group. Laravel then drops a nested `where` that holds no condition,
  which is not modelled.

## Model

| member | source | states |
|---|---|---|
| `PhpValues.IsTruthy` | ModelSearchable.php:30 | `when` withholds its callback exactly for PHP's falsy values: null, false, 0, "", "0" and the empty array |
| `PhpValues.NatToString` | ModelSearchable.php:89 | the decimal text of a natural number is digits only, has no leading zero, and denotes the number |
| `PhpValues.IntToString` | ModelSearchable.php:89 | the decimal text of an integer starts with '-' exactly when it is negative; every other character is a digit, the magnitude has no leading zero, and it denotes the integer's magnitude |
| `PhpValues.Interpolate` | ModelSearchable.php:89 | `"$value"` is empty exactly for null, false and ""; a string is substituted unchanged, an integer as its decimal text, `true` as "1" |
| `PhpValues.LooseEqualsWordCases` | ModelSearchable.php:143 | characterises `LooseEqualsWord`, the model of PHP 8's loose `==` that `in_array` applies: a value equals a lower-case word exactly when it is that string or `true` |
| `PhpStrings.ExplodeLimit2` | ModelSearchable.php:44 | `explode('.', s, 2)` gives one part, equal to `s`, exactly when `s` has no dot; otherwise a dot-free head and a rest, with `s == head + "." + rest` |
| `PhpStrings.ExplodeLimit2Of` | ModelSearchable.php:81 | splitting `a + "." + b` with `a` dot-free gives back exactly `[a, b]` |
| `PhpStrings.Explode` | ModelSearchable.php:126 | `explode('.', s)` gives one more segment than `s` has dots; every segment is dot-free and they implode back to `s` |
| `PhpStrings.EmptyAt` | ModelSearchable.php:46 | `empty($parts[$k])` holds exactly when the key is unset or the segment is "" or "0" |
| `PhpStrings.ExplodeImplode` | ModelSearchable.php:126 | round trip: exploding the implode of dot-free segments gives back the segments |
| `Query.Nest` | ModelSearchable.php:47-49 | wrapping a predicate in one `whereHas` per relation gives a chain as deep as the relation list, headed by its first relation |
| `Query.Chain` | ModelSearchable.php:126-129 | one correlated subquery per relation gives a chain as deep as the relation list, headed by its first relation |
| `Query.Builder.constructor` | ModelSearchable.php:47 | the query a `whereHas` callback receives starts with no clauses |
| `Query.Builder.Add` | ModelSearchable.php:31 | a builder call appends its clause after those already there and changes nothing else |
| `Searchable.WhenWhere` | ModelSearchable.php:28-33 | a condition is added exactly when the value is truthy, and it is `where(field, operator, value)` |
| `Searchable.WhenWhereIn` | ModelSearchable.php:41-54 | at most one clause is added, and one is added exactly when the values are truthy |
| `Searchable.LikePattern` | ModelSearchable.php:89 | the pattern is the value's interpolated text between a leading and a trailing '%' |
| `Searchable.WhereDateBetween` | ModelSearchable.php:63-70 | one clause per truthy bound and no other: each bound is present exactly when its own value is truthy, the lower bound first and the upper bound last |
| `Searchable.Search` | ModelSearchable.php:78-91 | at most one clause is added, and one is added exactly when the value is truthy |
| `Searchable.Scout` | ModelSearchable.php:99-110 | one clause is added exactly when the value is truthy; it is a group with one disjunct per attribute, in order, the j-th being what `scopeSearch` builds for the j-th attribute |
| `Searchable.Disjuncts` | ModelSearchable.php:102-107 | the group has one disjunct per attribute, in order, each being what `scopeSearch` builds for that attribute |
| `Searchable.NestedSelect` | ModelSearchable.php:117-133 | the outer subquery is over the first segment; it selects the null column exactly for a dotless path, otherwise the remainder when it selects a column; a path with n >= 1 dots nests between 1 and n subqueries |
| `Searchable.OrderRequested` | ModelSearchable.php:143 | the guard holds exactly when the order is truthy and the direction is "asc", "desc" or `true` |
| `Searchable.Order` | ModelSearchable.php:141-154 | at most one ordering clause is added |
| `Searchable.NoRemainder` | ModelSearchable.php:46 | `empty($nested[1])` holds exactly when the path has no dot, or one dot followed by "" or "0" |
| `Searchable.PathTargetDirect` | ModelSearchable.php:44-52 | a path opens no relationship exactly when the condition at line 46 fails; the attribute is then its first segment |
| `Searchable.PathTargetAllRelations` | ModelSearchable.php:44-49 | with a non-empty last segment, every segment but the last names a relationship, and the last is the attribute |
| `Searchable.WhenWhereInFollowsPath` | ModelSearchable.php:43-53 | for truthy values, the result is the `whereIn` on the path's attribute, nested in one `whereHas` per relationship the path opens, in path order |
| `Searchable.SearchFollowsPath` | ModelSearchable.php:80-90 | for a truthy value, the result is the LIKE on the path's attribute, nested in one `whereHas` per relationship the path opens, in path order |
| `Searchable.WhenWhereInDirect` | ModelSearchable.php:46-52 | no `whereHas` is opened exactly when the path opens no relationship; the `whereIn` is then on the first segment |
| `Searchable.SearchDirect` | ModelSearchable.php:83-89 | no `whereHas` is opened exactly when the path opens no relationship; the LIKE is then on the first segment |
| `Searchable.WhenWhereInNesting` | ModelSearchable.php:44-49 | with a non-empty last segment, a path of n dots opens exactly n nested `whereHas`, one per leading segment, around a `whereIn` on the last segment |
| `Searchable.SearchNesting` | ModelSearchable.php:81-86 | with a non-empty last segment, a path of n dots opens exactly n nested `whereHas`, one per leading segment, around a LIKE on the last segment |
| `Searchable.NestedSelectFollowsPath` | ModelSearchable.php:117-133 | nested select is the chain of correlated subqueries over the relations the path names, the innermost selecting the rest of the path |
| `Searchable.NestedSelectRecursion` | ModelSearchable.php:126-132 | the first subquery is over the first segment, and it selects a further subquery exactly when the third segment exists and is neither "" nor "0" |
| `Searchable.NestedSelectDepth` | ModelSearchable.php:126-129 | with no "" or "0" segment from the third on, a path of n dots gives exactly n nested subqueries over its first n segments, the innermost selecting the last one |
| `Searchable.NestedSelectOf` | ModelSearchable.php:119-132 | one step on "head.rest": a subquery over head selecting either the nested select of rest or the column rest, by the condition at line 126 |
| `Searchable.NestedSelectDotless` | ModelSearchable.php:126-132 | a path without a dot selects the unset `$nested[1]`, the null column, of the relation it names |
| `Searchable.OrderGuard` | ModelSearchable.php:143 | an ordering is added exactly when the guard holds, which is when the order is truthy and the direction is "asc", "desc" or `true` |
| `Searchable.OrderDispatch` | ModelSearchable.php:144-152 | once the guard holds, a path that opens no relationship is ordered on directly; any other path is ordered by its nested-select subquery followed by the direction |
| `Searchable.OrderDirect` | ModelSearchable.php:152 | a truthy dot-free column and "asc" or "desc" give `orderBy(column, direction)` |
| `Searchable.OrderNested` | ModelSearchable.php:146-149 | "head.rest" with head dot-free, rest truthy and "asc" or "desc" is ordered by the nested-select subquery of the whole path |
| `Searchable.SearchExampleDirect` | ModelSearchable.php:89 | searching "name" for "x" adds `name LIKE %x%` |
| `Searchable.SearchOneRelation` | ModelSearchable.php:83-89 | searching "relation.column" opens one `whereHas` on relation around a LIKE on column |
| `Searchable.SearchExampleNested` | ModelSearchable.php:83-89 | searching "profile.bio" for "x" asks for a profile whose bio is LIKE %x% |
| `Searchable.ScoutExample` | ModelSearchable.php:101-108 | searching "name" and "profile.bio" for "x" gives one group: name LIKE %x% OR a profile whose bio is LIKE %x% |
| `Searchable.NestedSelectTwoRelations` | ModelSearchable.php:126-129 | "outer.inner.column" selects, through outer, the scalar result of selecting column through inner |
| `Searchable.NestedSelectExample` | ModelSearchable.php:126-132 | "author.profile.rank" gives a subquery over author selecting a subquery over profile selecting rank |
| `Searchable.OrderTwoRelations` | ModelSearchable.php:146-149 | ordering by "outer.inner.column" goes through the two-level subquery selecting column, followed by the direction |
| `Searchable.OrderExampleNested` | ModelSearchable.php:146-149 | ordering by "author.profile.rank" ascending uses the subquery author → profile → rank with "asc" appended |
| `Searchable.OrderExampleDirect` | ModelSearchable.php:152 | ordering by "created_at" descending is a direct `orderBy("created_at", "desc")` |
| `ModelSearchable.ScopeWhenWhere` | ModelSearchable.php:28-33 | the query gains exactly the clauses `WhenWhere` gives, after its existing ones |
| `ModelSearchable.ScopeWhenWhereIn` | ModelSearchable.php:41-54 | the query gains exactly the clauses `WhenWhereIn` gives; the `whereHas` holds what the recursive call put on a fresh query |
| `ModelSearchable.ScopeWhereDateBetween` | ModelSearchable.php:63-70 | the query gains exactly the bounds `WhereDateBetween` gives, lower then upper |
| `ModelSearchable.ScopeSearch` | ModelSearchable.php:78-91 | the query gains exactly the clauses `Search` gives; the `whereHas` holds what the recursive call put on a fresh query |
| `ModelSearchable.SearchDisjunct` | ModelSearchable.php:104-106 | an `orWhere` callback's fresh query ends up holding exactly what `Search` gives for its attribute |
| `ModelSearchable.ScoutGroup` | ModelSearchable.php:102-108 | the loop builds a group with one disjunct per attribute, in order, each being what `scopeSearch` adds to a fresh query |
| `ModelSearchable.ScopeScout` | ModelSearchable.php:99-110 | the query gains exactly the group `Scout` gives |
| `ModelSearchable.ScopeOrder` | ModelSearchable.php:141-154 | the query gains exactly the ordering `Order` gives |
| `ModelSearchable.FalsyValueAppliedTwice` | ModelSearchable.php:28-110 | with a falsy driving value, applying each guarded scope twice leaves the query exactly as it was |

## Left out

- SQL text, parameter bindings and their order: the model keeps the clause structure. The
  SQL that `toSql()` renders and the bindings passed to `selectRaw` and `orderByRaw` are not
  modelled.
- Relationship resolution: `$query->getModel()->{$nested[0]}()` and
  `getRelationExistenceQuery` are represented by the relation's name. The columns that
  correlate the subqueries are not modelled. An unknown relationship name raises an error in
  PHP, and that error is not modelled.
- Floats, objects and closures as driving values. `0.0` is falsy in PHP, and the model has
  no float value.
- A `$field` given to `scopeWhenWhere` as a closure or an array: the field is a string here.
  Laravel's operator-and-value shuffling inside `where` (two-argument form, invalid
  operators) is not modelled either.
- Laravel's own checks inside the builder calls are not modelled. In particular, `orderBy`
  with the direction `true` raises an error in Laravel, while the model records an
  `OrderBy` clause.
- `$order` and the attributes are strings here. A non-string `$order` would be a PHP type
  juggling case.
- The warning PHP raises when an array is interpolated (line 89), or when the unset
  `$nested[1]` is read in `scopeNestedSelect` (line 132): the model gives the values plain
  PHP goes on with, `"Array"` and `NullColumn`. Inside a Laravel application the framework's
  error handler turns such a warning into an `ErrorException`, so that query is not built
  at all. The model does not capture that exception.
- PHP 7 loose comparison, where `0 == 'desc'` holds: the model follows PHP 8.
- LIKE matching, case sensitivity and date parsing: they happen in the database.
- Laravel's dropping of a nested `where` group with no conditions: `Scout` with an empty
  attribute list yields an empty `Group`.
- `Searchable.Order`: its own contract only bounds the number of clauses. Its meaning is
  stated by `OrderGuard` and `OrderDispatch`.
- `PathTargetAllRelations`, `WhenWhereInNesting` and `SearchNesting` require a non-empty last
  segment. Paths with an empty last segment are covered by `WhenWhereInFollowsPath` and
  `SearchFollowsPath` through `PathTarget`.
- `NestedSelectDepth` requires no "" or "0" segment from the third on. Other paths are
  covered by `NestedSelectFollowsPath` through `SelectTarget`.
- Laravel's `when` returning its callback's result. Each callback here either returns the
  builder it was given or returns nothing; the `scopeScout` callback and its `orWhere`
  callback (lines 101-109) return nothing. Either way `when` returns that builder, so only
  the appended clauses are modelled.
- `ScoutGroup`: the group's disjuncts are gathered in a local sequence and added by one
  `Add`. The model does not keep a separate nested builder object for the group.
