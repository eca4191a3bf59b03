/** What each scope of the ModelSearchable trait adds to a query, as functions of the scope's
    arguments, and what those additions are in terms of the segments of a dot path. */
module Searchable {
  import opened PhpValues
  import opened PhpStrings
  import opened Query

  /** The LIKE pattern `"%$value%"`: the value's text between two '%' wildcards. */
  function LikePattern(value: Value): (p: string)
    ensures |p| >= 2 && p[0] == '%' && p[|p| - 1] == '%'
    ensures p[1..|p| - 1] == Interpolate(value)
  {
    "%" + Interpolate(value) + "%"
  }

  // ---------------------------------------------------------------------------------------
  // The scopes

  /** scopeWhenWhere: one `where(field, operator, value)` when `value` is truthy. */
  function WhenWhere(field: string, operator: Value, value: Value): (r: seq<Clause>)
    ensures r != [] <==> IsTruthy(value)
    ensures IsTruthy(value) ==> r == [Where(field, operator, value)]
  {
    if IsTruthy(value) then [Where(field, operator, value)] else []
  }

  /** scopeWhenWhereIn: with truthy `values`, a `whereIn` on the attribute, or a `whereHas` on
      the first segment whose subquery gets the same scope on the remainder. */
  function WhenWhereIn(attribute: string, values: Value): (r: seq<Clause>)
    ensures |r| <= 1
    ensures r != [] <==> IsTruthy(values)
    decreases |attribute|
  {
    if !IsTruthy(values) then []
    else
      var nested := ExplodeLimit2(attribute);
      if !EmptyAt(nested, 1) then [Has(nested[0], WhenWhereIn(nested[1], values))]
      else [WhereIn(nested[0], values)]
  }

  /** scopeWhereDateBetween: a lower bound when `from` is truthy, then an upper bound when
      `to` is truthy, independently of each other. */
  function WhereDateBetween(attribute: string, from: Value, to: Value): (r: seq<Clause>)
    ensures |r| == (if IsTruthy(from) then 1 else 0) + (if IsTruthy(to) then 1 else 0)
    ensures WhereDate(attribute, ">=", from) in r <==> IsTruthy(from)
    ensures WhereDate(attribute, "<=", to) in r <==> IsTruthy(to)
    ensures IsTruthy(from) ==> r[0] == WhereDate(attribute, ">=", from)
    ensures IsTruthy(to) ==> r[|r| - 1] == WhereDate(attribute, "<=", to)
  {
    (if IsTruthy(from) then [WhereDate(attribute, ">=", from)] else [])
    + (if IsTruthy(to) then [WhereDate(attribute, "<=", to)] else [])
  }

  /** scopeSearch: like WhenWhereIn, with a LIKE "%value%" condition as the terminal predicate. */
  function Search(attribute: string, value: Value): (r: seq<Clause>)
    ensures |r| <= 1
    ensures r != [] <==> IsTruthy(value)
    decreases |attribute|
  {
    if !IsTruthy(value) then []
    else
      var nested := ExplodeLimit2(attribute);
      if !EmptyAt(nested, 1) then [Has(nested[0], Search(nested[1], value))]
      else [Like(nested[0], LikePattern(value))]
  }

  /** scopeScout: with a truthy value, one group holding, for each attribute in order, the
      disjunct that scopeSearch builds for it. */
  function Scout(attributes: seq<string>, value: Value): (r: seq<Clause>)
    ensures |r| <= 1
    ensures r != [] <==> IsTruthy(value)
    ensures IsTruthy(value) ==> r[0].Group? && |r[0].disjuncts| == |attributes|
    ensures IsTruthy(value) ==>
      forall j :: 0 <= j < |attributes| ==> r[0].disjuncts[j] == Search(attributes[j], value)
  {
    if IsTruthy(value) then [Group(Disjuncts(attributes, value))] else []
  }

  /** The `orWhere` disjuncts of scopeScout's group: for each attribute in order, what
      scopeSearch adds to an empty query. */
  function Disjuncts(attributes: seq<string>, value: Value): (ds: seq<seq<Clause>>)
    ensures |ds| == |attributes|
    ensures forall j :: 0 <= j < |attributes| ==> ds[j] == Search(attributes[j], value)
  {
    if attributes == [] then [] else [Search(attributes[0], value)] + Disjuncts(attributes[1..], value)
  }

  /** Appending an attribute appends its disjunct. */
  lemma {:induction false} DisjunctsSnoc(attributes: seq<string>, attribute: string, value: Value)
    ensures Disjuncts(attributes + [attribute], value) == Disjuncts(attributes, value) + [Search(attribute, value)]
  {
    if attributes != [] {
      assert (attributes + [attribute])[1..] == attributes[1..] + [attribute];
      DisjunctsSnoc(attributes[1..], attribute, value);
    }
  }

  /** The disjuncts of the first i + 1 attributes extend those of the first i by one. */
  lemma DisjunctsPrefix(attributes: seq<string>, i: nat, value: Value)
    requires i < |attributes|
    ensures Disjuncts(attributes[..i + 1], value) == Disjuncts(attributes[..i], value) + [Search(attributes[i], value)]
  {
    assert attributes[..i + 1] == attributes[..i] + [attributes[i]];
    DisjunctsSnoc(attributes[..i], attributes[i], value);
  }

  /** scopeNestedSelect: a correlated subquery over the relation named by the first segment;
      it selects the remainder as a column unless the remainder's second segment is
      non-empty, in which case it selects the scalar result of the same scope on the remainder.
      Without a dot there is no remainder, and `$nested[1]` reads as null. The subquery is
      over the first segment, and a path with n >= 1 dots nests at most n subqueries. */
  function NestedSelect(select: string): (r: Subquery)
    ensures r.relation == ExplodeLimit2(select)[0]
    ensures r.projection.NullColumn? <==> '.' !in select
    ensures r.projection.Column? ==> r.projection.name == ExplodeLimit2(select)[1]
    ensures '.' in select ==> 1 <= Depth(r) <= DotCount(select)
    decreases |select|
  {
    var nested := ExplodeLimit2(select);
    ExplodeDotCount(select);
    if |nested| == 1 then Correlated(nested[0], NullColumn)
    else if !EmptyAt(Explode(nested[1]), 1) then
      Correlated(nested[0], Scalar(NestedSelect(nested[1])))
    else
      Correlated(nested[0], Column(nested[1]))
  }

  /** The guard of scopeOrder: a truthy order and `in_array($direction, ['desc', 'asc'])`,
      which under loose comparison lets through "desc", "asc" and `true`. */
  predicate OrderRequested(order: string, direction: Value)
    ensures OrderRequested(order, direction) <==>
      IsTruthy(Str(order)) && (direction == Str("asc") || direction == Str("desc") || direction == Bool(true))
  {
    LooseEqualsWordCases(direction, "desc");
    LooseEqualsWordCases(direction, "asc");
    IsTruthy(Str(order)) && (LooseEqualsWord(direction, "desc") || LooseEqualsWord(direction, "asc"))
  }

  /** scopeOrder: when requested, a plain ordering on the whole path when its first dot has
      no non-empty remainder, otherwise an ordering by the nested-select subquery of the path
      followed by the direction's text. */
  function Order(order: string, direction: Value): (r: seq<Clause>)
    ensures |r| <= 1
  {
    if OrderRequested(order, direction) then
      var nested := ExplodeLimit2(order);
      if !EmptyAt(nested, 1) then [OrderBySubquery(NestedSelect(order), Interpolate(direction))]
      else [OrderBy(order, direction)]
    else []
  }

  // ---------------------------------------------------------------------------------------
  // Where a path leads, read off all of its segments at once

  /** Where a dot path leads: the relationships opened in order, outermost first, and the
      attribute the final predicate is on. */
  datatype Target = Target(relations: seq<string>, attribute: string)

  /** The target of a path for WhenWhereIn and Search: every segment but the last names a
      relationship and the last is the attribute, except that a last segment of "" or "0"
      is dropped and the segment before it becomes the attribute. */
  function PathTarget(path: string): (t: Target) {
    SegmentsTarget(Explode(path))
  }

  function SegmentsTarget(segments: seq<string>): (t: Target)
    requires |segments| >= 1
  {
    var n := |segments| - 1;
    if n == 0 then Target([], segments[0])
    else if IsTruthy(Str(segments[n])) then Target(segments[..n], segments[n])
    else Target(segments[..n - 1], segments[n - 1])
  }

  /** Putting a segment in front of segments whose remainder is not "" or "0" puts it in
      front of the relations. */
  lemma SegmentsTargetCons(head: string, tail: seq<string>)
    requires |tail| >= 2 || (|tail| == 1 && IsTruthy(Str(tail[0])))
    ensures SegmentsTarget([head] + tail) ==
      Target([head] + SegmentsTarget(tail).relations, SegmentsTarget(tail).attribute)
  {
    var segments := [head] + tail;
    var n := |tail|;
    assert segments[n] == tail[n - 1];
    if n == 1 {
      assert segments[..1] == [head];
    } else if IsTruthy(Str(tail[n - 1])) {
      assert segments[..n] == [head] + tail[..n - 1];
    } else {
      assert segments[..n - 1] == [head] + tail[..n - 2];
      assert segments[n - 1] == tail[n - 2];
    }
  }

  /** A path that opens no relationship: it has no dot, or one dot followed by "" or "0". */
  predicate OpensNoRelationship(path: string) {
    var segments := Explode(path);
    |segments| == 1 || (|segments| == 2 && !IsTruthy(Str(segments[1])))
  }

  /** The recursive scopes' condition `!empty($nested[1])` fails exactly on the paths that open no
      relationship. */
  lemma NoRemainder(path: string)
    ensures EmptyAt(ExplodeLimit2(path), 1) <==> OpensNoRelationship(path)
  {
    if '.' in path {
      var nested := ExplodeLimit2(path);
      var rest := nested[1];
      ExplodeTail(path);
      var tail := Explode(rest);
      assert Explode(path) == [nested[0]] + tail;
      if '.' in rest {
        assert |tail| >= 2;
        assert rest != "" && rest != "0";
      } else {
        assert tail == [rest];
      }
    }
  }

  lemma PathTargetNoRemainder(path: string)
    requires EmptyAt(ExplodeLimit2(path), 1)
    ensures PathTarget(path) == Target([], ExplodeLimit2(path)[0])
  {
    NoRemainder(path);
    if '.' in path {
      ExplodeTail(path);
    }
  }

  lemma PathTargetStep(path: string)
    requires !EmptyAt(ExplodeLimit2(path), 1)
    ensures var nested := ExplodeLimit2(path); var inner := PathTarget(nested[1]);
      PathTarget(path) == Target([nested[0]] + inner.relations, inner.attribute)
  {
    var nested := ExplodeLimit2(path);
    ExplodeTail(path);
    var tail := Explode(nested[1]);
    SegmentsTargetCons(nested[0], tail);
  }

  lemma SegmentsTargetDirect(segments: seq<string>)
    requires |segments| >= 1
    ensures SegmentsTarget(segments).relations == [] <==>
      |segments| == 1 || (|segments| == 2 && !IsTruthy(Str(segments[1])))
    ensures SegmentsTarget(segments).relations == [] ==> SegmentsTarget(segments).attribute == segments[0]
  {
    var n := |segments| - 1;
    if n >= 2 {
      assert |segments[..n - 1]| == n - 1;
    }
  }

  /** Relationships are opened exactly when the path opens one. */
  lemma PathTargetDirect(path: string)
    ensures PathTarget(path).relations == [] <==> OpensNoRelationship(path)
    ensures PathTarget(path).relations == [] ==> PathTarget(path).attribute == Explode(path)[0]
  {
    SegmentsTargetDirect(Explode(path));
  }

  /** With a non-empty last segment, a path of n dots opens n relationships named by its
      first n segments, and the last segment is the attribute. */
  lemma PathTargetAllRelations(path: string)
    requires IsTruthy(Str(Explode(path)[DotCount(path)]))
    ensures PathTarget(path) == Target(Explode(path)[..DotCount(path)], Explode(path)[DotCount(path)])
  {
  }

  // ---------------------------------------------------------------------------------------
  // WhenWhereIn and Search follow the path

  lemma {:induction false} WhenWhereInFollowsPath(attribute: string, values: Value)
    requires IsTruthy(values)
    ensures var t := PathTarget(attribute);
      WhenWhereIn(attribute, values) == [Nest(t.relations, WhereIn(t.attribute, values))]
    decreases |attribute|
  {
    var nested := ExplodeLimit2(attribute);
    if EmptyAt(nested, 1) {
      PathTargetNoRemainder(attribute);
    } else {
      WhenWhereInFollowsPath(nested[1], values);
      PathTargetStep(attribute);
    }
  }

  lemma {:induction false} SearchFollowsPath(attribute: string, value: Value)
    requires IsTruthy(value)
    ensures var t := PathTarget(attribute);
      Search(attribute, value) == [Nest(t.relations, Like(t.attribute, LikePattern(value)))]
    decreases |attribute|
  {
    var nested := ExplodeLimit2(attribute);
    if EmptyAt(nested, 1) {
      PathTargetNoRemainder(attribute);
    } else {
      SearchFollowsPath(nested[1], value);
      PathTargetStep(attribute);
    }
  }

  /** A path that opens no relationship gets exactly one `whereIn` on its first segment and no
      `whereHas`; any other path gets a `whereHas`. */
  lemma WhenWhereInDirect(attribute: string, values: Value)
    requires IsTruthy(values)
    ensures !WhenWhereIn(attribute, values)[0].Has? <==> OpensNoRelationship(attribute)
    ensures OpensNoRelationship(attribute) ==>
      WhenWhereIn(attribute, values) == [WhereIn(Explode(attribute)[0], values)]
  {
    WhenWhereInFollowsPath(attribute, values);
    PathTargetDirect(attribute);
  }

  /** A path that opens no relationship gets exactly one LIKE on its first segment and no
      `whereHas`; any other path gets a `whereHas`. */
  lemma SearchDirect(attribute: string, value: Value)
    requires IsTruthy(value)
    ensures !Search(attribute, value)[0].Has? <==> OpensNoRelationship(attribute)
    ensures OpensNoRelationship(attribute) ==>
      Search(attribute, value) == [Like(Explode(attribute)[0], LikePattern(value))]
  {
    SearchFollowsPath(attribute, value);
    PathTargetDirect(attribute);
  }

  /** With a non-empty last segment, n dots give n nested `whereHas` over the first n segments
      in order, innermost the `whereIn` on the last segment. */
  lemma WhenWhereInNesting(attribute: string, values: Value)
    requires IsTruthy(values)
    requires IsTruthy(Str(Explode(attribute)[DotCount(attribute)]))
    ensures var segments := Explode(attribute); var n := DotCount(attribute);
      WhenWhereIn(attribute, values) == [Nest(segments[..n], WhereIn(segments[n], values))]
      && HasDepth(WhenWhereIn(attribute, values)[0]) == n
  {
    WhenWhereInFollowsPath(attribute, values);
    PathTargetAllRelations(attribute);
  }

  /** With a non-empty last segment, n dots give n nested `whereHas` over the first n segments
      in order, innermost the LIKE on the last segment. */
  lemma SearchNesting(attribute: string, value: Value)
    requires IsTruthy(value)
    requires IsTruthy(Str(Explode(attribute)[DotCount(attribute)]))
    ensures var segments := Explode(attribute); var n := DotCount(attribute);
      Search(attribute, value) == [Nest(segments[..n], Like(segments[n], LikePattern(value)))]
      && HasDepth(Search(attribute, value)[0]) == n
  {
    SearchFollowsPath(attribute, value);
    PathTargetAllRelations(attribute);
  }

  // ---------------------------------------------------------------------------------------
  // NestedSelect follows the path

  /** The first index from `i` on whose segment is "" or "0", or the number of segments. */
  function FirstEmptySegment(segments: seq<string>, i: nat): (j: nat)
    requires i <= |segments|
    ensures i <= j <= |segments|
    ensures EmptyAt(segments, j)
    ensures forall k :: i <= k < j ==> !EmptyAt(segments, k)
    decreases |segments| - i
  {
    if EmptyAt(segments, i) then i else FirstEmptySegment(segments, i + 1)
  }

  /** The target of a path for NestedSelect: the relations are the segments before the first
      "" or "0" segment from the third one on, less one; the rest of the path, dots included,
      is the selected column. */
  function SelectTarget(select: string): (t: Target)
    requires '.' in select
  {
    SegmentsSelectTarget(Explode(select))
  }

  function SegmentsSelectTarget(segments: seq<string>): (t: Target)
    requires |segments| >= 2
  {
    var j := FirstEmptySegment(segments, 2);
    Target(segments[..j - 1], Implode(segments[j - 1..]))
  }

  lemma {:induction false} FirstEmptySegmentShift(segments: seq<string>, i: nat)
    requires 1 <= i <= |segments|
    ensures FirstEmptySegment(segments[1..], i - 1) == FirstEmptySegment(segments, i) - 1
    decreases |segments| - i
  {
    if !EmptyAt(segments, i) {
      assert !EmptyAt(segments[1..], i - 1);
      FirstEmptySegmentShift(segments, i + 1);
    }
  }

  /** A segment in front of segments whose second one is not "" or "0" goes in front of the
      relations. */
  lemma SegmentsSelectTargetCons(head: string, tail: seq<string>)
    requires |tail| >= 2 && !EmptyAt(tail, 1)
    ensures SegmentsSelectTarget([head] + tail) ==
      Target([head] + SegmentsSelectTarget(tail).relations, SegmentsSelectTarget(tail).attribute)
  {
    var segments := [head] + tail;
    assert segments[1..] == tail;
    var j := FirstEmptySegment(segments, 2);
    assert !EmptyAt(segments, 2);
    FirstEmptySegmentShift(segments, 3);
    assert FirstEmptySegment(tail, 2) == j - 1;
    assert segments[..j - 1] == [head] + tail[..j - 2];
    assert tail[j - 2..] == segments[j - 1..];
  }

  /** A segment in front of segments whose second one is "" or "0", or missing, is the only
      relation; the segments after it make up the column. */
  lemma SegmentsSelectTargetStop(head: string, tail: seq<string>)
    requires |tail| >= 1 && EmptyAt(tail, 1)
    ensures SegmentsSelectTarget([head] + tail) == Target([head], Implode(tail))
  {
    var segments := [head] + tail;
    assert EmptyAt(segments, 2);
    assert segments[1..] == tail;
  }

  lemma {:induction false} NestedSelectFollowsPath(select: string)
    requires '.' in select
    ensures NestedSelect(select) == Chain(SelectTarget(select).relations, SelectTarget(select).attribute)
    decreases |select|
  {
    var nested := ExplodeLimit2(select);
    var rest := nested[1];
    ExplodeTail(select);
    var tail := Explode(rest);
    if !EmptyAt(tail, 1) {
      NestedSelectFollowsPath(rest);
      SegmentsSelectTargetCons(nested[0], tail);
    } else {
      SegmentsSelectTargetStop(nested[0], tail);
    }
  }

  /** NestedSelect recurses exactly when the path's third segment exists and is neither ""
      nor "0". */
  lemma NestedSelectRecursion(select: string)
    requires '.' in select
    ensures NestedSelect(select).projection.Scalar? <==> !EmptyAt(Explode(select), 2)
    ensures NestedSelect(select).relation == Explode(select)[0]
  {
    ExplodeTail(select);
  }

  /** With no "" or "0" segment from the third on, every segment but the last is a relation. */
  lemma SegmentsSelectTargetAll(segments: seq<string>)
    requires |segments| >= 2
    requires forall k :: 2 <= k < |segments| ==> IsTruthy(Str(segments[k]))
    ensures SegmentsSelectTarget(segments) == Target(segments[..|segments| - 1], segments[|segments| - 1])
  {
    var k := |segments|;
    assert FirstEmptySegment(segments, 2) == k by {
      assert EmptyAt(segments, FirstEmptySegment(segments, 2));
    }
    assert segments[k - 1..] == [segments[k - 1]];
  }

  /** When no segment after the second is "" or "0", a path of n dots gives n nested
      subqueries over its first n segments, the innermost selecting the last segment. */
  lemma NestedSelectDepth(select: string)
    requires '.' in select
    requires forall k :: 2 <= k < |Explode(select)| ==> IsTruthy(Str(Explode(select)[k]))
    ensures NestedSelect(select) == Chain(Explode(select)[..DotCount(select)], Explode(select)[DotCount(select)])
    ensures Depth(NestedSelect(select)) == DotCount(select)
  {
    var segments := Explode(select);
    var n := DotCount(select);
    assert |segments| - 1 == n;
    var t := Target(segments[..n], segments[n]);
    assert SelectTarget(select) == t by { SegmentsSelectTargetAll(segments); }
    NestedSelectFollowsPath(select);
  }

  // ---------------------------------------------------------------------------------------
  // Order

  /** The guard lets through a truthy order with direction "asc" or "desc", exactly; the
      loose comparison inside `in_array` also lets through `true`. */
  lemma OrderGuard(order: string, direction: Value)
    ensures Order(order, direction) != [] <==> OrderRequested(order, direction)
    ensures OrderRequested(order, direction) <==>
      IsTruthy(Str(order)) && (direction == Str("asc") || direction == Str("desc") || direction == Bool(true))
  {
    LooseEqualsWordCases(direction, "desc");
    LooseEqualsWordCases(direction, "asc");
  }

  /** Once requested, a path that opens no relationship is ordered on directly; any other path
      is ordered by its nested-select subquery. This is the body of Order with its condition
      `!empty($nested[1])` read through NoRemainder; a step for the lemmas below. */
  lemma OrderDispatch(order: string, direction: Value)
    requires OrderRequested(order, direction)
    ensures OpensNoRelationship(order) ==> Order(order, direction) == [OrderBy(order, direction)]
    ensures !OpensNoRelationship(order) ==>
      '.' in order && Order(order, direction) == [OrderBySubquery(NestedSelect(order), Interpolate(direction))]
  {
    NoRemainder(order);
  }

  // ---------------------------------------------------------------------------------------
  // Worked examples

  /** Searching "name" for "x" is a LIKE on name. */
  lemma SearchExampleDirect()
    ensures Search("name", Str("x")) == [Like("name", "%x%")]
  {
    assert LikePattern(Str("x")) == "%x%";
    assert '.' !in "name";
    assert ExplodeLimit2("name") == ["name"];
  }

  /** Searching "relation.column" asks for a related row whose column matches. */
  lemma SearchOneRelation(relation: string, column: string, value: Value)
    requires '.' !in relation && '.' !in column && IsTruthy(Str(column)) && IsTruthy(value)
    ensures Search(relation + "." + column, value) == [Has(relation, [Like(column, LikePattern(value))])]
  {
    ExplodeLimit2Of(relation, column);
    assert ExplodeLimit2(column) == [column];
  }

  /** Searching "profile.bio" for "x" asks for a profile whose bio is LIKE %x%. */
  lemma SearchExampleNested()
    ensures Search("profile.bio", Str("x")) == [Has("profile", [Like("bio", "%x%")])]
  {
    assert "profile" + "." + "bio" == "profile.bio";
    assert '.' !in "profile" && '.' !in "bio" && "bio" != "0";
    SearchOneRelation("profile", "bio", Str("x"));
    assert LikePattern(Str("x")) == "%x%";
  }

  /** Searching "name" and "profile.bio" for "x" gives one group: name LIKE %x% OR a profile
      whose bio is LIKE %x%. */
  lemma ScoutExample()
    ensures Scout(["name", "profile.bio"], Str("x")) ==
      [Group([[Like("name", "%x%")], [Has("profile", [Like("bio", "%x%")])]])]
  {
    var x := Str("x");
    SearchExampleDirect();
    SearchExampleNested();
    var ds := Disjuncts(["name", "profile.bio"], x);
    assert ds[0] == [Like("name", "%x%")];
    assert ds[1] == [Has("profile", [Like("bio", "%x%")])];
    assert ds == [[Like("name", "%x%")], [Has("profile", [Like("bio", "%x%")])]];
  }

  /** One step of scopeNestedSelect on "head.rest", head holding no dot: the body of
      NestedSelect once the split has been shown to give back head and rest. A proof helper
      for the examples below. */
  lemma NestedSelectOf(head: string, rest: string)
    requires '.' !in head
    ensures NestedSelect(head + "." + rest) ==
      if !EmptyAt(Explode(rest), 1) then Correlated(head, Scalar(NestedSelect(rest)))
      else Correlated(head, Column(rest))
  {
    ExplodeLimit2Of(head, rest);
  }

  /** A path without a dot selects the null column of the relation it names. */
  lemma NestedSelectDotless(select: string)
    requires '.' !in select
    ensures NestedSelect(select) == Correlated(select, NullColumn)
  {
  }

  /** "outer.inner.column" selects, through outer, the scalar result of selecting column
      through inner. */
  lemma NestedSelectTwoRelations(outer: string, inner: string, column: string)
    requires '.' !in outer && '.' !in inner && '.' !in column && IsTruthy(Str(column))
    ensures NestedSelect(outer + "." + inner + "." + column) ==
      Correlated(outer, Scalar(Correlated(inner, Column(column))))
  {
    var rest := inner + "." + column;
    JoinAssociates(outer, inner, column);
    assert NestedSelect(rest) == Correlated(inner, Column(column)) by {
      DotFreeImplode(column);
      NestedSelectOf(inner, column);
    }
    assert !EmptyAt(Explode(rest), 1) by {
      ExplodeImplode([inner, column]);
      assert Implode([inner, column]) == rest;
    }
    assert NestedSelect(outer + "." + rest) == Correlated(outer, Scalar(NestedSelect(rest))) by {
      NestedSelectOf(outer, rest);
    }
  }

  lemma NestedSelectExample()
    ensures NestedSelect("author.profile.rank") ==
      Correlated("author", Scalar(Correlated("profile", Column("rank"))))
  {
    assert "author" + "." + "profile" + "." + "rank" == "author.profile.rank";
    assert '.' !in "author" && '.' !in "profile" && '.' !in "rank" && "rank" != "0";
    NestedSelectTwoRelations("author", "profile", "rank");
  }

  /** Ordering by "head.rest" in an accepted direction, head holding no dot and rest being
      neither "" nor "0", orders by the nested-select subquery of the whole path. */
  lemma OrderNested(head: string, rest: string, direction: Value)
    requires '.' !in head && IsTruthy(Str(rest))
    requires direction == Str("asc") || direction == Str("desc")
    ensures Order(head + "." + rest, direction) ==
      [OrderBySubquery(NestedSelect(head + "." + rest), direction.s)]
  {
    var order := head + "." + rest;
    ExplodeLimit2Of(head, rest);
    assert OrderRequested(order, direction) by {
      assert order[|head|] == '.';
      OrderGuard(order, direction);
    }
  }

  /** Ordering by "outer.inner.column" in an accepted direction orders by the two-level
      subquery that selects column. */
  lemma OrderTwoRelations(outer: string, inner: string, column: string, direction: Value)
    requires '.' !in outer && '.' !in inner && '.' !in column && IsTruthy(Str(column))
    requires direction == Str("asc") || direction == Str("desc")
    ensures Order(outer + "." + inner + "." + column, direction) ==
      [OrderBySubquery(Correlated(outer, Scalar(Correlated(inner, Column(column)))), direction.s)]
  {
    var rest := inner + "." + column;
    assert outer + "." + inner + "." + column == outer + "." + rest;
    assert IsTruthy(Str(rest)) by { assert rest[|inner|] == '.'; }
    OrderNested(outer, rest, direction);
    NestedSelectTwoRelations(outer, inner, column);
  }

  /** Ordering by "author.profile.rank" ascending orders by a subquery over author that selects
      a subquery over profile that selects rank. */
  lemma OrderExampleNested()
    ensures Order("author.profile.rank", Str("asc")) ==
      [OrderBySubquery(Correlated("author", Scalar(Correlated("profile", Column("rank")))), "asc")]
  {
    assert "author" + "." + "profile" + "." + "rank" == "author.profile.rank";
    assert '.' !in "author" && '.' !in "profile" && '.' !in "rank" && "rank" != "0";
    OrderTwoRelations("author", "profile", "rank", Str("asc"));
  }

  /** Ordering by a dot-free column in an accepted direction orders on the column directly. */
  lemma OrderDirect(column: string, direction: Value)
    requires '.' !in column && IsTruthy(Str(column))
    requires direction == Str("asc") || direction == Str("desc")
    ensures Order(column, direction) == [OrderBy(column, direction)]
  {
    assert OrderRequested(column, direction) by { OrderGuard(column, direction); }
    assert EmptyAt(ExplodeLimit2(column), 1);
  }

  /** Ordering by "created_at" descending orders on the column directly. */
  lemma OrderExampleDirect()
    ensures Order("created_at", Str("desc")) == [OrderBy("created_at", Str("desc"))]
  {
    assert '.' !in "created_at" && "created_at" != "0";
    OrderDirect("created_at", Str("desc"));
  }
}
