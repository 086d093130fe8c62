/** Grouping where clauses into equalities, one range and one in clause: `group_clauses`. */
module Grouping {
  import opened Prelude
  import opened Values
  import opened Conditions

  datatype Groups = Groups(
    equal: map<string, WhereClause>,
    range: Option<WhereClause>,
    inClause: Option<WhereClause>)

  // ---------- The four kinds of clauses ----------

  predicate IsIdentifier(c: WhereClause)
  {
    c.field == "$id"
  }

  predicate IsEquality(c: WhereClause)
  {
    c.operator == Equal && !IsIdentifier(c)
  }

  predicate IsIn(c: WhereClause)
  {
    c.operator == In && !IsIdentifier(c)
  }

  predicate IsLowerBound(c: WhereClause)
  {
    c.operator in {GreaterThan, GreaterThanOrEquals}
  }

  predicate IsUpperBound(c: WhereClause)
  {
    c.operator in {LessThan, LessThanOrEquals}
  }

  predicate IsGroupable(c: WhereClause)
  {
    IsLowerBound(c) || IsUpperBound(c)
  }

  predicate IsNonGroupable(c: WhereClause)
  {
    c.operator in {StartsWith, Between, BetweenExcludeBounds, BetweenExcludeLeft, BetweenExcludeRight}
  }

  // ---------- The grouping ----------

  /** Equalities by field; a repeated field is an error. */
  function EqualClauses(es: seq<WhereClause>, known: map<string, WhereClause>)
    : Result<map<string, WhereClause>, QueryError>
  {
    if es == [] then Ok(known)
    else if es[0].field in known then Err(DuplicateNonGroupableClauseSameField)
    else EqualClauses(es[1..], known[es[0].field := es[0]])
  }

  function InClause(ins: seq<WhereClause>, known: set<string>): Result<Option<WhereClause>, QueryError>
  {
    match |ins|
    case 0 => Ok(None)
    case 1 =>
      if ins[0].field in known then Err(DuplicateNonGroupableClauseSameField) else Ok(Some(ins[0]))
    case _ => Err(MultipleInClauses)
  }

  function BoundClause(cs: seq<WhereClause>, p: WhereClause -> bool): Result<WhereClause, QueryError>
  {
    var bounds := Filter(cs, p);
    match |bounds|
    case 0 => Err(RangeClausesNotGroupable)
    case 1 => Ok(bounds[0])
    case _ => Err(MultipleRangeClauses)
  }

  function BetweenOperator(lower: WhereOperator, upper: WhereOperator): WhereOperator
  {
    match (lower, upper)
    case (GreaterThanOrEquals, LessThanOrEquals) => Between
    case (GreaterThanOrEquals, _) => BetweenExcludeRight
    case (_, LessThanOrEquals) => BetweenExcludeLeft
    case (_, _) => BetweenExcludeBounds
  }

  /** The upper bound is under the lower one, or meets it when neither bound is included. */
  function OutOfOrder(lower: WhereClause, upper: WhereClause): Result<bool, QueryError>
  {
    LessThanValue(upper, lower, BetweenOperator(lower.operator, upper.operator) == BetweenExcludeBounds)
  }

  function TwoBounds(cs: seq<WhereClause>, known: set<string>): Result<Option<WhereClause>, QueryError>
    requires |cs| == 2
  {
    if cs[0].field in known then Err(InvalidWhereClauseComponents)
    else if cs[1].field != cs[0].field then Err(MultipleRangeClauses)
    else
      var lower :- BoundClause(cs, IsLowerBound);
      var upper :- BoundClause(cs, IsUpperBound);
      var outOfOrder :- OutOfOrder(lower, upper);
      if outOfOrder then Err(MultipleRangeClauses)
      else
        Ok(Some(WhereClause(cs[0].field, BetweenOperator(lower.operator, upper.operator),
                            Array([lower.value, upper.value]))))
  }

  function RangeClause(groupable: seq<WhereClause>, nonGroupable: seq<WhereClause>, known: set<string>)
    : Result<Option<WhereClause>, QueryError>
  {
    if nonGroupable == [] then
      match |groupable|
      case 0 => Ok(None)
      case 1 =>
        if groupable[0].field in known then Err(InvalidWhereClauseComponents) else Ok(Some(groupable[0]))
      case 2 => TwoBounds(groupable, known)
      case _ => Err(MultipleRangeClauses)
    else if |nonGroupable| == 1 && groupable == [] then
      var c := nonGroupable[0];
      if c.operator == StartsWith && c.value == Text([]) then Err(StartsWithIllegalString)
      else if c.field in known then Err(DuplicateNonGroupableClauseSameField)
      else Ok(Some(c))
    else if groupable == [] then Err(MultipleRangeClauses)
    else Err(RangeClausesNotGroupable)
  }

  function FieldOf(c: Option<WhereClause>): set<string>
  {
    if c.Some? then {c.value.field} else {}
  }

  function Group(cs: seq<WhereClause>): Result<Groups, QueryError>
  {
    var equal :- EqualClauses(Filter(cs, IsEquality), map[]);
    var inClause :- InClause(Filter(cs, IsIn), equal.Keys);
    var range :- RangeClause(Filter(cs, IsGroupable), Filter(cs, IsNonGroupable), equal.Keys + FieldOf(inClause));
    Ok(Groups(equal, range, inClause))
  }

  /** The same with the source's running set of known fields. */
  method GroupClauses(cs: seq<WhereClause>) returns (r: Result<Groups, QueryError>)
    ensures r == Group(cs)
  {
    var knownFields: set<string> := {};
    var equal: map<string, WhereClause> := map[];
    assert cs[0..] == cs;
    for n := 0 to |cs|
      invariant knownFields == equal.Keys
      invariant EqualClauses(Filter(cs, IsEquality), map[]) == EqualClauses(Filter(cs[n..], IsEquality), equal)
    {
      assert cs[n..][0] == cs[n] && cs[n..][1..] == cs[n + 1..];
      if IsEquality(cs[n]) {
        assert Filter(cs[n..], IsEquality)[1..] == Filter(cs[n + 1..], IsEquality);
        if cs[n].field in knownFields {
          return Err(DuplicateNonGroupableClauseSameField);
        }
        knownFields := knownFields + {cs[n].field};
        equal := equal[cs[n].field := cs[n]];
      }
    }
    assert cs[|cs|..] == [];
    var inClause :- InClause(Filter(cs, IsIn), knownFields);
    if inClause.Some? {
      knownFields := knownFields + {inClause.value.field};
    }
    assert knownFields == equal.Keys + FieldOf(inClause);
    var range :- RangeClause(Filter(cs, IsGroupable), Filter(cs, IsNonGroupable), knownFields);
    return Ok(Groups(equal, range, inClause));
  }

  // ---------- The groups say what the clauses say ----------

  predicate GroupsHold(g: Groups, doc: Document)
  {
    (forall f | f in g.equal :: Holds(g.equal[f], doc)) &&
    (g.range.Some? ==> Holds(g.range.value, doc)) &&
    (g.inClause.Some? ==> Holds(g.inClause.value, doc))
  }

  /** Equal and In clauses on `$id` are handled apart from the groups. */
  predicate IsGrouped(c: WhereClause)
  {
    !(c.field == "$id" && c.operator in {Equal, In})
  }

  function Fields(es: seq<WhereClause>): set<string>
  {
    set c | c in es :: c.field
  }

  lemma FieldsCons(es: seq<WhereClause>)
    requires es != []
    ensures Fields(es) == {es[0].field} + Fields(es[1..])
  {
    assert es == [es[0]] + es[1..];
  }

  /** Each equality is filed under its field. */
  lemma {:induction false} EqualClausesContents(es: seq<WhereClause>, known: map<string, WhereClause>)
    requires EqualClauses(es, known).Ok?
    ensures var m := EqualClauses(es, known).value;
            m.Keys == known.Keys + Fields(es) &&
            (forall f | f in known :: m[f] == known[f]) &&
            (forall c | c in es :: c.field in m && m[c.field] == c)
  {
    if es == [] {
    } else {
      FieldsCons(es);
      EqualClausesContents(es[1..], known[es[0].field := es[0]]);
      assert es == [es[0]] + es[1..];
    }
  }

  lemma {:induction false} FieldsBound(es: seq<WhereClause>, known: set<string>)
    ensures |known + Fields(es)| <= |known| + |es|
  {
    if es == [] {
      assert known + Fields(es) == known;
    } else {
      FieldsCons(es);
      FieldsBound(es[1..], known + {es[0].field});
      assert known + Fields(es) == known + {es[0].field} + Fields(es[1..]);
    }
  }

  lemma AddToUnion(known: set<string>, f: string, rest: set<string>)
    ensures f in known ==> known + ({f} + rest) == known + rest
    ensures f !in known ==> known + ({f} + rest) == (known + {f}) + rest && |known + {f}| == |known| + 1
  {
  }

  lemma UnionSize(es: seq<WhereClause>, known: set<string>)
    requires es != []
    ensures if es[0].field in known then |known + Fields(es)| < |known| + |es|
            else |known + Fields(es)| == |(known + {es[0].field}) + Fields(es[1..])| &&
                 |known + {es[0].field}| == |known| + 1
  {
    FieldsCons(es);
    AddToUnion(known, es[0].field, Fields(es[1..]));
    FieldsBound(es[1..], known);
  }

  ghost predicate Fresh(es: seq<WhereClause>, known: set<string>)
  {
    es == [] || (es[0].field !in known && Fresh(es[1..], known + {es[0].field}))
  }

  lemma {:induction false} EqualClausesFresh(es: seq<WhereClause>, known: map<string, WhereClause>)
    ensures EqualClauses(es, known).Ok? <==> Fresh(es, known.Keys)
  {
    if es != [] && es[0].field !in known {
      var next := known[es[0].field := es[0]];
      assert next.Keys == known.Keys + {es[0].field};
      EqualClausesFresh(es[1..], next);
    }
  }

  lemma {:induction false} FreshSize(es: seq<WhereClause>, known: set<string>)
    ensures Fresh(es, known) <==> |known + Fields(es)| == |known| + |es|
  {
    if es == [] {
      assert known + Fields(es) == known;
    } else {
      UnionSize(es, known);
      if es[0].field !in known {
        FreshSize(es[1..], known + {es[0].field});
      }
    }
  }

  /** Equalities succeed exactly when no field repeats. */
  lemma EqualClausesSucceed(es: seq<WhereClause>, known: map<string, WhereClause>)
    ensures EqualClauses(es, known).Ok? <==> |known.Keys + Fields(es)| == |known.Keys| + |es|
  {
    EqualClausesFresh(es, known);
    FreshSize(es, known.Keys);
  }

  lemma EqualitiesMeaning(es: seq<WhereClause>, doc: Document)
    requires EqualClauses(es, map[]).Ok?
    ensures var m := EqualClauses(es, map[]).value;
            AllHold(es, doc) <==> forall f | f in m :: Holds(m[f], doc)
  {
    var m := EqualClauses(es, map[]).value;
    EqualClausesContents(es, map[]);
    forall f | f in m ensures m[f] in es {
      assert f in Fields(es);
    }
  }

  lemma TwoBoundsMeaning(cs: seq<WhereClause>, known: set<string>, doc: Document)
    requires |cs| == 2 && (forall c | c in cs :: IsGroupable(c)) && TwoBounds(cs, known).Ok?
    ensures AllHold(cs, doc) <==> Holds(TwoBounds(cs, known).value.value, doc)
  {
    var lower, upper := BoundClause(cs, IsLowerBound).value, BoundClause(cs, IsUpperBound).value;
    FilterMembers(cs, IsLowerBound);
    FilterMembers(cs, IsUpperBound);
    assert lower in Filter(cs, IsLowerBound) && upper in Filter(cs, IsUpperBound);
    assert AllHold(cs, doc) <==> Holds(lower, doc) && Holds(upper, doc) by {
      assert cs == [cs[0], cs[1]];
      assert lower != upper;
    }
  }

  lemma RangeMeaning(groupable: seq<WhereClause>, nonGroupable: seq<WhereClause>, known: set<string>, doc: Document)
    requires forall c | c in groupable :: IsGroupable(c)
    requires RangeClause(groupable, nonGroupable, known).Ok?
    ensures var range := RangeClause(groupable, nonGroupable, known).value;
            AllHold(groupable, doc) && AllHold(nonGroupable, doc) <==> (range.Some? ==> Holds(range.value, doc))
  {
    if nonGroupable == [] && |groupable| == 2 {
      TwoBoundsMeaning(groupable, known, doc);
    } else if nonGroupable == [] && |groupable| == 1 {
      assert groupable == [groupable[0]];
    } else if nonGroupable != [] {
      assert nonGroupable == [nonGroupable[0]];
    }
  }

  lemma InMeaning(ins: seq<WhereClause>, known: set<string>, doc: Document)
    requires InClause(ins, known).Ok?
    ensures var inClause := InClause(ins, known).value;
            AllHold(ins, doc) <==> (inClause.Some? ==> Holds(inClause.value, doc))
  {
    if |ins| == 1 {
      assert ins == [ins[0]];
    }
  }

  lemma KindsCover(cs: seq<WhereClause>, doc: Document)
    ensures AllHold(Filter(cs, IsGrouped), doc) <==>
            AllHold(Filter(cs, IsEquality), doc) && AllHold(Filter(cs, IsIn), doc) &&
            AllHold(Filter(cs, IsGroupable), doc) && AllHold(Filter(cs, IsNonGroupable), doc)
  {
    FilterMembers(cs, IsGrouped);
    FilterMembers(cs, IsEquality);
    FilterMembers(cs, IsIn);
    FilterMembers(cs, IsGroupable);
    FilterMembers(cs, IsNonGroupable);
    forall c | c in cs
      ensures IsGrouped(c) <==> IsEquality(c) || IsIn(c) || IsGroupable(c) || IsNonGroupable(c)
    {
    }
  }

  /** The groups hold of a document exactly when every grouped clause does. */
  lemma GroupingMeaning(cs: seq<WhereClause>, doc: Document)
    requires Group(cs).Ok?
    ensures AllHold(Filter(cs, IsGrouped), doc) <==> GroupsHold(Group(cs).value, doc)
  {
    var g := Group(cs).value;
    KindsCover(cs, doc);
    FilterMembers(cs, IsGroupable);
    EqualitiesMeaning(Filter(cs, IsEquality), doc);
    InMeaning(Filter(cs, IsIn), g.equal.Keys, doc);
    RangeMeaning(Filter(cs, IsGroupable), Filter(cs, IsNonGroupable), g.equal.Keys + FieldOf(g.inClause), doc);
  }

  /** Two bounds rejected as out of order hold together of no document. */
  lemma OutOfOrderUnsatisfiable(lower: WhereClause, upper: WhereClause, doc: Document)
    requires IsLowerBound(lower) && IsUpperBound(upper) && lower.field == upper.field
    requires OutOfOrder(lower, upper) == Ok(true)
    ensures !(Holds(lower, doc) && Holds(upper, doc))
  {
    if lower.field in doc {
      NoneBetween(lower.value, doc[lower.field], upper.value);
    }
  }

  // ---------- Which clauses are accepted ----------

  /** A lower and an upper bound make a range exactly when they are on one field that no equality or in clause
      uses, their values can be compared, and the lower one is not above the upper one, nor equal to it when
      neither bound is included. */
  predicate MakeRange(lower: WhereClause, upper: WhereClause, known: set<string>)
  {
    lower.field == upper.field && lower.field !in known &&
    Comparable(lower.value, upper.value) && !Less(upper.value, lower.value) &&
    (lower.operator == GreaterThan && upper.operator == LessThan ==> !Eq(upper.value, lower.value))
  }

  lemma BoundsOfPair(a: WhereClause, b: WhereClause)
    requires IsLowerBound(a) && IsUpperBound(b)
    ensures BoundClause([a, b], IsLowerBound) == Ok(a) && BoundClause([a, b], IsUpperBound) == Ok(b)
  {
    FilterTwo(a, b, IsLowerBound);
    FilterTwo(a, b, IsUpperBound);
  }

  /** And then the range has their field, their values in order, and excludes the bounds that they exclude. */
  lemma TwoBoundsAccepted(a: WhereClause, b: WhereClause, known: set<string>)
    requires IsLowerBound(a) && IsUpperBound(b)
    ensures TwoBounds([a, b], known).Ok? <==> MakeRange(a, b, known)
    ensures TwoBounds([a, b], known).Ok? ==>
              var r := TwoBounds([a, b], known).value;
              r.Some? && r.value.field == a.field && r.value.value == Array([a.value, b.value]) &&
              (r.value.operator in {BetweenExcludeLeft, BetweenExcludeBounds} <==> a.operator == GreaterThan) &&
              (r.value.operator in {BetweenExcludeRight, BetweenExcludeBounds} <==> b.operator == LessThan) &&
              r.value.operator in {Between, BetweenExcludeLeft, BetweenExcludeRight, BetweenExcludeBounds}
  {
    BoundsOfPair(a, b);
  }

  lemma SameSide(a: WhereClause, b: WhereClause, known: set<string>)
    requires (IsLowerBound(a) && IsLowerBound(b)) || (IsUpperBound(a) && IsUpperBound(b))
    ensures TwoBounds([a, b], known).Err?
  {
    FilterTwo(a, b, IsLowerBound);
    FilterTwo(a, b, IsUpperBound);
  }

  /** Two bounds, in either order. */
  predicate PairAccepted(a: WhereClause, b: WhereClause, known: set<string>)
  {
    (IsLowerBound(a) && IsUpperBound(b) && MakeRange(a, b, known)) ||
    (IsLowerBound(b) && IsUpperBound(a) && MakeRange(b, a, known))
  }

  /** At most one range: no range clause, one bound or two that make a range, or one clause of another kind,
      which is not the empty prefix; on a field that no equality or in clause uses. */
  predicate RangeAccepted(groupable: seq<WhereClause>, nonGroupable: seq<WhereClause>, known: set<string>)
  {
    (nonGroupable == [] && groupable == []) ||
    (nonGroupable == [] && |groupable| == 1 && groupable[0].field !in known) ||
    (nonGroupable == [] && |groupable| == 2 && PairAccepted(groupable[0], groupable[1], known)) ||
    (|nonGroupable| == 1 && groupable == [] && nonGroupable[0].field !in known &&
     !(nonGroupable[0].operator == StartsWith && nonGroupable[0].value == Text([])))
  }

  lemma RangeExactly(groupable: seq<WhereClause>, nonGroupable: seq<WhereClause>, known: set<string>)
    requires forall c | c in groupable :: IsGroupable(c)
    ensures RangeClause(groupable, nonGroupable, known).Ok? <==> RangeAccepted(groupable, nonGroupable, known)
  {
    if nonGroupable == [] && |groupable| == 2 {
      var a, b := groupable[0], groupable[1];
      assert groupable == [a, b] && a in groupable && b in groupable;
      TwoBoundsSwapped(a, b, known);
      if IsLowerBound(a) && IsUpperBound(b) {
        TwoBoundsAccepted(a, b, known);
      } else if IsLowerBound(b) && IsUpperBound(a) {
        TwoBoundsAccepted(b, a, known);
      } else {
        SameSide(a, b, known);
      }
    }
  }

  /** What a list of clauses must be to be grouped: equalities on distinct fields, at most one in clause, on
      another field, and at most one range, on yet another; equality and in on `$id` do not count. */
  predicate Acceptable(cs: seq<WhereClause>)
  {
    var equalities := Filter(cs, (c: WhereClause) => c.operator == Equal && c.field != "$id");
    var ins := Filter(cs, (c: WhereClause) => c.operator == In && c.field != "$id");
    var used := Fields(equalities) + Fields(ins);
    |Fields(equalities)| == |equalities| &&
    |ins| <= 1 && Fields(equalities) !! Fields(ins) &&
    RangeAccepted(Filter(cs, IsGroupable), Filter(cs, IsNonGroupable), used)
  }

  lemma {:induction false} FilterSame(cs: seq<WhereClause>, p: WhereClause -> bool, q: WhereClause -> bool)
    requires forall c :: p(c) <==> q(c)
    ensures Filter(cs, p) == Filter(cs, q)
  {
    if cs == [] {
    } else {
      FilterSame(cs[1..], p, q);
    }
  }

  lemma DistinctFields(es: seq<WhereClause>)
    ensures EqualClauses(es, map[]).Ok? <==> |Fields(es)| == |es|
  {
    var none: map<string, WhereClause> := map[];
    EqualClausesSucceed(es, none);
    assert none.Keys + Fields(es) == Fields(es);
  }

  lemma InExactly(ins: seq<WhereClause>, known: set<string>)
    ensures InClause(ins, known).Ok? <==> |ins| <= 1 && known !! Fields(ins)
    ensures InClause(ins, known).Ok? ==> FieldOf(InClause(ins, known).value) == Fields(ins)
    ensures InClause(ins, known).Err? ==>
              InClause(ins, known).error ==
              if |ins| > 1 then MultipleInClauses else DuplicateNonGroupableClauseSameField
  {
    if |ins| == 1 {
      assert ins == [ins[0]] && Fields(ins) == {ins[0].field};
    }
  }

  lemma KnownFields(es: seq<WhereClause>)
    ensures EqualClauses(es, map[]).Ok? <==> |Fields(es)| == |es|
    ensures EqualClauses(es, map[]).Ok? ==> EqualClauses(es, map[]).value.Keys == Fields(es)
    ensures EqualClauses(es, map[]).Err? ==> EqualClauses(es, map[]).error == DuplicateNonGroupableClauseSameField
  {
    DistinctFields(es);
    EqualClausesError(es, map[]);
    if EqualClauses(es, map[]).Ok? {
      EqualClausesContents(es, map[]);
    }
  }

  /** Grouping succeeds exactly for such lists. */
  lemma GroupedExactly(cs: seq<WhereClause>)
    ensures Group(cs).Ok? <==> Acceptable(cs)
  {
    FilterSame(cs, IsEquality, (c: WhereClause) => c.operator == Equal && c.field != "$id");
    FilterSame(cs, IsIn, (c: WhereClause) => c.operator == In && c.field != "$id");
    var es, ins := Filter(cs, IsEquality), Filter(cs, IsIn);
    KnownFields(es);
    InExactly(ins, Fields(es));
    FilterMembers(cs, IsGroupable);
    RangeExactly(Filter(cs, IsGroupable), Filter(cs, IsNonGroupable), Fields(es) + Fields(ins));
  }

  /** The error that a list earns: a repeated field among the equalities, too many in clauses or one on a field
      of an equality, then the range. */
  lemma GroupErrors(cs: seq<WhereClause>)
    requires Group(cs).Err?
    ensures var es, ins := Filter(cs, IsEquality), Filter(cs, IsIn);
            if |Fields(es)| != |es| then Group(cs).error == DuplicateNonGroupableClauseSameField
            else if |ins| > 1 then Group(cs).error == MultipleInClauses
            else if !(Fields(es) !! Fields(ins)) then Group(cs).error == DuplicateNonGroupableClauseSameField
            else
              var range := RangeClause(Filter(cs, IsGroupable), Filter(cs, IsNonGroupable), Fields(es) + Fields(ins));
              range == Err(Group(cs).error)
  {
    KnownFields(Filter(cs, IsEquality));
    InExactly(Filter(cs, IsIn), Fields(Filter(cs, IsEquality)));
  }

  lemma {:induction false} EqualClausesError(es: seq<WhereClause>, known: map<string, WhereClause>)
    ensures EqualClauses(es, known).Err? ==> EqualClauses(es, known).error == DuplicateNonGroupableClauseSameField
  {
    if es == [] {
    } else if es[0].field !in known {
      EqualClausesError(es[1..], known[es[0].field := es[0]]);
    }
  }

  /** The errors of the range part, in the order in which the defects are looked for. */
  lemma RangeErrors(groupable: seq<WhereClause>, nonGroupable: seq<WhereClause>, known: set<string>)
    requires RangeClause(groupable, nonGroupable, known).Err?
    ensures var error := RangeClause(groupable, nonGroupable, known).error;
            (groupable != [] && nonGroupable != [] ==> error == RangeClausesNotGroupable) &&
            (groupable == [] && |nonGroupable| > 1 ==> error == MultipleRangeClauses) &&
            (groupable == [] && |nonGroupable| == 1 ==>
              if nonGroupable[0].operator == StartsWith && nonGroupable[0].value == Text([])
              then error == StartsWithIllegalString else error == DuplicateNonGroupableClauseSameField) &&
            (nonGroupable == [] && |groupable| == 1 ==> error == InvalidWhereClauseComponents) &&
            (nonGroupable == [] && |groupable| > 2 ==> error == MultipleRangeClauses)
  {
  }

  /** The errors of two bounds: on a used field, on two fields, both on one side, not comparable, out of order. */
  lemma PairErrors(a: WhereClause, b: WhereClause, known: set<string>)
    requires IsGroupable(a) && IsGroupable(b) && TwoBounds([a, b], known).Err?
    ensures var error := TwoBounds([a, b], known).error;
            if a.field in known then error == InvalidWhereClauseComponents
            else if a.field != b.field then error == MultipleRangeClauses
            else if IsLowerBound(a) && IsLowerBound(b) then error == MultipleRangeClauses
            else if IsUpperBound(a) && IsUpperBound(b) then error == RangeClausesNotGroupable
            else if !Comparable(a.value, b.value) then error == RangeClausesNotGroupable
            else error == MultipleRangeClauses
  {
    BoundClauseSwapped(a, b, IsLowerBound);
    BoundClauseSwapped(a, b, IsUpperBound);
    if IsLowerBound(a) && IsUpperBound(b) {
      BoundsOfPair(a, b);
    } else if IsLowerBound(b) && IsUpperBound(a) {
      BoundsOfPair(b, a);
    } else {
      FilterTwo(a, b, IsLowerBound);
      FilterTwo(a, b, IsUpperBound);
    }
  }

  // ---------- The order of the clauses does not matter ----------

  lemma {:induction false} FilterCounts(cs: seq<WhereClause>, p: WhereClause -> bool, c: WhereClause)
    ensures multiset(Filter(cs, p))[c] == if p(c) then multiset(cs)[c] else 0
  {
    if cs == [] {
    } else {
      FilterCounts(cs[1..], p, c);
      assert cs == [cs[0]] + cs[1..];
      assert multiset(cs) == multiset{cs[0]} + multiset(cs[1..]);
      if p(cs[0]) {
        assert multiset(Filter(cs, p)) == multiset{cs[0]} + multiset(Filter(cs[1..], p));
      }
    }
  }

  lemma FilterPermuted(cs: seq<WhereClause>, ds: seq<WhereClause>, p: WhereClause -> bool)
    requires multiset(cs) == multiset(ds)
    ensures multiset(Filter(cs, p)) == multiset(Filter(ds, p))
  {
    forall c ensures multiset(Filter(cs, p))[c] == multiset(Filter(ds, p))[c] {
      FilterCounts(cs, p, c);
      FilterCounts(ds, p, c);
    }
  }

  lemma PairPermutation(a: WhereClause, b: WhereClause, c: WhereClause, d: WhereClause)
    requires multiset{a, b} == multiset{c, d}
    ensures (c == a && d == b) || (c == b && d == a)
  {
    assert c in multiset{a, b} && d in multiset{a, b};
    assert multiset{a, b}[a] == multiset{c, d}[a] && multiset{a, b}[b] == multiset{c, d}[b];
  }

  lemma SmallPermutation(xs: seq<WhereClause>, ys: seq<WhereClause>)
    requires multiset(xs) == multiset(ys)
    ensures |xs| == |ys|
    ensures |xs| == 1 ==> xs == ys
    ensures |xs| == 2 ==> ys == xs || ys == [xs[1], xs[0]]
  {
    assert |multiset(xs)| == |multiset(ys)|;
    if |xs| == 1 {
      assert xs == [xs[0]] && ys == [ys[0]];
      assert ys[0] in multiset(xs);
    } else if |xs| == 2 {
      assert xs == [xs[0], xs[1]] && ys == [ys[0], ys[1]];
      PairPermutation(xs[0], xs[1], ys[0], ys[1]);
    }
  }

  predicate SameOutcome<T(==)>(a: Result<T, QueryError>, b: Result<T, QueryError>)
  {
    (a.Ok? <==> b.Ok?) && (a.Ok? ==> a.value == b.value)
  }

  lemma EqualClausesPermuted(es: seq<WhereClause>, fs: seq<WhereClause>)
    requires multiset(es) == multiset(fs)
    ensures SameOutcome(EqualClauses(es, map[]), EqualClauses(fs, map[]))
  {
    assert |multiset(es)| == |multiset(fs)|;
    forall c ensures c in es <==> c in fs {
      assert c in es <==> c in multiset(es);
    }
    assert Fields(es) == Fields(fs);
    EqualClausesSucceed(es, map[]);
    EqualClausesSucceed(fs, map[]);
    if EqualClauses(es, map[]).Ok? {
      EqualClausesContents(es, map[]);
      EqualClausesContents(fs, map[]);
      var m, n := EqualClauses(es, map[]).value, EqualClauses(fs, map[]).value;
      assert m.Keys == n.Keys;
      forall f | f in m ensures m[f] == n[f] {
        assert f in Fields(es);
        var c :| c in es && c.field == f;
      }
      assert m == n;
    }
  }

  /** One lower and one upper bound are found in either order. */
  lemma TwoBoundsSwapped(a: WhereClause, b: WhereClause, known: set<string>)
    ensures SameOutcome(TwoBounds([a, b], known), TwoBounds([b, a], known))
  {
    if a.field == b.field {
      BoundClauseSwapped(a, b, IsLowerBound);
      BoundClauseSwapped(a, b, IsUpperBound);
    }
  }

  lemma BoundClauseSwapped(a: WhereClause, b: WhereClause, p: WhereClause -> bool)
    ensures BoundClause([a, b], p) == BoundClause([b, a], p)
  {
    FilterTwo(a, b, p);
    FilterTwo(b, a, p);
  }

  lemma RangePermuted(
    gs: seq<WhereClause>, hs: seq<WhereClause>, ns: seq<WhereClause>, ms: seq<WhereClause>, known: set<string>)
    requires multiset(gs) == multiset(hs) && multiset(ns) == multiset(ms)
    ensures SameOutcome(RangeClause(gs, ns, known), RangeClause(hs, ms, known))
  {
    SmallPermutation(gs, hs);
    SmallPermutation(ns, ms);
    if ns == [] && |gs| == 2 {
      assert gs == [gs[0], gs[1]];
      if hs != gs {
        TwoBoundsSwapped(gs[0], gs[1], known);
      }
    }
  }

  /** Any permutation of the clauses is grouped alike: both fail, or both give the same groups. */
  lemma GroupingIgnoresOrder(cs: seq<WhereClause>, ds: seq<WhereClause>)
    requires multiset(cs) == multiset(ds)
    ensures SameOutcome(Group(cs), Group(ds))
  {
    FilterPermuted(cs, ds, IsEquality);
    FilterPermuted(cs, ds, IsIn);
    FilterPermuted(cs, ds, IsGroupable);
    FilterPermuted(cs, ds, IsNonGroupable);
    EqualClausesPermuted(Filter(cs, IsEquality), Filter(ds, IsEquality));
    SmallPermutation(Filter(cs, IsIn), Filter(ds, IsIn));
    var equal := EqualClauses(Filter(cs, IsEquality), map[]);
    if equal.Ok? {
      var inClause := InClause(Filter(cs, IsIn), equal.value.Keys);
      if inClause.Ok? {
        RangePermuted(Filter(cs, IsGroupable), Filter(ds, IsGroupable), Filter(cs, IsNonGroupable),
                      Filter(ds, IsNonGroupable), equal.value.Keys + FieldOf(inClause.value));
      }
    }
  }

  /** Only the kind of error depends on the order: the field of the first bound is looked at first. */
  lemma ErrorDependsOnOrder(a: WhereClause, b: WhereClause, known: set<string>)
    requires a.field in known && b.field !in known
    ensures TwoBounds([a, b], known) == Err(InvalidWhereClauseComponents)
    ensures TwoBounds([b, a], known) == Err(MultipleRangeClauses)
  {
  }
}
