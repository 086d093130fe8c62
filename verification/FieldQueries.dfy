/** Queries on typed fields: byte ranges answer value comparisons because the key encoders keep order
    (dpp/src/data_contract/extra/document_field.rs and document_type.rs). */
module FieldQueries {
  import opened Prelude
  import opened ByteOrder
  import opened KeyEncoding
  import opened Values
  import opened Conditions
  import opened PathQuery

  datatype FieldType = IntegerField | NumberField | StringField | ByteArrayField

  const MAX_INDEX_SIZE: nat := 255

  /** The key of a value in a field of the given type. */
  ghost function EncodeForKey(t: FieldType, v: Value): Option<Bytes>
  {
    match (t, v)
    case (_, Null) => Some([])
    case (IntegerField, Integer(i)) => if -I63 <= i < I63 then Some(SignedKey(i)) else None
    case (NumberField, Float(bits)) => Some(FloatKey(bits))
    case (StringField, Text(utf8)) => Some(if utf8 == [] then [0] else utf8)
    case (ByteArrayField, ByteString(b)) => Some(b)
    case _ => None
  }

  ghost function SerializeForKey(t: FieldType, v: Value): Option<Bytes>
  {
    var key := EncodeForKey(t, v);
    if key.Some? && |key.value| > MAX_INDEX_SIZE then None else key
  }

  /** The values of a field that are stored and compared as such: every 64-bit integer, every double that is
      a number, every text and every byte string that fits an index. */
  ghost predicate Regular(t: FieldType, v: Value)
  {
    SerializeForKey(t, v).Some? &&
    match t
    case IntegerField => v.Integer?
    case NumberField => v.Float? && !IsNaN(v.bits)
    case StringField => v.Text?
    case ByteArrayField => v.ByteString?
  }

  ghost function KeyOf(t: FieldType, v: Value): Bytes
    requires Regular(t, v)
  {
    SerializeForKey(t, v).value
  }

  /** The bytes of each key: the integer plus 2^63 in eight bytes, the double's pattern turned by its sign, the
      text itself, with a zero byte for the empty one, the bytes themselves, and nothing for null. */
  lemma KeyBytes(t: FieldType, v: Value)
    requires SerializeForKey(t, v).Some?
    ensures var key := SerializeForKey(t, v).value;
            |key| <= 255 &&
            match v
            case Null => key == []
            case Integer(i) => t == IntegerField && |key| == 8 && KeyEncoding.Number(key) == i + I63
            case Float(bits) => t == NumberField && key == FloatKey(bits)
            case Text(utf8) => t == StringField && key == if utf8 == [] then [0] else utf8
            case ByteString(b) => t == ByteArrayField && key == b
            case _ => false
  {
    if v.Integer? {
      Key64Order(v.i + I63, 0);
    }
  }

  /** The values that have a key in a field: null, and those of its kind that fit 64 bits or 255 bytes. */
  lemma HasKey(t: FieldType, v: Value)
    ensures SerializeForKey(t, v).Some? <==>
            v == Null || (t == IntegerField && v.Integer? && -I63 <= v.i < I63) || (t == NumberField && v.Float?) ||
            (t == StringField && v.Text? && |v.utf8| <= 255) ||
            (t == ByteArrayField && v.ByteString? && |v.bytes| <= 255)
  {
  }

  /** The one value whose key stands for no value in its place. */
  predicate NegativeZero(t: FieldType, v: Value)
  {
    t == NumberField && v.Float? && IsNegativeZero(v.bits)
  }

  /** The value that a key stands for: the empty text shares its key with the text of one zero byte. */
  function Keyed(t: FieldType, v: Value): Value
  {
    if t == StringField && v == Text([]) then Text([0]) else v
  }

  /** Negative zero against another number that is not positive: its key comes first all the same. */
  predicate Displaced(t: FieldType, a: Value, b: Value)
  {
    NegativeZero(t, a) && !NegativeZero(t, b) && b.Float? && FloatValue(b.bits) <= 0
  }

  /** The two values are in the order of their keys: they do not share a key, and are not displaced. */
  predicate Apart(t: FieldType, a: Value, b: Value)
  {
    (a == b || Keyed(t, a) != Keyed(t, b)) && !Displaced(t, a, b) && !Displaced(t, b, a)
  }

  /** But for negative zero, key order is the order of the values that keys stand for. */
  lemma KeysOrderKeyed(t: FieldType, a: Value, b: Value)
    requires Regular(t, a) && Regular(t, b) && !NegativeZero(t, a) && !NegativeZero(t, b)
    ensures Lt(KeyOf(t, a), KeyOf(t, b)) <==> Less(Keyed(t, a), Keyed(t, b))
    ensures KeyOf(t, a) == KeyOf(t, b) <==> Eq(Keyed(t, a), Keyed(t, b))
  {
    match t
    case IntegerField => SignedKeyOrder(a.i, b.i);
    case NumberField => FloatKeyOrder(a.bits, b.bits);
    case _ =>
  }

  /** Keys compare as the values do. */
  ghost predicate KeysAgree(t: FieldType, a: Value, b: Value)
    requires Regular(t, a) && Regular(t, b)
  {
    (Lt(KeyOf(t, a), KeyOf(t, b)) <==> Less(a, b)) && (KeyOf(t, a) == KeyOf(t, b) <==> Eq(a, b))
  }

  /** Key order is value order for every pair of regular values of a field, with exactly two exceptions: the
      empty text against the text of one zero byte, and negative zero against a number that is not positive. */
  lemma KeysOrderValues(t: FieldType, a: Value, b: Value)
    requires Regular(t, a) && Regular(t, b)
    ensures Comparable(a, b)
    ensures KeysAgree(t, a, b) && KeysAgree(t, b, a) <==> Apart(t, a, b)
  {
    match t
    case IntegerField =>
      SignedKeyOrder(a.i, b.i);
      SignedKeyOrder(b.i, a.i);
    case NumberField => NumberKeysOrder(a.bits, b.bits);
    case StringField => TextKeysOrder(a, b);
    case ByteArrayField =>
  }

  lemma NumberKeysOrder(a: u64, b: u64)
    requires !IsNaN(a) && !IsNaN(b)
    ensures (Lt(FloatKey(a), FloatKey(b)) <==> FloatLess(a, b)) &&
            (Lt(FloatKey(b), FloatKey(a)) <==> FloatLess(b, a)) &&
            (FloatKey(a) == FloatKey(b) <==> FloatEqual(a, b)) <==>
            !Displaced(NumberField, Float(a), Float(b)) && !Displaced(NumberField, Float(b), Float(a))
  {
    FloatKeyOrder(a, b);
    FloatKeyOrder(b, a);
  }

  lemma TextKeysOrder(a: Value, b: Value)
    requires Regular(StringField, a) && Regular(StringField, b)
    ensures KeysAgree(StringField, a, b) && KeysAgree(StringField, b, a) <==> Apart(StringField, a, b)
  {
    EmptyOrder(a.utf8, b.utf8);
    EmptyOrder(b.utf8, a.utf8);
  }

  /** A zero byte comes right after the empty text. */
  lemma EmptyOrder(a: Bytes, b: Bytes)
    ensures a == [] && b != [] && b != [0] ==> Lt(a, b) && Lt([0], b) && !Lt(b, a) && !Lt(b, [0])
  {
    if a == [] && b != [] && b != [0] {
      assert [] + [0] == [0];
      SomethingBetween([], b);
      Trichotomy([0], b);
      Trichotomy([], b);
    }
  }

  /** All operands of a clause are regular values of the field. */
  ghost predicate RegularOperands(t: FieldType, c: WhereClause)
  {
    match c.operator
    case In => c.value.Array? && forall y | y in c.value.items :: Regular(t, y)
    case Between | BetweenExcludeBounds | BetweenExcludeLeft | BetweenExcludeRight =>
      IsPair(c.value) && Regular(t, c.value.items[0]) && Regular(t, c.value.items[1])
    case StartsWith => t == StringField && Regular(t, c.value)
    case _ => Regular(t, c.value)
  }

  ghost function Operands(t: FieldType, c: WhereClause): Result<PathQuery.Operands, QueryError>
  {
    Resolve(c, v => SerializeForKey(t, v))
  }

  ghost predicate NoNegativeZero(t: FieldType, c: WhereClause)
  {
    !NegativeZero(t, c.value) && (c.value.Array? ==> forall y | y in c.value.items :: !NegativeZero(t, y))
  }

  function KeyedAll(t: FieldType, values: seq<Value>): (r: seq<Value>)
    ensures |r| == |values| && forall i | 0 <= i < |r| :: r[i] == Keyed(t, values[i])
  {
    if values == [] then [] else [Keyed(t, values[0])] + KeyedAll(t, values[1..])
  }

  function KeyedOperand(t: FieldType, v: Value): Value
  {
    if v.Array? then Array(KeyedAll(t, v.items)) else Keyed(t, v)
  }

  /** One value of a list is equal to what the key of `x` stands for. */
  ghost predicate Listed(t: FieldType, values: seq<Value>, x: Value)
  {
    exists y | y in KeyedAll(t, values) :: Eq(Keyed(t, x), y)
  }

  lemma ListedCons(t: FieldType, values: seq<Value>, x: Value)
    requires values != []
    ensures Listed(t, values, x) <==> Eq(Keyed(t, x), Keyed(t, values[0])) || Listed(t, values[1..], x)
  {
    assert KeyedAll(t, values) == [Keyed(t, values[0])] + KeyedAll(t, values[1..]);
  }

  lemma {:induction false} InKeys(t: FieldType, values: seq<Value>, x: Value)
    requires Regular(t, x) && !NegativeZero(t, x)
    requires forall y | y in values :: Regular(t, y) && !NegativeZero(t, y)
    ensures var keys := SerializeAll(values, v => SerializeForKey(t, v));
            keys.Ok? && (KeyOf(t, x) in keys.value <==> Listed(t, values, x))
  {
    if values == [] {
    } else {
      assert values[0] in values && forall y | y in values[1..] :: y in values;
      InKeys(t, values[1..], x);
      KeysOrderKeyed(t, x, values[0]);
      ListedCons(t, values, x);
      var keys := SerializeAll(values, v => SerializeForKey(t, v)).value;
      assert keys == [KeyOf(t, values[0])] + SerializeAll(values[1..], v => SerializeForKey(t, v)).value;
    }
  }

  lemma BoundsKeyed(t: FieldType, c: WhereClause, x: Value)
    requires c.operator in {Between, BetweenExcludeBounds, BetweenExcludeLeft, BetweenExcludeRight}
    requires RegularOperands(t, c) && Regular(t, x) && Operands(t, c).Ok?
    requires NoNegativeZero(t, c) && !NegativeZero(t, x)
    ensures Matches(c.operator, Operands(t, c).value, KeyOf(t, x)) <==>
            Satisfies(c.operator, KeyedOperand(t, c.value), Keyed(t, x))
  {
    var l, r := c.value.items[0], c.value.items[1];
    KeysOrderKeyed(t, l, x);
    KeysOrderKeyed(t, x, r);
  }

  lemma SingleKeyed(t: FieldType, c: WhereClause, x: Value)
    requires c.operator in {Equal, GreaterThan, GreaterThanOrEquals, LessThan, LessThanOrEquals}
    requires RegularOperands(t, c) && Regular(t, x) && Operands(t, c).Ok?
    requires NoNegativeZero(t, c) && !NegativeZero(t, x)
    ensures Matches(c.operator, Operands(t, c).value, KeyOf(t, x)) <==>
            Satisfies(c.operator, KeyedOperand(t, c.value), Keyed(t, x))
  {
    KeysOrderKeyed(t, c.value, x);
    KeysOrderKeyed(t, x, c.value);
  }

  /** The key of a stored value matches the serialized operands exactly when the value it stands for satisfies
      the clause on the values that the operands stand for. */
  lemma MatchesIsSatisfiesKeyed(t: FieldType, c: WhereClause, x: Value)
    requires RegularOperands(t, c) && Regular(t, x) && Operands(t, c).Ok?
    requires NoNegativeZero(t, c) && !NegativeZero(t, x)
    ensures Matches(c.operator, Operands(t, c).value, KeyOf(t, x)) <==>
            Satisfies(c.operator, KeyedOperand(t, c.value), Keyed(t, x))
  {
    match c.operator
    case In => InKeys(t, c.value.items, x);
    case Between | BetweenExcludeBounds | BetweenExcludeLeft | BetweenExcludeRight => BoundsKeyed(t, c, x);
    case StartsWith =>
    case _ => SingleKeyed(t, c, x);
  }

  /** No operand is confused with the value, and no empty prefix is looked for. */
  ghost predicate OperandsApart(t: FieldType, c: WhereClause, x: Value)
  {
    match c.operator
    case In => c.value.Array? && forall y | y in c.value.items :: Apart(t, y, x)
    case Between | BetweenExcludeBounds | BetweenExcludeLeft | BetweenExcludeRight =>
      IsPair(c.value) && Apart(t, c.value.items[0], x) && Apart(t, c.value.items[1], x)
    case StartsWith => c.value != Text([]) && Apart(t, c.value, x)
    case _ => Apart(t, c.value, x)
  }

  lemma {:induction false} InKeysApart(t: FieldType, values: seq<Value>, x: Value)
    requires Regular(t, x) && forall y | y in values :: Regular(t, y) && Apart(t, y, x)
    ensures var keys := SerializeAll(values, v => SerializeForKey(t, v));
            keys.Ok? && (KeyOf(t, x) in keys.value <==> exists y | y in values :: Eq(x, y))
  {
    if values == [] {
    } else {
      assert values[0] in values && forall y | y in values[1..] :: y in values;
      InKeysApart(t, values[1..], x);
      KeysOrderValues(t, values[0], x);
      assert values == [values[0]] + values[1..];
      var keys := SerializeAll(values, v => SerializeForKey(t, v)).value;
      assert keys == [KeyOf(t, values[0])] + SerializeAll(values[1..], v => SerializeForKey(t, v)).value;
    }
  }

  /** A key matches exactly when the value satisfies the clause, for every value that is apart from the operands. */
  lemma MatchesIsSatisfies(t: FieldType, c: WhereClause, x: Value)
    requires RegularOperands(t, c) && Regular(t, x) && Operands(t, c).Ok? && OperandsApart(t, c, x)
    ensures Matches(c.operator, Operands(t, c).value, KeyOf(t, x)) <==> Satisfies(c.operator, c.value, x)
  {
    match c.operator
    case In => InKeysApart(t, c.value.items, x);
    case Between | BetweenExcludeBounds | BetweenExcludeLeft | BetweenExcludeRight =>
      KeysOrderValues(t, c.value.items[0], x);
      KeysOrderValues(t, c.value.items[1], x);
    case StartsWith => MatchesIsSatisfiesKeyed(t, c, x);
    case _ => KeysOrderValues(t, c.value, x);
  }

  /** A value is still to come when the scan resumes at the start document's value. */
  predicate PastValue(start: Option<(Value, bool)>, leftToRight: bool, x: Value)
  {
    match start
    case None => true
    case Some((y, included)) => (if leftToRight then Less(y, x) else Less(x, y)) || (included && Eq(x, y))
  }

  ghost function CursorOf(t: FieldType, start: Option<(Value, bool)>): Option<Cursor>
    requires start.Some? ==> Regular(t, start.value.0)
  {
    match start
    case None => None
    case Some((y, included)) => Some(Cursor(KeyOf(t, y), included))
  }

  /** On a typed field the compiled ranges select exactly the values that satisfy the clause and are past
      the start value, for every operator and direction, wherever the ranges conform at all and the value is
      not confused with an operand or the start value. */
  lemma TypedQuery(t: FieldType, c: WhereClause, start: Option<(Value, bool)>, leftToRight: bool, x: Value)
    requires RegularOperands(t, c) && Regular(t, x) && Operands(t, c).Ok? && OperandsApart(t, c, x)
    requires start.Some? ==> Regular(t, start.value.0) && Apart(t, start.value.0, x)
    requires Conforms(c.operator, Operands(t, c).value, CursorOf(t, start), leftToRight)
    ensures Selects(Items(c.operator, Operands(t, c).value, CursorOf(t, start), leftToRight), KeyOf(t, x)) <==>
            Satisfies(c.operator, c.value, x) && PastValue(start, leftToRight, x)
  {
    ConformingQuery(c.operator, Operands(t, c).value, CursorOf(t, start), leftToRight, KeyOf(t, x));
    MatchesIsSatisfies(t, c, x);
    if start.Some? {
      KeysOrderValues(t, start.value.0, x);
    }
  }

  /** In particular every clause on an integer field, without a start document, selects exactly the 64-bit
      integers that satisfy it. */
  lemma IntegerQuery(c: WhereClause, leftToRight: bool, x: i64)
    requires RegularOperands(IntegerField, c) && Operands(IntegerField, c).Ok?
    ensures Selects(Items(c.operator, Operands(IntegerField, c).value, None, leftToRight), SignedKey(x)) <==>
            Satisfies(c.operator, c.value, Integer(x))
  {
    assert Regular(IntegerField, Integer(x));
    TypedQuery(IntegerField, c, None, leftToRight, Integer(x));
  }

  // ---------- What is stored for a document ----------

  /** The document lacks the field, or has null in it. */
  predicate Vacant(doc: Document, field: string)
  {
    field !in doc || doc[field] == Null
  }

  /** A document is kept under its value's key, and under the empty key when it has no value. */
  ghost function StoredKey(t: FieldType, doc: Document, field: string): Bytes
    requires Vacant(doc, field) || Regular(t, doc[field])
  {
    if Vacant(doc, field) then [] else KeyOf(t, doc[field])
  }

  /** The operators and operands that admit the empty key: an upper bound does, unless the bound is empty
      itself, and a lower bound or a single key that is empty. */
  predicate AdmitsEmpty(op: WhereOperator, o: PathQuery.Operands)
    requires WellFormed(op, o)
  {
    match op
    case LessThan => o.key != []
    case LessThanOrEquals => true
    case Equal | GreaterThanOrEquals => o.key == []
    case Between => o.left == []
    case BetweenExcludeRight => o.left == [] && o.right != []
    case In => [] in o.keys
    case _ => false
  }

  lemma MatchesEmpty(op: WhereOperator, o: PathQuery.Operands)
    requires WellFormed(op, o)
    ensures Matches(op, o, []) <==> AdmitsEmpty(op, o)
  {
  }

  /** No clause on regular operands is satisfied by null. */
  lemma NullSatisfiesNothing(t: FieldType, c: WhereClause)
    requires RegularOperands(t, c)
    ensures !Satisfies(c.operator, c.value, Null)
  {
  }

  /** The clause finds a document that has no value in its field. */
  ghost predicate Misled(t: FieldType, c: WhereClause, doc: Document)
    requires Operands(t, c).Ok?
  {
    Vacant(doc, c.field) && AdmitsEmpty(c.operator, Operands(t, c).value)
  }

  /** The ranges find a document exactly when it satisfies the clause, unless it has no value in the field and
      the clause admits the empty key: then it is found though it does not satisfy the clause. */
  lemma StoredQuery(t: FieldType, c: WhereClause, leftToRight: bool, doc: Document)
    requires RegularOperands(t, c) && Operands(t, c).Ok?
    requires Conforms(c.operator, Operands(t, c).value, None, leftToRight)
    requires Vacant(doc, c.field) || (Regular(t, doc[c.field]) && OperandsApart(t, c, doc[c.field]))
    ensures var items := Items(c.operator, Operands(t, c).value, None, leftToRight);
            var found := Selects(items, StoredKey(t, doc, c.field));
            (found <==> Holds(c, doc) || Misled(t, c, doc)) &&
            ((found <==> Holds(c, doc)) <==> !Misled(t, c, doc))
  {
    if Vacant(doc, c.field) {
      ConformingQuery(c.operator, Operands(t, c).value, None, leftToRight, []);
      MatchesEmpty(c.operator, Operands(t, c).value);
      NullSatisfiesNothing(t, c);
    } else {
      TypedQuery(t, c, None, leftToRight, doc[c.field]);
    }
  }

  /** None of the operands is kept under the empty key. */
  predicate KeysNotEmpty(o: PathQuery.Operands)
  {
    match o
    case Single(key) => key != []
    case Bounds(left, right) => left != [] && right != []
    case Keys(keys) => [] !in keys
  }

  /** With such operands it is the upper bounds that find documents without a value, and nothing else. */
  lemma UpperBoundsAdmitEmpty(op: WhereOperator, o: PathQuery.Operands)
    requires WellFormed(op, o) && KeysNotEmpty(o)
    ensures AdmitsEmpty(op, o) <==> op in {LessThan, LessThanOrEquals}
  {
  }

  /** Ages under five find a document without an age. */
  lemma AgelessFound()
    ensures var c := WhereClause("age", LessThan, Integer(5));
            Operands(IntegerField, c).Ok? && !Holds(c, map[]) &&
            Selects(Items(LessThan, Operands(IntegerField, c).value, None, true), StoredKey(IntegerField, map[], "age"))
  {
    var c := WhereClause("age", LessThan, Integer(5));
    assert Regular(IntegerField, Integer(5));
    StoredQuery(IntegerField, c, true, map[]);
  }

  /** A comparison with null itself, whose key is empty: equality and an upper bound find the documents kept
      under the empty key, a strict lower bound all others, a lower bound everything, a strict upper bound
      nothing. */
  lemma NullOperand(t: FieldType, op: WhereOperator, leftToRight: bool, k: Bytes)
    requires op in {Equal, GreaterThan, GreaterThanOrEquals, LessThan, LessThanOrEquals}
    ensures var operands := Operands(t, WhereClause("", op, Null));
            operands.Ok? &&
            (Selects(Items(op, operands.value, None, leftToRight), k) <==>
             match op
             case Equal | LessThanOrEquals => k == []
             case GreaterThan => k != []
             case GreaterThanOrEquals => true
             case _ => false)
  {
    var o := Operands(t, WhereClause("", op, Null)).value;
    ConformingQuery(op, o, None, leftToRight, k);
    assert o.key == [];
  }
}

/** From SQL text to key ranges: the stages composed. */
module QueryPipeline {
  import opened Prelude
  import opened Conditions
  import opened SqlClauses
  import opened Grouping
  import opened PathQuery
  import opened FieldQueries

  /** Equal and In on `$id`. */
  predicate IsUngrouped(c: WhereClause)
  {
    !IsGrouped(c)
  }

  /** An accepted condition holds exactly when its groups and its clauses on `$id` do. */
  lemma SqlIsGroups(e: Expr, doc: Document)
    requires Compile(e).Ok? && NoWildcardChar(e) && Group(Compile(e).value).Ok?
    ensures SqlHolds(e, doc) <==>
            GroupsHold(Group(Compile(e).value).value, doc) && AllHold(Filter(Compile(e).value, IsUngrouped), doc)
  {
    CompiledMeaning(e, doc);
    GroupingMeaning(Compile(e).value, doc);
    FilterMembers(Compile(e).value, IsGrouped);
    FilterMembers(Compile(e).value, IsUngrouped);
  }

  /** The clauses of the groups: the equalities, the range and the in clause. */
  predicate InGroups(g: Groups, c: WhereClause)
  {
    c in g.equal.Values || g.range == Some(c) || g.inClause == Some(c)
  }

  lemma GroupsHoldClauses(g: Groups, doc: Document)
    ensures GroupsHold(g, doc) <==> forall c | InGroups(g, c) :: Holds(c, doc)
  {
    forall f | f in g.equal ensures InGroups(g, g.equal[f]) {
    }
    assert g.range.Some? ==> InGroups(g, g.range.value);
    assert g.inClause.Some? ==> InGroups(g, g.inClause.value);
  }

  /** The clause's field has a type, its operands are regular values of it, and so is the document's value,
      if it has one, apart from the operands. */
  ghost predicate Answerable(types: map<string, FieldType>, c: WhereClause, leftToRight: bool, doc: Document)
  {
    c.field in types &&
    var t := types[c.field];
    RegularOperands(t, c) && FieldQueries.Operands(t, c).Ok? &&
    Conforms(c.operator, FieldQueries.Operands(t, c).value, None, leftToRight) &&
    (Vacant(doc, c.field) || (Regular(t, doc[c.field]) && OperandsApart(t, c, doc[c.field])))
  }

  /** The key under which the document is kept is in the ranges compiled for the clause. */
  ghost predicate KeySelected(types: map<string, FieldType>, c: WhereClause, leftToRight: bool, doc: Document)
    requires Answerable(types, c, leftToRight, doc)
  {
    var t := types[c.field];
    Selects(Items(c.operator, FieldQueries.Operands(t, c).value, None, leftToRight), StoredKey(t, doc, c.field))
  }

  /** Every clause of the groups selects the document's key for its field, and the clauses on `$id` hold. */
  ghost predicate Found(e: Expr, types: map<string, FieldType>, leftToRight: bool, doc: Document)
    requires Compile(e).Ok? && Group(Compile(e).value).Ok?
    requires forall c | InGroups(Group(Compile(e).value).value, c) :: Answerable(types, c, leftToRight, doc)
  {
    (forall c | InGroups(Group(Compile(e).value).value, c) :: KeySelected(types, c, leftToRight, doc)) &&
    AllHold(Filter(Compile(e).value, IsUngrouped), doc)
  }

  /** One of the clauses finds a document that has no value in its field. */
  ghost predicate SomeMisled(e: Expr, types: map<string, FieldType>, leftToRight: bool, doc: Document)
    requires Compile(e).Ok? && Group(Compile(e).value).Ok?
    requires forall c | InGroups(Group(Compile(e).value).value, c) :: Answerable(types, c, leftToRight, doc)
  {
    exists c | InGroups(Group(Compile(e).value).value, c) ::
      Answerable(types, c, leftToRight, doc) && Misled(types[c.field], c, doc)
  }

  /** A document satisfies a condition on typed fields when and only when it is found by the key ranges of the
      equalities, the range and the in clause, field by field, and by none of them for want of a value. So the
      ranges miss nothing, and are wrong exactly about documents found in that way. */
  lemma SqlIsKeyRanges(e: Expr, types: map<string, FieldType>, leftToRight: bool, doc: Document)
    requires Compile(e).Ok? && NoWildcardChar(e) && Group(Compile(e).value).Ok?
    requires forall c | InGroups(Group(Compile(e).value).value, c) :: Answerable(types, c, leftToRight, doc)
    ensures SqlHolds(e, doc) <==> Found(e, types, leftToRight, doc) && !SomeMisled(e, types, leftToRight, doc)
  {
    var g := Group(Compile(e).value).value;
    SqlIsGroups(e, doc);
    GroupsHoldClauses(g, doc);
    forall c | InGroups(g, c)
      ensures KeySelected(types, c, leftToRight, doc) <==> Holds(c, doc) || Misled(types[c.field], c, doc)
      ensures Holds(c, doc) ==> !Misled(types[c.field], c, doc)
    {
      StoredQuery(types[c.field], c, leftToRight, doc);
    }
  }
}
