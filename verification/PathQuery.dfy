/** From one clause, a direction and a start cursor to key ranges: `to_path_query`. */
module PathQuery {
  import opened Prelude
  import opened ByteOrder
  import opened Values
  import opened Conditions

  /** The items a GroveDB query is made of, one per `insert_*` call. */
  datatype QueryItem =
    | Key(key: Bytes)
    | Range(from: Bytes, to: Bytes)
    | RangeInclusive(from: Bytes, to: Bytes)
    | RangeFrom(from: Bytes)
    | RangeTo(to: Bytes)
    | RangeToInclusive(to: Bytes)
    | RangeAfter(from: Bytes)
    | RangeAfterTo(from: Bytes, to: Bytes)
    | RangeAfterToInclusive(from: Bytes, to: Bytes)

  predicate Admits(item: QueryItem, k: Bytes)
  {
    match item
    case Key(key) => k == key
    case Range(from, to) => Le(from, k) && Lt(k, to)
    case RangeInclusive(from, to) => Le(from, k) && Le(k, to)
    case RangeFrom(from) => Le(from, k)
    case RangeTo(to) => Lt(k, to)
    case RangeToInclusive(to) => Le(k, to)
    case RangeAfter(from) => Lt(from, k)
    case RangeAfterTo(from, to) => Lt(from, k) && Lt(k, to)
    case RangeAfterToInclusive(from, to) => Lt(from, k) && Le(k, to)
  }

  /** A query selects the keys that one of its items admits. */
  predicate Selects(items: seq<QueryItem>, k: Bytes)
  {
    exists item | item in items :: Admits(item, k)
  }

  /** The start document's key for the field, and whether that key itself is wanted. */
  datatype Cursor = Cursor(key: Bytes, included: bool)

  /** The serialized operands of a clause. */
  datatype Operands =
    | Single(key: Bytes)
    | Bounds(left: Bytes, right: Bytes)
    | Keys(keys: seq<Bytes>)

  predicate WellFormed(op: WhereOperator, o: Operands)
  {
    match op
    case Between | BetweenExcludeBounds | BetweenExcludeLeft | BetweenExcludeRight => o.Bounds?
    case In => o.Keys?
    case StartsWith => o.Single? && o.key != []
    case _ => o.Single?
  }

  // ---------- What a clause asks for ----------

  predicate Matches(op: WhereOperator, o: Operands, k: Bytes)
    requires WellFormed(op, o)
  {
    match op
    case Equal => k == o.key
    case GreaterThan => Lt(o.key, k)
    case GreaterThanOrEquals => Le(o.key, k)
    case LessThan => Lt(k, o.key)
    case LessThanOrEquals => Le(k, o.key)
    case Between => Le(o.left, k) && Le(k, o.right)
    case BetweenExcludeBounds => Lt(o.left, k) && Lt(k, o.right)
    case BetweenExcludeLeft => Lt(o.left, k) && Le(k, o.right)
    case BetweenExcludeRight => Le(o.left, k) && Lt(k, o.right)
    case In => k in o.keys
    case StartsWith => o.key <= k
  }

  predicate Before(leftToRight: bool, a: Bytes, b: Bytes)
  {
    if leftToRight then Lt(a, b) else Lt(b, a)
  }

  /** `k` is still to come when a scan resumes at the cursor. */
  predicate Past(c: Option<Cursor>, leftToRight: bool, k: Bytes)
  {
    c.Some? ==> Before(leftToRight, c.value.key, k) || (c.value.included && k == c.value.key)
  }

  predicate Wanted(op: WhereOperator, o: Operands, c: Option<Cursor>, leftToRight: bool, k: Bytes)
    requires WellFormed(op, o)
  {
    Matches(op, o, k) && Past(c, leftToRight, k)
  }

  // ---------- What the compiler inserts ----------

  function PointItems(key: Bytes, c: Option<Cursor>, leftToRight: bool): seq<QueryItem>
  {
    match c
    case None => [Key(key)]
    case Some(Cursor(s, included)) =>
      if (leftToRight && Lt(s, key)) || (!leftToRight && Lt(key, s)) || (included && s == key) then [Key(key)] else []
  }

  function GreaterThanItems(key: Bytes, c: Option<Cursor>, leftToRight: bool): seq<QueryItem>
  {
    match c
    case None => [RangeAfter(key)]
    case Some(Cursor(s, included)) =>
      if leftToRight then
        if Le(s, key) then [RangeAfter(key)]
        else if included then [RangeFrom(s)]
        else [RangeAfter(s)]
      else if Lt(key, s) then
        if included then [RangeAfterToInclusive(key, s)] else [RangeAfterTo(key, s)]
      else []
  }

  function GreaterThanOrEqualsItems(key: Bytes, c: Option<Cursor>, leftToRight: bool): seq<QueryItem>
  {
    match c
    case None => [RangeFrom(key)]
    case Some(Cursor(s, included)) =>
      if leftToRight then
        if Lt(s, key) || (included && s == key) then [RangeFrom(key)]
        else if included then [RangeFrom(s)]
        else [RangeAfter(s)]
      else if Lt(key, s) then
        if included then [RangeInclusive(key, s)] else [Range(key, s)]
      else if included && s == key then [Key(key)]
      else []
  }

  function LessThanItems(key: Bytes, c: Option<Cursor>, leftToRight: bool): seq<QueryItem>
  {
    match c
    case None => [RangeTo(key)]
    case Some(Cursor(s, included)) =>
      if leftToRight then
        if Lt(s, key) then
          if included then [Range(key, s)] else [RangeAfterTo(key, s)]
        else []
      else if Lt(key, s) then [RangeTo(key)]
      else if included then [RangeToInclusive(s)]
      else [RangeTo(s)]
  }

  function LessThanOrEqualsItems(key: Bytes, c: Option<Cursor>, leftToRight: bool): seq<QueryItem>
  {
    match c
    case None => [RangeToInclusive(key)]
    case Some(Cursor(s, included)) =>
      if leftToRight then
        if included && s == key then [Key(key)]
        else if Lt(s, key) then
          if included then [RangeInclusive(key, s)] else [RangeAfterToInclusive(key, s)]
        else []
      else if Lt(key, s) || (included && s == key) then [RangeToInclusive(key)]
      else if included then [RangeToInclusive(s)]
      else [RangeTo(s)]
  }

  function BetweenItems(left: Bytes, right: Bytes, c: Option<Cursor>, leftToRight: bool): seq<QueryItem>
  {
    match c
    case None => [RangeInclusive(left, right)]
    case Some(Cursor(s, included)) =>
      if leftToRight then
        if Lt(s, left) || (included && s == left) then [RangeInclusive(left, right)]
        else if s == left then [RangeAfterToInclusive(left, right)]
        else if Lt(left, s) && Lt(s, right) then
          if included then [RangeInclusive(s, right)] else [RangeAfterToInclusive(s, right)]
        else if s == right && included then [Key(right)]
        else []
      else if Lt(right, s) || (included && s == right) then [RangeInclusive(left, right)]
      else if s == right then [Range(left, right)]
      else if Lt(left, s) && Lt(s, right) then
        if included then [RangeInclusive(left, s)] else [Range(left, s)]
      else if s == left && included then [Key(left)]
      else []
  }

  function ExcludeBoundsItems(left: Bytes, right: Bytes, c: Option<Cursor>, leftToRight: bool): seq<QueryItem>
  {
    match c
    case None => [RangeAfterTo(left, right)]
    case Some(Cursor(s, included)) =>
      if leftToRight then
        if Le(s, left) then [RangeAfterTo(left, right)]
        else if Lt(left, s) && Lt(s, right) then
          if included then [Range(s, right)] else [RangeAfterTo(s, right)]
        else []
      else if Lt(right, s) then [RangeInclusive(left, right)]
      else if s == right then [Range(left, right)]
      else if Lt(left, s) && Lt(s, right) then
        if included then [RangeAfterToInclusive(left, s)] else [RangeAfterTo(left, s)]
      else []
  }

  function ExcludeLeftItems(left: Bytes, right: Bytes, c: Option<Cursor>, leftToRight: bool): seq<QueryItem>
  {
    match c
    case None => [RangeAfterToInclusive(left, right)]
    case Some(Cursor(s, included)) =>
      if leftToRight then
        if Le(s, left) then [RangeAfterToInclusive(left, right)]
        else if Lt(left, s) && Lt(s, right) then
          if included then [RangeInclusive(s, right)] else [RangeAfterToInclusive(s, right)]
        else if s == right && included then [Key(right)]
        else []
      else if Lt(right, s) || (included && s == right) then [RangeAfterToInclusive(left, right)]
      else if Lt(left, s) && Lt(s, right) then
        if included then [RangeInclusive(left, s)] else [Range(left, s)]
      else []
  }

  /** Also the shape of a prefix clause, whose right bound is the prefix with its last byte raised. */
  function ExcludeRightItems(left: Bytes, right: Bytes, c: Option<Cursor>, leftToRight: bool): seq<QueryItem>
  {
    match c
    case None => [Range(left, right)]
    case Some(Cursor(s, included)) =>
      if leftToRight then
        if Lt(s, left) || (included && s == left) then [Range(left, right)]
        else if s == left then [RangeAfterTo(left, right)]
        else if Lt(left, s) && Lt(s, right) then
          if included then [Range(s, right)] else [RangeAfterTo(s, right)]
        else []
      else if Le(right, s) then [Range(left, right)]
      else if Lt(left, s) && Lt(s, right) then
        if included then [RangeInclusive(left, s)] else [Range(left, s)]
      else if s == left && included then [Key(left)]
      else []
  }

  /** `*last_char += 1` on a byte: 255 wraps to 0, as it does without overflow checks. */
  function RaiseLast(p: Bytes): Bytes
    requires p != []
  {
    p[|p| - 1 := if p[|p| - 1] == 255 then 0 else p[|p| - 1] + 1]
  }

  function InItems(keys: seq<Bytes>, c: Option<Cursor>, leftToRight: bool): seq<QueryItem>
  {
    if keys == [] then [] else PointItems(keys[0], c, leftToRight) + InItems(keys[1..], c, leftToRight)
  }

  function Items(op: WhereOperator, o: Operands, c: Option<Cursor>, leftToRight: bool): seq<QueryItem>
    requires WellFormed(op, o)
  {
    match op
    case Equal => PointItems(o.key, c, leftToRight)
    case In => InItems(o.keys, c, leftToRight)
    case GreaterThan => GreaterThanItems(o.key, c, leftToRight)
    case GreaterThanOrEquals => GreaterThanOrEqualsItems(o.key, c, leftToRight)
    case LessThan => LessThanItems(o.key, c, leftToRight)
    case LessThanOrEquals => LessThanOrEqualsItems(o.key, c, leftToRight)
    case Between => BetweenItems(o.left, o.right, c, leftToRight)
    case BetweenExcludeBounds => ExcludeBoundsItems(o.left, o.right, c, leftToRight)
    case BetweenExcludeLeft => ExcludeLeftItems(o.left, o.right, c, leftToRight)
    case BetweenExcludeRight => ExcludeRightItems(o.left, o.right, c, leftToRight)
    case StartsWith => ExcludeRightItems(o.key, RaiseLast(o.key), c, leftToRight)
  }

  // ---------- The whole of to_path_query ----------

  /** The document type's key serializer for the clause's field. */
  type Serializer = Value -> Option<Bytes>

  function SerializeAll(values: seq<Value>, serialize: Serializer): Result<seq<Bytes>, QueryError>
  {
    if values == [] then Ok([])
    else if serialize(values[0]).None? then Err(SerializationFailed)
    else
      var rest :- SerializeAll(values[1..], serialize);
      Ok([serialize(values[0]).value] + rest)
  }

  /** The operands of a clause, or the error its value earns. */
  function Resolve(clause: WhereClause, serialize: Serializer): (r: Result<Operands, QueryError>)
    ensures r.Ok? ==> WellFormed(clause.operator, r.value)
  {
    match clause.operator
    case In =>
      var values :- InValues(clause);
      var keys :- SerializeAll(values, serialize);
      Ok(Keys(keys))
    case Between | BetweenExcludeBounds | BetweenExcludeLeft | BetweenExcludeRight =>
      if !IsPair(clause.value) then Err(InvalidBetweenClause)
      else
        var left, right := serialize(clause.value.items[0]), serialize(clause.value.items[1]);
        if left.None? || right.None? then Err(SerializationFailed) else Ok(Bounds(left.value, right.value))
    case StartsWith =>
      var key := serialize(clause.value);
      if key.None? then Err(SerializationFailed)
      else if key.value == [] then Err(InvalidStartsWithClause)
      else Ok(Single(key.value))
    case _ =>
      var key := serialize(clause.value);
      if key.None? then Err(SerializationFailed) else Ok(Single(key.value))
  }

  lemma {:induction false} SerializedAll(values: seq<Value>, serialize: Serializer)
    ensures var r := SerializeAll(values, serialize);
            if forall v | v in values :: serialize(v).Some? then
              r.Ok? && |r.value| == |values| && forall i | 0 <= i < |values| :: Some(r.value[i]) == serialize(values[i])
            else r == Err(SerializationFailed)
  {
    if values == [] {
    } else {
      SerializedAll(values[1..], serialize);
      assert values == [values[0]] + values[1..];
    }
  }

  /** The serialized operands of each kind of clause, in their places, and the error each defect earns: a value
      that does not serialize, an in clause that is not a proper list, bounds that are not a pair, an empty
      prefix. */
  lemma Resolved(clause: WhereClause, serialize: Serializer)
    ensures var r := Resolve(clause, serialize);
            match clause.operator
            case In =>
              if InValues(clause).Err? then r == Err(InvalidInClause)
              else if exists v | v in clause.value.items :: serialize(v).None? then r == Err(SerializationFailed)
              else
                r.Ok? && |r.value.keys| == |clause.value.items| &&
                forall i | 0 <= i < |r.value.keys| :: Some(r.value.keys[i]) == serialize(clause.value.items[i])
            case Between | BetweenExcludeBounds | BetweenExcludeLeft | BetweenExcludeRight =>
              if !clause.value.Array? || |clause.value.items| != 2 then r == Err(InvalidBetweenClause)
              else if exists v | v in clause.value.items :: serialize(v).None? then r == Err(SerializationFailed)
              else
                r.Ok? && Some(r.value.left) == serialize(clause.value.items[0]) &&
                Some(r.value.right) == serialize(clause.value.items[1])
            case op =>
              if serialize(clause.value).None? then r == Err(SerializationFailed)
              else if op == StartsWith && serialize(clause.value) == Some([]) then r == Err(InvalidStartsWithClause)
              else r.Ok? && Some(r.value.key) == serialize(clause.value)
  {
    if clause.operator == In && InValues(clause).Ok? {
      SerializedAll(clause.value.items, serialize);
    }
  }

  /** The loop over the values of an in clause, which stops at the first that does not serialize. */
  method InQuery(values: seq<Value>, serialize: Serializer, cursor: Option<Cursor>, leftToRight: bool)
    returns (r: Result<seq<QueryItem>, QueryError>)
    ensures r.Ok? <==> SerializeAll(values, serialize).Ok?
    ensures r.Ok? ==> r.value == InItems(SerializeAll(values, serialize).value, cursor, leftToRight)
    ensures r.Err? ==> SerializeAll(values, serialize) == Err(r.error)
  {
    var query: seq<QueryItem> := [];
    ghost var keys: seq<Bytes> := [];
    for n := 0 to |values|
      invariant |keys| == n && query == InItems(keys, cursor, leftToRight)
      invariant forall i | 0 <= i < n :: serialize(values[i]) == Some(keys[i])
    {
      var key := serialize(values[n]);
      if key.None? {
        SerializedAll(values, serialize);
        return Err(SerializationFailed);
      }
      InItemsAppend(keys, key.value, cursor, leftToRight);
      query := query + PointItems(key.value, cursor, leftToRight);
      keys := keys + [key.value];
    }
    SerializedAll(values, serialize);
    assert keys == SerializeAll(values, serialize).value;
    return Ok(query);
  }

  /** `startAt` is the outcome of reading the start document's key: it may fail, or find none. */
  method ToPathQuery(
    clause: WhereClause, serialize: Serializer, startAt: Result<Option<Cursor>, QueryError>, leftToRight: bool)
    returns (r: Result<seq<QueryItem>, QueryError>)
    ensures r == if startAt.Err? then Err(startAt.error) else if Resolve(clause, serialize).Err? then
                   Err(Resolve(clause, serialize).error)
                 else Ok(Items(clause.operator, Resolve(clause, serialize).value, startAt.value, leftToRight))
  {
    var cursor :- startAt;
    if clause.operator == In {
      var inValues :- InValues(clause);
      r := InQuery(inValues, serialize, cursor, leftToRight);
      return;
    }
    var operands :- Resolve(clause, serialize);
    return Ok(Items(clause.operator, operands, cursor, leftToRight));
  }

  lemma {:induction false} InItemsAppend(keys: seq<Bytes>, key: Bytes, c: Option<Cursor>, leftToRight: bool)
    ensures InItems(keys + [key], c, leftToRight) == InItems(keys, c, leftToRight) + PointItems(key, c, leftToRight)
  {
    if keys == [] {
      assert (keys + [key])[1..] == [];
    } else {
      InItemsAppend(keys[1..], key, c, leftToRight);
      assert (keys + [key])[0] == keys[0] && (keys + [key])[1..] == keys[1..] + [key];
      var x, z := PointItems(keys[0], c, leftToRight), PointItems(key, c, leftToRight);
      var y := InItems(keys[1..], c, leftToRight);
      assert x + (y + z) == (x + y) + z;
    }
  }

  // ---------- When the ranges are what the clause asks for ----------

  /** Everything a caller must avoid to get exactly the wanted keys. */
  predicate Conforms(op: WhereOperator, o: Operands, c: Option<Cursor>, leftToRight: bool)
    requires WellFormed(op, o)
  {
    match op
    case LessThan =>
      c.None? ||
      if leftToRight then !Lt(c.value.key, o.key) || (!c.value.included && o.key == c.value.key + [0])
      else !(c.value.included && c.value.key == o.key)
    case LessThanOrEquals => c.None? || !leftToRight || !Lt(c.value.key, o.key)
    case BetweenExcludeBounds =>
      c.None? || leftToRight ||
      !((Lt(o.right, c.value.key) && Le(o.left, o.right)) || (c.value.key == o.right && Lt(o.left, o.right)))
    case BetweenExcludeLeft =>
      c.None? || leftToRight ||
      !((Lt(o.left, c.value.key) && Lt(c.value.key, o.right)) ||
        (!c.value.included && c.value.key == o.right && Lt(o.left, o.right) && o.right != o.left + [0]))
    case StartsWith =>
      o.key[|o.key| - 1] < 255 ||
      (c.Some? &&
       if leftToRight then Lt(o.key, c.value.key) && !(o.key <= c.value.key)
       else Lt(c.value.key, o.key) || (c.value.key == o.key && !c.value.included))
    case _ => true
  }

  lemma SelectsOne(item: QueryItem, k: Bytes)
    ensures Selects([item], k) <==> Admits(item, k)
    ensures !Selects([], k)
  {
    assert item in [item];
  }

  lemma {:induction false} InSelects(keys: seq<Bytes>, c: Option<Cursor>, leftToRight: bool, k: Bytes)
    ensures Selects(InItems(keys, c, leftToRight), k) <==> k in keys && Past(c, leftToRight, k)
  {
    if keys == [] {
    } else {
      InSelects(keys[1..], c, leftToRight, k);
      PointSelects(keys[0], c, leftToRight, k);
      assert keys == [keys[0]] + keys[1..];
    }
  }

  lemma PointSelects(key: Bytes, c: Option<Cursor>, leftToRight: bool, k: Bytes)
    ensures Selects(PointItems(key, c, leftToRight), k) <==> k == key && Past(c, leftToRight, k)
  {
    SelectsOne(Key(key), k);
  }

  /** An empty or one-item query, told apart without naming its items. */
  predicate Only(items: seq<QueryItem>, k: Bytes)
  {
    |items| == 1 && Admits(items[0], k)
  }

  lemma SelectsOnly(items: seq<QueryItem>, k: Bytes)
    requires |items| <= 1
    ensures Selects(items, k) <==> Only(items, k)
  {
    if |items| == 1 {
      assert items == [items[0]];
      SelectsOne(items[0], k);
    }
  }

  /** The order facts about a key and up to three others. */
  lemma Ordered(k: Bytes, l: Bytes, r: Bytes, s: Bytes)
    ensures Sorts(k, l, r) && Sorts(k, l, s) && Sorts(k, r, s) && Sorts(l, r, s)
  {
    Sorted(k, l, r);
    Sorted(k, l, s);
    Sorted(k, r, s);
    Sorted(l, r, s);
  }

  lemma Sorted(a: Bytes, b: Bytes, c: Bytes)
    ensures Sorts(a, b, c)
  {
    Trichotomy(a, b);
    Trichotomy(b, a);
    Trichotomy(a, c);
    Trichotomy(c, a);
    Trichotomy(b, c);
    Trichotomy(c, b);
    Chain(a, b, c);
    Chain(a, c, b);
    Chain(b, a, c);
    Chain(b, c, a);
    Chain(c, a, b);
    Chain(c, b, a);
  }

  predicate Sorts(a: Bytes, b: Bytes, c: Bytes)
  {
    Distinguished(a, b) && Distinguished(a, c) && Distinguished(b, c) &&
    Chains(a, b, c) && Chains(a, c, b) && Chains(b, a, c) && Chains(b, c, a) && Chains(c, a, b) && Chains(c, b, a)
  }

  predicate Distinguished(a: Bytes, b: Bytes)
  {
    (Lt(a, b) || a == b || Lt(b, a)) && !(Lt(a, b) && a == b) && !(Lt(b, a) && a == b) && !(Lt(a, b) && Lt(b, a))
  }

  predicate Chains(a: Bytes, b: Bytes, c: Bytes)
  {
    Lt(a, b) && Lt(b, c) ==> Lt(a, c)
  }

  lemma SingleKeyQuery(op: WhereOperator, o: Operands, c: Option<Cursor>, leftToRight: bool, k: Bytes)
    requires op in {Equal, GreaterThan, GreaterThanOrEquals, LessThan, LessThanOrEquals}
    requires WellFormed(op, o) && Conforms(op, o, c, leftToRight)
    ensures Only(Items(op, o, c, leftToRight), k) <==> Wanted(op, o, c, leftToRight, k)
  {
    if c.Some? {
      Ordered(k, o.key, o.key, c.value.key);
      NothingBetween(c.value.key, k);
    }
  }

  lemma BetweenQuery(op: WhereOperator, o: Operands, c: Option<Cursor>, leftToRight: bool, k: Bytes)
    requires op in {Between, BetweenExcludeRight}
    requires WellFormed(op, o) && Conforms(op, o, c, leftToRight)
    ensures Only(Items(op, o, c, leftToRight), k) <==> Wanted(op, o, c, leftToRight, k)
  {
    if c.Some? {
      Ordered(k, o.left, o.right, c.value.key);
    }
  }

  lemma ExcludeLeftQuery(op: WhereOperator, o: Operands, c: Option<Cursor>, leftToRight: bool, k: Bytes)
    requires op in {BetweenExcludeBounds, BetweenExcludeLeft}
    requires WellFormed(op, o) && Conforms(op, o, c, leftToRight)
    ensures Only(Items(op, o, c, leftToRight), k) <==> Wanted(op, o, c, leftToRight, k)
  {
    if c.Some? {
      Ordered(k, o.left, o.right, c.value.key);
      NothingBetween(o.left, k);
    }
  }

  lemma PrefixQuery(o: Operands, c: Option<Cursor>, leftToRight: bool, k: Bytes)
    requires WellFormed(StartsWith, o) && Conforms(StartsWith, o, c, leftToRight)
    ensures Only(Items(StartsWith, o, c, leftToRight), k) <==> Wanted(StartsWith, o, c, leftToRight, k)
  {
    var right := RaiseLast(o.key);
    Ordered(k, o.key, right, if c.Some? then c.value.key else k);
    if o.key[|o.key| - 1] < 255 {
      assert right == PrefixEnd(o.key);
      PrefixInterval(o.key, k);
    } else {
      WrappedPrefix(o, c, leftToRight, k);
      if leftToRight && o.key <= k {
        BeyondPrefix(o.key, c.value.key, k);
      }
    }
  }

  /** A string above a prefix that does not start with it is above everything that does. */
  lemma {:induction false} BeyondPrefix(p: Bytes, s: Bytes, k: Bytes)
    requires Lt(p, s) && !(p <= s) && p <= k
    ensures Lt(k, s)
  {
    if p != [] && p[0] == s[0] {
      assert p == [p[0]] + p[1..] && s == [s[0]] + s[1..] && k == [k[0]] + k[1..];
      BeyondPrefix(p[1..], s[1..], k[1..]);
    }
  }

  /** Where the source conforms it selects exactly the wanted keys, for every operator, direction and cursor. */
  lemma ConformingQuery(op: WhereOperator, o: Operands, c: Option<Cursor>, leftToRight: bool, k: Bytes)
    requires WellFormed(op, o) && Conforms(op, o, c, leftToRight)
    ensures Selects(Items(op, o, c, leftToRight), k) <==> Wanted(op, o, c, leftToRight, k)
  {
    if op == In {
      InSelects(o.keys, c, leftToRight, k);
    } else {
      SelectsOnly(Items(op, o, c, leftToRight), k);
      if op == StartsWith {
        PrefixQuery(o, c, leftToRight, k);
      } else if op in {Between, BetweenExcludeRight} {
        BetweenQuery(op, o, c, leftToRight, k);
      } else if op in {BetweenExcludeBounds, BetweenExcludeLeft} {
        ExcludeLeftQuery(op, o, c, leftToRight, k);
      } else {
        SingleKeyQuery(op, o, c, leftToRight, k);
      }
    }
  }

  /** Raising a last byte of 255 wraps it, and the range comes out empty. */
  lemma WrappedPrefix(o: Operands, c: Option<Cursor>, leftToRight: bool, k: Bytes)
    requires WellFormed(StartsWith, o) && o.key[|o.key| - 1] == 255
    ensures !Only(Items(StartsWith, o, c, leftToRight), k)
    ensures o.key <= k ==> Le(o.key, k)
  {
    PrefixAtMost(o.key, k);
    WrappedBelow(o.key);
    EmptyRange(o.key, RaiseLast(o.key), c, leftToRight, k);
  }

  lemma PrefixAtMost(p: Bytes, k: Bytes)
    ensures p <= k ==> Le(p, k)
  {
    if p <= k {
      assert p + [] == p && p + k[|p|..] == k;
      CommonPrefix(p, [], k[|p|..]);
    }
  }

  lemma WrappedBelow(p: Bytes)
    requires p != [] && p[|p| - 1] == 255
    ensures Lt(RaiseLast(p), p)
  {
    assert p == p[..|p| - 1] + [255] && RaiseLast(p) == p[..|p| - 1] + [0];
    CommonPrefix(p[..|p| - 1], [0], [255]);
  }

  /** A range whose right bound is below its left one admits nothing, wherever the cursor is. */
  lemma EmptyRange(left: Bytes, right: Bytes, c: Option<Cursor>, leftToRight: bool, k: Bytes)
    requires Lt(right, left)
    ensures !Only(ExcludeRightItems(left, right, c, leftToRight), k)
  {
    Sorted(k, left, right);
    if c.Some? {
      Sorted(left, right, c.value.key);
      Sorted(k, right, c.value.key);
    }
  }

  /** Everywhere else some key is selected that is not wanted, or wanted and not selected. */
  lemma DeviatingQuery(op: WhereOperator, o: Operands, c: Option<Cursor>, leftToRight: bool) returns (k: Bytes)
    requires WellFormed(op, o) && !Conforms(op, o, c, leftToRight)
    ensures Selects(Items(op, o, c, leftToRight), k) != Wanted(op, o, c, leftToRight, k)
  {
    if op == StartsWith {
      k := DeviatingPrefix(o, c, leftToRight);
    } else {
      var s, included := c.value.key, c.value.included;
      if op == BetweenExcludeBounds || (op == BetweenExcludeLeft && Lt(s, o.right)) {
        k := o.left;
        Ordered(k, o.left, o.right, s);
      } else if op == BetweenExcludeLeft {
        k := o.left + [0];
        NothingBetween(o.left, k);
        SomethingBetween(o.left, o.right);
        Ordered(k, o.left, o.right, s);
      } else if op == LessThan && leftToRight && !included {
        k := s + [0];
        NothingBetween(s, k);
        SomethingBetween(s, o.key);
        Ordered(k, o.key, o.key, s);
      } else {
        k := if op == LessThan then s else o.key;
        Ordered(k, o.key, o.key, s);
      }
    }
    SelectsOnly(Items(op, o, c, leftToRight), k);
  }

  lemma DeviatingPrefix(o: Operands, c: Option<Cursor>, leftToRight: bool) returns (k: Bytes)
    requires WellFormed(StartsWith, o) && !Conforms(StartsWith, o, c, leftToRight)
    ensures !Only(Items(StartsWith, o, c, leftToRight), k) && Wanted(StartsWith, o, c, leftToRight, k)
  {
    k := o.key;
    if c.Some? {
      Trichotomy(o.key, c.value.key);
      if leftToRight && !Lt(c.value.key, o.key) {
        k := c.value.key + [0];
        NothingBetween(c.value.key, k);
      }
    }
    WrappedPrefix(o, c, leftToRight, k);
  }

  /** What is selected where the source does not conform: left to right under an upper bound nothing; right to
      left, under a strict upper bound at its included cursor that bound too, between excluded bounds the left
      bound too and, when the cursor is past the right bound, that one too, and after an excluded left bound
      that bound too when the cursor lies between the bounds, but nothing when it is excluded at the right one;
      for a prefix that wraps nothing. */
  predicate Mistaken(op: WhereOperator, o: Operands, c: Option<Cursor>, leftToRight: bool, k: Bytes)
    requires WellFormed(op, o) && !Conforms(op, o, c, leftToRight)
  {
    match op
    case LessThan => !leftToRight && Le(k, o.key)
    case BetweenExcludeBounds => Le(o.left, k) && if c.value.key == o.right then Lt(k, o.right) else Le(k, o.right)
    case BetweenExcludeLeft => Lt(c.value.key, o.right) && Le(o.left, k) && Past(c, false, k)
    case _ => false
  }

  lemma MistakenUpper(op: WhereOperator, o: Operands, c: Option<Cursor>, leftToRight: bool, k: Bytes)
    requires op in {LessThan, LessThanOrEquals} && WellFormed(op, o) && !Conforms(op, o, c, leftToRight)
    ensures Only(Items(op, o, c, leftToRight), k) <==> Mistaken(op, o, c, leftToRight, k)
  {
    Sorted(k, o.key, c.value.key);
  }

  lemma MistakenBetween(op: WhereOperator, o: Operands, c: Option<Cursor>, leftToRight: bool, k: Bytes)
    requires op in {BetweenExcludeBounds, BetweenExcludeLeft} && WellFormed(op, o) && !Conforms(op, o, c, leftToRight)
    ensures Only(Items(op, o, c, leftToRight), k) <==> Mistaken(op, o, c, leftToRight, k)
  {
    Ordered(k, o.left, o.right, c.value.key);
  }

  /** The keys selected in every case: the wanted ones where the source conforms, elsewhere those above. */
  lemma SelectedExactly(op: WhereOperator, o: Operands, c: Option<Cursor>, leftToRight: bool, k: Bytes)
    requires WellFormed(op, o)
    ensures Selects(Items(op, o, c, leftToRight), k) <==>
            if Conforms(op, o, c, leftToRight) then Wanted(op, o, c, leftToRight, k)
            else Mistaken(op, o, c, leftToRight, k)
  {
    if Conforms(op, o, c, leftToRight) {
      ConformingQuery(op, o, c, leftToRight, k);
    } else {
      SelectsOnly(Items(op, o, c, leftToRight), k);
      if op == StartsWith {
        WrappedPrefix(o, c, leftToRight, k);
      } else if op in {LessThan, LessThanOrEquals} {
        MistakenUpper(op, o, c, leftToRight, k);
      } else {
        MistakenBetween(op, o, c, leftToRight, k);
      }
    }
  }

  /** Left to right under an upper bound with the cursor below it, the one range inserted is reversed: it runs
      from the bound to the cursor, without the bound when the cursor is excluded, and with the cursor when the
      bound is included. */
  lemma UpperBoundReversed(op: WhereOperator, o: Operands, s: Bytes, included: bool)
    requires op in {LessThan, LessThanOrEquals} && WellFormed(op, o) && Lt(s, o.key)
    ensures var items := Items(op, o, Some(Cursor(s, included)), true);
            |items| == 1 &&
            (if op == LessThan then items[0].Range? || items[0].RangeAfterTo?
             else items[0].RangeInclusive? || items[0].RangeAfterToInclusive?) &&
            (included <==> items[0].Range? || items[0].RangeInclusive?) && items[0].from == o.key && items[0].to == s
  {
    Trichotomy(s, o.key);
  }

  /** The scan of a range operator has passed all it could select when it resumes at the cursor. */
  predicate Exhausted(op: WhereOperator, o: Operands, c: Option<Cursor>, leftToRight: bool)
    requires WellFormed(op, o)
  {
    c.Some? &&
    var s, included := c.value.key, c.value.included;
    match op
    case GreaterThan => !leftToRight && Le(s, o.key)
    case GreaterThanOrEquals => !leftToRight && (Lt(s, o.key) || (s == o.key && !included))
    case LessThan => leftToRight && Le(o.key, s)
    case LessThanOrEquals => leftToRight && (Lt(o.key, s) || (s == o.key && !included))
    case Between =>
      if leftToRight then Lt(o.left, s) && (Lt(o.right, s) || (s == o.right && !included))
      else Lt(s, o.right) && (Lt(s, o.left) || (s == o.left && !included))
    case BetweenExcludeBounds =>
      if leftToRight then Lt(o.left, s) && Le(o.right, s) else Lt(s, o.right) && Le(s, o.left)
    case BetweenExcludeLeft =>
      if leftToRight then Lt(o.left, s) && (Lt(o.right, s) || (s == o.right && !included))
      else (Lt(s, o.right) && Le(s, o.left)) || (s == o.right && !included)
    case BetweenExcludeRight =>
      if leftToRight then Lt(o.left, s) && Le(o.right, s)
      else Lt(s, o.right) && (Lt(s, o.left) || (s == o.left && !included))
    case StartsWith =>
      if leftToRight then Lt(o.key, s) && Le(RaiseLast(o.key), s)
      else Lt(s, RaiseLast(o.key)) && (Lt(s, o.key) || (s == o.key && !included))
    case _ => false
  }

  /** A range operator inserts one item, and none exactly when its scan is exhausted. */
  lemma InsertedUnlessExhausted(op: WhereOperator, o: Operands, c: Option<Cursor>, leftToRight: bool)
    requires WellFormed(op, o) && op !in {Equal, In}
    ensures |Items(op, o, c, leftToRight)| == if Exhausted(op, o, c, leftToRight) then 0 else 1
  {
    if c.Some? {
      match o
      case Single(key) =>
        Sorted(key, c.value.key, RaisedOr(key));
      case Bounds(left, right) => Sorted(left, right, c.value.key);
    }
  }

  function RaisedOr(key: Bytes): Bytes
  {
    if key == [] then key else RaiseLast(key)
  }

  /** The ranges are right for every key exactly when the clause and cursor conform. */
  lemma QueryExactlyWhenConforming(op: WhereOperator, o: Operands, c: Option<Cursor>, leftToRight: bool)
    requires WellFormed(op, o)
    ensures (forall k :: Selects(Items(op, o, c, leftToRight), k) <==> Wanted(op, o, c, leftToRight, k)) <==>
            Conforms(op, o, c, leftToRight)
  {
    if Conforms(op, o, c, leftToRight) {
      forall k ensures Selects(Items(op, o, c, leftToRight), k) <==> Wanted(op, o, c, leftToRight, k) {
        ConformingQuery(op, o, c, leftToRight, k);
      }
    } else {
      var k := DeviatingQuery(op, o, c, leftToRight);
    }
  }
}
