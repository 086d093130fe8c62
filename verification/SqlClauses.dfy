/** From a SQL condition to where clauses: `build_where_clauses_from_operations`. */
module SqlClauses {
  import opened Prelude
  import opened ByteOrder
  import opened KeyEncoding
  import opened Values
  import opened Conditions

  /** Literals of the SQL parser. A number carries what the standard parsers made of its digits. */
  datatype SqlValue =
    | Boolean(b: bool)
    | Number(hasPoint: bool, asFloat: Option<u64>, asInteger: Option<i64>)
    | StringLiteral(utf8: Bytes)
    | OtherLiteral

  datatype SqlOperator = Eq | Gt | GtEq | Lt | LtEq | Like | And | Or | OtherOperator

  datatype Expr =
    | Identifier(name: string)
    | Literal(value: SqlValue)
    | InList(expr: Expr, list: seq<Expr>, negated: bool)
    | BinaryOp(left: Expr, op: SqlOperator, right: Expr)
    | OtherExpr

  function ToCbor(v: SqlValue): Option<Value>
  {
    match v
    case Boolean(b) => Some(Bool(b))
    case Number(true, f, _) => if f.Some? then Some(Float(f.value)) else None
    case Number(false, _, n) => if n.Some? then Some(Integer(n.value)) else None
    case StringLiteral(s) => Some(Text(s))
    case OtherLiteral => None
  }

  // ---------- What SQL says ----------

  const PERCENT: Byte := '%' as int
  const UNDERSCORE: Byte := '_' as int

  /** The bytes of the first character of a UTF-8 text. */
  function CharLen(t: Bytes): (n: nat)
    requires t != []
    ensures 1 <= n <= |t|
  {
    if t[0] < 0xC0 then 1 else 1 + Continuations(t[1..])
  }

  function Continuations(t: Bytes): (n: nat)
    ensures n <= |t|
  {
    if t != [] && 0x80 <= t[0] < 0xC0 then 1 + Continuations(t[1..]) else 0
  }

  /** SQL's LIKE: `%` stands for any text, `_` for any one character, other characters for themselves. */
  predicate LikeMatches(pattern: Bytes, t: Bytes)
    decreases pattern
  {
    if pattern == [] then t == []
    else if pattern[0] == PERCENT then exists n | 0 <= n <= |t| :: LikeMatches(pattern[1..], t[n..])
    else if pattern[0] == UNDERSCORE then t != [] && LikeMatches(pattern[1..], t[CharLen(t)..])
    else t != [] && t[0] == pattern[0] && LikeMatches(pattern[1..], t[1..])
  }

  /** What a literal denotes: a number with a point its double, one without its integer, if it has one. */
  function LiteralValue(v: SqlValue): Option<Value>
  {
    if v.Boolean? then Some(Bool(v.b))
    else if v.StringLiteral? then Some(Text(v.utf8))
    else if v.Number? && v.hasPoint && v.asFloat.Some? then Some(Float(v.asFloat.value))
    else if v.Number? && !v.hasPoint && v.asInteger.Some? then Some(Integer(v.asInteger.value))
    else None
  }

  lemma ToCborDenotes(v: SqlValue)
    ensures ToCbor(v) == LiteralValue(v)
  {
  }

  /** The value of an operand in a document; nothing for a missing field. */
  function Operand(e: Expr, doc: Document): Option<Value>
  {
    match e
    case Identifier(f) => if f in doc then Some(doc[f]) else None
    case Literal(v) => LiteralValue(v)
    case _ => None
  }

  predicate Compares(op: SqlOperator, x: Value, y: Value)
  {
    match op
    case Eq => Values.Eq(x, y)
    case Gt => Less(y, x)
    case GtEq => AtMost(y, x)
    case Lt => Less(x, y)
    case LtEq => AtMost(x, y)
    case Like => x.Text? && y.Text? && LikeMatches(y.utf8, x.utf8)
    case _ => false
  }

  predicate SqlHolds(e: Expr, doc: Document)
  {
    match e
    case BinaryOp(l, And, r) => SqlHolds(l, doc) && SqlHolds(r, doc)
    case BinaryOp(l, Or, r) => SqlHolds(l, doc) || SqlHolds(r, doc)
    case BinaryOp(l, op, r) =>
      Operand(l, doc).Some? && Operand(r, doc).Some? && Compares(op, Operand(l, doc).value, Operand(r, doc).value)
    case InList(x, list, negated) =>
      Operand(x, doc).Some? &&
      (negated <==> !exists y | y in list ::
        Operand(y, doc).Some? && Values.Eq(Operand(x, doc).value, Operand(y, doc).value))
    case _ => false
  }

  // ---------- What the compiler does ----------

  function FromSqlOperator(op: SqlOperator): Option<WhereOperator>
  {
    match op
    case Eq => Some(Equal)
    case Gt => Some(GreaterThan)
    case GtEq => Some(GreaterThanOrEquals)
    case Lt => Some(LessThan)
    case LtEq => Some(LessThanOrEquals)
    case Like => Some(StartsWith)
    case _ => None
  }

  /** A LIKE pattern must be text whose one `%` is its last character. */
  predicate PrefixPattern(p: Bytes)
  {
    p != [] && p[|p| - 1] == PERCENT && PERCENT !in p[..|p| - 1]
  }

  function ClauseValue(op: WhereOperator, literal: SqlValue): Result<Value, QueryError>
  {
    match ToCbor(literal)
    case None => Err(InvalidSQL)
    case Some(v) =>
      if op != StartsWith then Ok(v)
      else if !v.Text? then Err(InvalidStartsWithClause)
      else if PrefixPattern(v.utf8) then Ok(Text(v.utf8[..|v.utf8| - 1]))
      else Err(Unsupported)
  }

  function CompileComparison(left: Expr, op: SqlOperator, right: Expr): Result<WhereClause, QueryError>
  {
    match FromSqlOperator(op)
    case None => Err(Unsupported)
    case Some(operator) =>
      if left.Identifier? && right.Literal? then
        var value :- ClauseValue(operator, right.value);
        Ok(WhereClause(left.name, operator, value))
      else if right.Identifier? && left.Literal? then
        var flipped :- Flip(operator);
        var value :- ClauseValue(flipped, left.value);
        Ok(WhereClause(right.name, flipped, value))
      else Err(InvalidSQL)
  }

  function CompileList(list: seq<Expr>): (r: Result<seq<Value>, QueryError>)
  {
    if list == [] then Ok([])
    else if !list[0].Literal? || ToCbor(list[0].value).None? then Err(InvalidSQL)
    else
      var rest :- CompileList(list[1..]);
      Ok([ToCbor(list[0].value).value] + rest)
  }

  /** The clauses pushed for an expression, left to right. */
  function Compile(e: Expr): Result<seq<WhereClause>, QueryError>
  {
    match e
    case InList(x, list, negated) =>
      if negated then Err(Unsupported)
      else if !x.Identifier? then Err(InvalidInClause)
      else
        var values :- CompileList(list);
        Ok([WhereClause(x.name, In, Array(values))])
    case BinaryOp(l, op, r) =>
      if op == And then
        var first :- Compile(l);
        var second :- Compile(r);
        Ok(first + second)
      else
        var clause :- CompileComparison(l, op, r);
        Ok([clause])
    case _ => Err(InvalidSQL)
  }

  /** What has been pushed when compiling ends, by success or by the first failure: the clauses of every
      conjunct before it. */
  function Pushed(e: Expr): seq<WhereClause>
  {
    match e
    case BinaryOp(l, And, r) => Pushed(l) + if Compile(l).Ok? then Pushed(r) else []
    case _ => if Compile(e).Ok? then Compile(e).value else []
  }

  lemma {:induction false} PushedAll(e: Expr)
    ensures Compile(e).Ok? ==> Pushed(e) == Compile(e).value
  {
    match e
    case BinaryOp(l, And, r) =>
      PushedAll(l);
      PushedAll(r);
    case _ =>
  }

  /** The in-place form: clauses are pushed on the caller's list, which a failure leaves extended. */
  method BuildWhereClauses(e: Expr, before: seq<WhereClause>)
    returns (r: Result<(), QueryError>, clauses: seq<WhereClause>)
    ensures r.Ok? <==> Compile(e).Ok?
    ensures r.Err? ==> Compile(e) == Err(r.error)
    ensures clauses == before + Pushed(e)
    decreases e
  {
    clauses := before;
    PushedAll(e);
    match e {
      case InList(x, list, negated) =>
        if negated {
          return Err(Unsupported), clauses;
        }
        if !x.Identifier? {
          return Err(InvalidInClause), clauses;
        }
        var inValues: seq<Value> := [];
        assert list[0..] == list && forall rest: seq<Value> :: inValues + rest == rest;
        for n := 0 to |list|
          invariant CompileList(list) ==
                    (match CompileList(list[n..]) case Ok(rest) => Ok(inValues + rest) case Err(err) => Err(err))
        {
          assert list[n..][0] == list[n] && list[n..][1..] == list[n + 1..];
          if !list[n].Literal? || ToCbor(list[n].value).None? {
            return Err(InvalidSQL), clauses;
          }
          ghost var was := inValues;
          inValues := inValues + [ToCbor(list[n].value).value];
          assert forall rest: seq<Value> :: was + ([ToCbor(list[n].value).value] + rest) == inValues + rest;
        }
        assert list[|list|..] == [] && inValues + [] == inValues;
        clauses := clauses + [WhereClause(x.name, In, Array(inValues))];
        r := Ok(());
      case BinaryOp(left, op, right) =>
        if op == And {
          r, clauses := BuildWhereClauses(left, clauses);
          if r.Err? {
            return;
          }
          r, clauses := BuildWhereClauses(right, clauses);
        } else {
          var clause := CompileComparison(left, op, right);
          if clause.Err? {
            return Err(clause.error), clauses;
          }
          clauses := clauses + [clause.value];
          r := Ok(());
        }
      case _ =>
        r := Err(InvalidSQL);
    }
  }

  // ---------- The compiled clauses say what the SQL says ----------

  /** No LIKE pattern uses `_`, which the compiler takes literally. */
  predicate NoWildcardChar(e: Expr)
  {
    match e
    case BinaryOp(l, Like, Literal(StringLiteral(p))) => UNDERSCORE !in p
    case BinaryOp(l, op, r) => NoWildcardChar(l) && NoWildcardChar(r)
    case _ => true
  }

  /** `p%` is the texts that start with `p`, for a plain `p`. */
  lemma {:induction false} LikePrefix(p: Bytes, t: Bytes)
    requires PERCENT !in p && UNDERSCORE !in p
    ensures LikeMatches(p + [PERCENT], t) <==> p <= t
  {
    var pattern := p + [PERCENT];
    if p == [] {
      assert pattern[1..] == [] && t[|t|..] == [];
      assert LikeMatches(pattern[1..], t[|t|..]);
    } else {
      assert pattern[0] == p[0] && pattern[1..] == p[1..] + [PERCENT];
      assert p == [p[0]] + p[1..];
      if t != [] {
        LikePrefix(p[1..], t[1..]);
        assert t == [t[0]] + t[1..];
        assert p <= t <==> p[0] == t[0] && p[1..] <= t[1..];
      }
    }
  }

  lemma {:induction false} ListMeaning(list: seq<Expr>, x: Value, doc: Document)
    requires CompileList(list).Ok?
    ensures (exists y | y in CompileList(list).value :: Values.Eq(x, y)) <==>
            (exists y | y in list :: Operand(y, doc).Some? && Values.Eq(x, Operand(y, doc).value))
  {
    if list == [] {
    } else {
      ListMeaning(list[1..], x, doc);
      assert list == [list[0]] + list[1..];
      assert CompileList(list).value == [ToCbor(list[0].value).value] + CompileList(list[1..]).value;
      ToCborDenotes(list[0].value);
      assert Operand(list[0], doc) == ToCbor(list[0].value);
    }
  }

  lemma ComparisonMeaning(left: Expr, op: SqlOperator, right: Expr, doc: Document)
    requires op != And && op != Or && CompileComparison(left, op, right).Ok?
    requires NoWildcardChar(BinaryOp(left, op, right))
    ensures SqlHolds(BinaryOp(left, op, right), doc) <==> Holds(CompileComparison(left, op, right).value, doc)
  {
    var c := CompileComparison(left, op, right).value;
    if left.Identifier? && right.Literal? {
      ToCborDenotes(right.value);
      if op == Like {
        var p := ToCbor(right.value).value.utf8;
        assert right.value == StringLiteral(p);
        assert p == c.value.utf8 + [PERCENT];
        if c.field in doc && doc[c.field].Text? {
          LikePrefix(c.value.utf8, doc[c.field].utf8);
        }
      }
    } else {
      ToCborDenotes(left.value);
      var v := ToCbor(left.value).value;
      if c.field in doc {
        FlipMeaning(FromSqlOperator(op).value, v, doc[c.field]);
      }
    }
  }

  /** A document satisfies an accepted condition exactly when it satisfies every clause pushed. */
  lemma {:induction false} CompiledMeaning(e: Expr, doc: Document)
    requires Compile(e).Ok? && NoWildcardChar(e)
    ensures SqlHolds(e, doc) <==> AllHold(Compile(e).value, doc)
  {
    match e {
      case InList(x, list, negated) =>
        if x.name in doc {
          ListMeaning(list, doc[x.name], doc);
        }
        var c := WhereClause(x.name, In, Array(CompileList(list).value));
        assert Compile(e).value == [c];
        assert c in [c];
      case BinaryOp(left, op, right) =>
        if op == And {
          CompiledMeaning(left, doc);
          CompiledMeaning(right, doc);
        } else {
          ComparisonMeaning(left, op, right, doc);
          var c := CompileComparison(left, op, right).value;
          assert c in [c];
        }
    }
  }

  // ---------- Which expressions are accepted ----------

  predicate IsValue(e: Expr)
  {
    e.Literal? && LiteralValue(e.value).Some?
  }

  /** Conjunctions, at any depth, of lists of values for a field, of comparisons between a field and a value, on
      either side, and of LIKE with the field first and a text whose one `%` is its last character. */
  predicate Accepted(e: Expr)
  {
    match e
    case InList(x, list, negated) => !negated && x.Identifier? && forall y | y in list :: IsValue(y)
    case BinaryOp(l, And, r) => Accepted(l) && Accepted(r)
    case BinaryOp(l, Like, r) =>
      l.Identifier? && r.Literal? && r.value.StringLiteral? &&
      var p := r.value.utf8;
      p != [] && p[|p| - 1] == '%' as int && forall i | 0 <= i < |p| - 1 :: p[i] != '%' as int
    case BinaryOp(l, op, r) =>
      op in {Eq, Gt, GtEq, Lt, LtEq} && ((l.Identifier? && IsValue(r)) || (r.Identifier? && IsValue(l)))
    case _ => false
  }

  lemma {:induction false} ListAccepted(list: seq<Expr>)
    ensures CompileList(list).Ok? <==> forall y | y in list :: IsValue(y)
    ensures CompileList(list).Err? ==> CompileList(list).error == InvalidSQL
  {
    if list == [] {
    } else {
      ListAccepted(list[1..]);
      if list[0].Literal? {
        ToCborDenotes(list[0].value);
      }
      assert list == [list[0]] + list[1..];
      assert (forall y | y in list :: IsValue(y)) <==> IsValue(list[0]) && forall y | y in list[1..] :: IsValue(y);
    }
  }

  lemma ComparisonAccepted(l: Expr, op: SqlOperator, r: Expr)
    requires op != And
    ensures CompileComparison(l, op, r).Ok? <==> Accepted(BinaryOp(l, op, r))
  {
    if l.Literal? {
      ToCborDenotes(l.value);
    }
    if r.Literal? {
      ToCborDenotes(r.value);
      if r.value.StringLiteral? {
        var p := r.value.utf8;
        assert p != [] ==> (PERCENT !in p[..|p| - 1] <==> forall i | 0 <= i < |p| - 1 :: p[i] != PERCENT);
      }
    }
  }

  /** Exactly these are compiled. */
  lemma {:induction false} AcceptedExactly(e: Expr)
    ensures Compile(e).Ok? <==> Accepted(e)
  {
    match e
    case InList(_, list, _) => ListAccepted(list);
    case BinaryOp(l, op, r) =>
      if op == And {
        AcceptedExactly(l);
        AcceptedExactly(r);
      } else {
        ComparisonAccepted(l, op, r);
      }
    case _ =>
  }

  /** The where operator of a SQL comparison. */
  predicate Names(op: SqlOperator, w: WhereOperator)
  {
    (op == Eq && w == Equal) || (op == Gt && w == GreaterThan) || (op == GtEq && w == GreaterThanOrEquals) ||
    (op == Lt && w == LessThan) || (op == LtEq && w == LessThanOrEquals)
  }

  /** The clause pushed for each kind of literal, with the field first. */
  lemma PushedClause(f: string, op: SqlOperator, w: WhereOperator, v: SqlValue)
    requires Names(op, w)
    ensures var r := Compile(BinaryOp(Identifier(f), op, Literal(v)));
            match v
            case Boolean(b) => r == Ok([WhereClause(f, w, Bool(b))])
            case Number(false, _, Some(n)) => r == Ok([WhereClause(f, w, Integer(n))])
            case Number(true, Some(x), _) => r == Ok([WhereClause(f, w, Float(x))])
            case StringLiteral(t) => r == Ok([WhereClause(f, w, Text(t))])
            case _ => r == Err(InvalidSQL)
  {
  }

  /** And with the value first: the mirrored operator, and the same value. */
  lemma PushedFlipped(f: string, op: SqlOperator, mirrored: SqlOperator, v: SqlValue)
    requires (op, mirrored) in {(Eq, Eq), (Gt, Lt), (GtEq, LtEq), (Lt, Gt), (LtEq, GtEq)}
    ensures Compile(BinaryOp(Literal(v), op, Identifier(f))) == Compile(BinaryOp(Identifier(f), mirrored, Literal(v)))
  {
  }

  /** The list pushed for an in condition: its values, in order. */
  lemma {:induction false} ListPushed(list: seq<Expr>)
    requires forall y | y in list :: IsValue(y)
    ensures CompileList(list).Ok? && |CompileList(list).value| == |list|
    ensures forall i | 0 <= i < |list| ::
              list[i].Literal? && Some(CompileList(list).value[i]) == LiteralValue(list[i].value)
  {
    if list == [] {
    } else {
      assert list == [list[0]] + list[1..] && list[0] in list;
      ListPushed(list[1..]);
      ToCborDenotes(list[0].value);
    }
  }

  /** The error each rejected expression earns; of a conjunction, the first. */
  lemma CompileErrors(e: Expr)
    requires Compile(e).Err?
    ensures var error := Compile(e).error;
            match e
            case InList(x, list, negated) =>
              error == if negated then Unsupported else if !x.Identifier? then InvalidInClause else InvalidSQL
            case BinaryOp(l, And, r) => Compile(if Compile(l).Err? then l else r) == Err(error)
            case BinaryOp(l, op, r) =>
              error ==
              if op !in {Eq, Gt, GtEq, Lt, LtEq, Like} then Unsupported
              else if l.Identifier? && r.Literal? then
                (if LiteralValue(r.value).None? then InvalidSQL
                 else if r.value.StringLiteral? then Unsupported else InvalidStartsWithClause)
              else if r.Identifier? && l.Literal? then (if op == Like then InvalidWhereClauseOrder else InvalidSQL)
              else InvalidSQL
            case _ => error == InvalidSQL
  {
    match e
    case InList(_, list, _) => ListAccepted(list);
    case BinaryOp(l, op, r) =>
      if l.Literal? {
        ToCborDenotes(l.value);
      }
      if r.Literal? {
        ToCborDenotes(r.value);
      }
    case _ =>
  }

  lemma {:induction false} LikeItself(p: Bytes)
    requires PERCENT !in p
    ensures LikeMatches(p + [PERCENT], p)
  {
    var pattern := p + [PERCENT];
    if p == [] {
      assert pattern[1..] == [] && p[0..] == [];
      assert LikeMatches(pattern[1..], p[0..]);
    } else {
      assert pattern[0] == p[0] && pattern[1..] == p[1..] + [PERCENT];
      LikeItself(p[1..]);
    }
  }

  /** The text that `p%` admits because of its first `_`, though it does not start with `p`. */
  function Confused(p: Bytes): (t: Bytes)
    requires UNDERSCORE in p
    ensures |t| == |p| && !(p <= t)
  {
    if p[0] == UNDERSCORE then [0x61] + p[1..]
    else
      assert p == [p[0]] + p[1..];
      [p[0]] + Confused(p[1..])
  }

  lemma {:induction false} LikeConfused(p: Bytes)
    requires PERCENT !in p && UNDERSCORE in p
    ensures LikeMatches(p + [PERCENT], Confused(p))
  {
    var pattern, t := p + [PERCENT], Confused(p);
    assert pattern[0] == p[0] && pattern[1..] == p[1..] + [PERCENT];
    if p[0] == UNDERSCORE {
      assert t[1..] == p[1..];
      LikeItself(p[1..]);
    } else {
      assert p == [p[0]] + p[1..];
      assert t[1..] == Confused(p[1..]);
      LikeConfused(p[1..]);
    }
  }

  lemma LikeBroken(field: string, p: Bytes) returns (doc: Document)
    requires PrefixPattern(p) && UNDERSCORE in p
    ensures var e := BinaryOp(Identifier(field), Like, Literal(StringLiteral(p)));
            SqlHolds(e, doc) && !Holds(WhereClause(field, StartsWith, Text(p[..|p| - 1])), doc)
  {
    var prefix := p[..|p| - 1];
    assert p == prefix + [PERCENT];
    LikeConfused(prefix);
    doc := map[field := Text(Confused(prefix))];
  }

  /** A LIKE condition keeps its meaning for every document exactly when its pattern has no `_`. */
  lemma LikeMeaningExactly(field: string, p: Bytes)
    requires PrefixPattern(p)
    ensures var e := BinaryOp(Identifier(field), Like, Literal(StringLiteral(p)));
            Compile(e).Ok? &&
            ((forall doc :: SqlHolds(e, doc) <==> AllHold(Compile(e).value, doc)) <==> UNDERSCORE !in p)
  {
    var e := BinaryOp(Identifier(field), Like, Literal(StringLiteral(p)));
    var c := WhereClause(field, StartsWith, Text(p[..|p| - 1]));
    assert Compile(e) == Ok([c]);
    if UNDERSCORE in p {
      var doc := LikeBroken(field, p);
      assert c in Compile(e).value && SqlHolds(e, doc) && !Holds(c, doc);
    } else {
      forall doc ensures SqlHolds(e, doc) <==> AllHold(Compile(e).value, doc) {
        CompiledMeaning(e, doc);
      }
    }
  }
}
