/** Paging through one field by re-querying after the last key returned. */
module Paging {
  import opened Prelude
  import opened ByteOrder
  import opened Conditions
  import opened PathQuery

  /** Keys in scan order, none twice: how the store presents them. */
  predicate Sequential(leftToRight: bool, keys: seq<Bytes>)
  {
    forall i, j | 0 <= i < j < |keys| :: Before(leftToRight, keys[i], keys[j])
  }

  function Limit(n: nat, keys: seq<Bytes>): (m: nat)
    ensures m <= |keys| && (n >= 1 && keys != [] ==> m >= 1)
  {
    if |keys| <= n then |keys| else n
  }

  function First(n: nat, keys: seq<Bytes>): seq<Bytes>
  {
    keys[..Limit(n, keys)]
  }

  /** The answer to one query over the stored keys, limited to a page. */
  function Page(items: seq<QueryItem>, store: seq<Bytes>, n: nat): seq<Bytes>
  {
    First(n, Filter(store, k => Selects(items, k)))
  }

  /** All keys seen by a client that asks for pages until one is empty, in at most `rounds` queries. */
  function VisitBy(
    query: Option<Cursor> -> seq<QueryItem>, c: Option<Cursor>, store: seq<Bytes>, n: nat, rounds: nat): seq<Bytes>
    decreases rounds
  {
    if rounds == 0 then []
    else
      var page := Page(query(c), store, n);
      if page == [] then []
      else page + VisitBy(query, Some(Cursor(page[|page| - 1], false)), store, n, rounds - 1)
  }

  function Query(op: WhereOperator, o: Operands, leftToRight: bool): Option<Cursor> -> seq<QueryItem>
    requires WellFormed(op, o)
  {
    c => if WellFormed(op, o) then Items(op, o, c, leftToRight) else []
  }

  function Visit(
    op: WhereOperator, o: Operands, c: Option<Cursor>, leftToRight: bool, store: seq<Bytes>, n: nat, rounds: nat)
    : seq<Bytes>
    requires WellFormed(op, o)
  {
    VisitBy(Query(op, o, leftToRight), c, store, n, rounds)
  }

  function Matching(op: WhereOperator, o: Operands, store: seq<Bytes>): seq<Bytes>
    requires WellFormed(op, o)
  {
    Filter(store, k => WellFormed(op, o) && Matches(op, o, k))
  }

  function Remaining(op: WhereOperator, o: Operands, c: Option<Cursor>, leftToRight: bool, store: seq<Bytes>)
    : seq<Bytes>
    requires WellFormed(op, o)
  {
    Filter(store, k => WellFormed(op, o) && Wanted(op, o, c, leftToRight, k))
  }

  /** Paging visits exactly the matching keys, in scan order, whatever is stored. Stopping is part of it:
      any number of rounds above the number of keys gives the same answer. */
  ghost predicate PagingComplete(op: WhereOperator, o: Operands, leftToRight: bool)
    requires WellFormed(op, o)
  {
    forall store, n, rounds | Sequential(leftToRight, store) && n >= 1 && rounds > |store| ::
      Visit(op, o, None, leftToRight, store, n, rounds) == Matching(op, o, store)
  }

  predicate Pageable(op: WhereOperator, o: Operands, leftToRight: bool)
    requires WellFormed(op, o)
  {
    match op
    case LessThan => !leftToRight || o.key == [] || o.key == [0]
    case LessThanOrEquals => !leftToRight || o.key == []
    case BetweenExcludeLeft => leftToRight || !Lt(o.left, o.right) || o.right == o.left + [0]
    case StartsWith => o.key[|o.key| - 1] < 255
    case _ => true
  }

  // ---------- Pageable clauses conform at every cursor a client will use ----------

  lemma PageableConforms(op: WhereOperator, o: Operands, leftToRight: bool, m: Bytes)
    requires WellFormed(op, o) && Pageable(op, o, leftToRight) && Matches(op, o, m)
    ensures Conforms(op, o, Some(Cursor(m, false)), leftToRight)
  {
    if op == LessThan && leftToRight && o.key == [0] {
      NothingBetween([], m);
      assert [] + [0] == [0];
      Trichotomy([], m);
    } else if op == BetweenExcludeBounds {
      Ordered(m, o.left, o.right, m);
    } else if op == BetweenExcludeLeft {
      NothingBetween(o.left, m);
      Ordered(m, o.left, o.right, m);
    }
  }

  // ---------- Sequences in scan order ----------

  lemma {:induction false} FilterSequential(leftToRight: bool, keys: seq<Bytes>, p: Bytes -> bool)
    requires Sequential(leftToRight, keys)
    ensures Sequential(leftToRight, Filter(keys, p))
  {
    if keys == [] {
    } else {
      FilterSequential(leftToRight, keys[1..], p);
      FilterMembers(keys[1..], p);
      var rest := Filter(keys[1..], p);
      if p(keys[0]) {
        assert Filter(keys, p) == [keys[0]] + rest;
        forall j | 0 <= j < |rest| ensures Before(leftToRight, keys[0], rest[j]) {
          assert rest[j] in keys[1..];
        }
      }
    }
  }

  lemma SequentialHead(leftToRight: bool, a: seq<Bytes>)
    requires Sequential(leftToRight, a) && a != []
    ensures Sequential(leftToRight, a[1..])
    ensures forall k :: k in a[1..] <==> k in a && Before(leftToRight, a[0], k)
    ensures forall k :: k in a <==> k == a[0] || k in a[1..]
  {
    assert a == [a[0]] + a[1..];
    Irreflexive(a[0]);
    forall k | k in a[1..] ensures Before(leftToRight, a[0], k) {
      var i :| 0 <= i < |a[1..]| && a[1..][i] == k;
      assert a[i + 1] == k;
    }
  }

  /** A sequence in scan order is determined by its elements. */
  lemma {:induction false} SameElements(leftToRight: bool, a: seq<Bytes>, b: seq<Bytes>)
    requires Sequential(leftToRight, a) && Sequential(leftToRight, b)
    requires forall k :: k in a <==> k in b
    ensures a == b
  {
    assert a != [] ==> a[0] in b;
    assert b != [] ==> b[0] in a;
    if a == [] {
    } else {
      SequentialHead(leftToRight, a);
      SequentialHead(leftToRight, b);
      Trichotomy(a[0], b[0]);
      assert a[0] in b && b[0] in a;
      assert a[0] == b[0];
      SameElements(leftToRight, a[1..], b[1..]);
      assert a == [a[0]] + a[1..] && b == [b[0]] + b[1..];
    }
  }

  /** After a page, what remains is the rest of what remained before it. */
  lemma RemainingAfter(
    op: WhereOperator, o: Operands, c: Option<Cursor>, leftToRight: bool, store: seq<Bytes>, n: nat)
    requires WellFormed(op, o) && Sequential(leftToRight, store) && n >= 1
    requires n <= |Remaining(op, o, c, leftToRight, store)|
    ensures var w := Remaining(op, o, c, leftToRight, store);
            Remaining(op, o, Some(Cursor(w[n - 1], false)), leftToRight, store) == w[n..]
  {
    var w := Remaining(op, o, c, leftToRight, store);
    var last := w[n - 1];
    var next := Remaining(op, o, Some(Cursor(last, false)), leftToRight, store);
    FilterMembers(store, k => WellFormed(op, o) && Wanted(op, o, c, leftToRight, k));
    FilterMembers(store, k => WellFormed(op, o) && Wanted(op, o, Some(Cursor(last, false)), leftToRight, k));
    FilterSequential(leftToRight, store, k => WellFormed(op, o) && Wanted(op, o, c, leftToRight, k));
    FilterSequential(
      leftToRight, store, k => WellFormed(op, o) && Wanted(op, o, Some(Cursor(last, false)), leftToRight, k));
    forall k ensures k in next <==> k in w[n..] {
      assert last in w;
      Ordered(k, last, last, if c.Some? then c.value.key else last);
      if k in next {
        assert k in w;
        var i :| 0 <= i < |w| && w[i] == k;
        assert !(0 <= i < n);
        assert w[n..][i - n] == k;
      }
      if k in w[n..] {
        var i :| 0 <= i < |w| - n && w[n..][i] == k;
        assert Before(leftToRight, last, w[n + i]);
        assert k in w;
      }
    }
    SameElements(leftToRight, next, w[n..]);
  }

  // ---------- Completeness ----------

  /** A client starts without a cursor and goes on after a key that it was given. */
  predicate ClientCursor(op: WhereOperator, o: Operands, c: Option<Cursor>)
    requires WellFormed(op, o)
  {
    c.Some? ==> !c.value.included && Matches(op, o, c.value.key)
  }

  /** At such a cursor a page is the first of what remains. */
  lemma PageIsFirst(op: WhereOperator, o: Operands, c: Option<Cursor>, leftToRight: bool, store: seq<Bytes>, n: nat)
    requires WellFormed(op, o) && Pageable(op, o, leftToRight) && ClientCursor(op, o, c)
    ensures Page(Items(op, o, c, leftToRight), store, n) == First(n, Remaining(op, o, c, leftToRight, store))
  {
    var items := Items(op, o, c, leftToRight);
    if c.Some? {
      PageableConforms(op, o, leftToRight, c.value.key);
    }
    forall k ensures Selects(items, k) <==> Wanted(op, o, c, leftToRight, k) {
      ConformingQuery(op, o, c, leftToRight, k);
    }
    FilterAgrees(store, k => Selects(items, k), k => WellFormed(op, o) && Wanted(op, o, c, leftToRight, k));
  }

  /** One round: a page, then the visit from its last key. */
  lemma VisitRound(
    op: WhereOperator, o: Operands, c: Option<Cursor>, leftToRight: bool, store: seq<Bytes>, n: nat, rounds: nat,
    page: seq<Bytes>)
    requires WellFormed(op, o) && rounds > 0 && page == Page(Items(op, o, c, leftToRight), store, n)
    ensures Visit(op, o, c, leftToRight, store, n, rounds) ==
            if page == [] then []
            else page + Visit(op, o, Some(Cursor(page[|page| - 1], false)), leftToRight, store, n, rounds - 1)
  {
  }

  lemma RemainingMatches(
    op: WhereOperator, o: Operands, c: Option<Cursor>, leftToRight: bool, store: seq<Bytes>, i: nat)
    requires WellFormed(op, o) && i < |Remaining(op, o, c, leftToRight, store)|
    ensures Matches(op, o, Remaining(op, o, c, leftToRight, store)[i])
  {
    FilterMembers(store, k => WellFormed(op, o) && Wanted(op, o, c, leftToRight, k));
    assert Remaining(op, o, c, leftToRight, store)[i] in Remaining(op, o, c, leftToRight, store);
  }

  lemma NextCursor(
    op: WhereOperator, o: Operands, c: Option<Cursor>, leftToRight: bool, store: seq<Bytes>, m: nat)
    requires WellFormed(op, o) && Sequential(leftToRight, store)
    requires 1 <= m <= |Remaining(op, o, c, leftToRight, store)|
    ensures var w := Remaining(op, o, c, leftToRight, store);
            var next := Some(Cursor(w[m - 1], false));
            ClientCursor(op, o, next) && Remaining(op, o, next, leftToRight, store) == w[m..]
  {
    RemainingMatches(op, o, c, leftToRight, store, m - 1);
    RemainingAfter(op, o, c, leftToRight, store, m);
  }

  lemma SplitAt(w: seq<Bytes>, m: nat)
    requires m <= |w|
    ensures w == w[..m] + w[m..]
  {
  }

  /** After `m` of the keys that remain at a cursor, the next cursor leaves the rest. */
  ghost predicate Continues(
    client: Option<Cursor> -> bool, remaining: Option<Cursor> -> seq<Bytes>, d: Option<Cursor>, m: nat)
  {
    client(d) && 1 <= m <= |remaining(d)| ==>
      var next := Some(Cursor(remaining(d)[m - 1], false));
      client(next) && remaining(next) == remaining(d)[m..]
  }

  /** Visiting yields what remains, if at every cursor of the client the page is the first of what remains
      and the next cursor leaves the rest. */
  lemma {:induction false} VisitByRemaining(
    query: Option<Cursor> -> seq<QueryItem>, client: Option<Cursor> -> bool, remaining: Option<Cursor> -> seq<Bytes>,
    c: Option<Cursor>, store: seq<Bytes>, n: nat, rounds: nat)
    requires n >= 1
    requires forall d | client(d) :: Page(query(d), store, n) == First(n, remaining(d))
    requires forall d, m :: Continues(client, remaining, d, m)
    requires client(c) && rounds > |remaining(c)|
    ensures VisitBy(query, c, store, n, rounds) == remaining(c)
    decreases rounds
  {
    var w := remaining(c);
    if w == [] {
    } else {
      var m := Limit(n, w);
      assert Continues(client, remaining, c, m);
      VisitByRemaining(query, client, remaining, Some(Cursor(w[m - 1], false)), store, n, rounds - 1);
      SplitAt(w, m);
    }
  }

  /** From any cursor of a client, the visit is what remains there. */
  lemma VisitRemaining(
    op: WhereOperator, o: Operands, c: Option<Cursor>, leftToRight: bool, store: seq<Bytes>, n: nat, rounds: nat)
    requires WellFormed(op, o) && Pageable(op, o, leftToRight) && Sequential(leftToRight, store) && n >= 1
    requires ClientCursor(op, o, c)
    requires rounds > |Remaining(op, o, c, leftToRight, store)|
    ensures Visit(op, o, c, leftToRight, store, n, rounds) == Remaining(op, o, c, leftToRight, store)
  {
    var query := Query(op, o, leftToRight);
    var client := d => WellFormed(op, o) && ClientCursor(op, o, d);
    var remaining := d => if WellFormed(op, o) then Remaining(op, o, d, leftToRight, store) else [];
    forall d | client(d) ensures Page(query(d), store, n) == First(n, remaining(d)) {
      PageIsFirst(op, o, d, leftToRight, store, n);
    }
    forall d, m: nat ensures Continues(client, remaining, d, m) {
      if client(d) && 1 <= m <= |remaining(d)| {
        NextCursor(op, o, d, leftToRight, store, m);
      }
    }
    VisitByRemaining(query, client, remaining, c, store, n, rounds);
  }

  lemma {:induction false} FilterAgrees(keys: seq<Bytes>, p: Bytes -> bool, q: Bytes -> bool)
    requires forall k | k in keys :: p(k) <==> q(k)
    ensures Filter(keys, p) == Filter(keys, q)
  {
    if keys == [] {
    } else {
      assert keys[0] in keys && forall k | k in keys[1..] :: k in keys;
      FilterAgrees(keys[1..], p, q);
    }
  }

  lemma PagingVisitsAll(op: WhereOperator, o: Operands, leftToRight: bool)
    requires WellFormed(op, o) && Pageable(op, o, leftToRight)
    ensures PagingComplete(op, o, leftToRight)
  {
    forall store, n, rounds | Sequential(leftToRight, store) && n >= 1 && rounds > |store|
      ensures Visit(op, o, None, leftToRight, store, n, rounds) == Matching(op, o, store)
    {
      FilterAgrees(store, k => WellFormed(op, o) && Wanted(op, o, None, leftToRight, k),
                   k => WellFormed(op, o) && Matches(op, o, k));
      FilterMembers(store, k => WellFormed(op, o) && Matches(op, o, k));
      VisitRemaining(op, o, None, leftToRight, store, n, rounds);
    }
  }

  // ---------- The clauses for which paging goes wrong ----------

  /** Two keys visited one at a time, by where the second query starts. */
  lemma VisitTwo(op: WhereOperator, o: Operands, leftToRight: bool, a: Bytes, b: Bytes)
    requires WellFormed(op, o) && a != b
    requires Selects(Items(op, o, None, leftToRight), a)
    requires !Selects(Items(op, o, Some(Cursor(a, false)), leftToRight), a)
    ensures var c := Some(Cursor(a, false));
            var again := Selects(Items(op, o, c, leftToRight), b);
            Visit(op, o, None, leftToRight, [a, b], 1, 3) ==
            [a] + if again then [b] + Visit(op, o, Some(Cursor(b, false)), leftToRight, [a, b], 1, 1) else []
  {
    var c := Some(Cursor(a, false));
    PageOfTwo(Items(op, o, None, leftToRight), a, b);
    VisitRound(op, o, None, leftToRight, [a, b], 1, 3, [a]);
    PageOfTwo(Items(op, o, c, leftToRight), a, b);
    VisitRound(op, o, c, leftToRight, [a, b], 1, 2, if Selects(Items(op, o, c, leftToRight), b) then [b] else []);
  }

  lemma PageOfTwo(items: seq<QueryItem>, a: Bytes, b: Bytes)
    ensures Page(items, [a, b], 1) ==
            if Selects(items, a) then [a] else if Selects(items, b) then [b] else []
  {
    FilterTwo(a, b, k => Selects(items, k));
  }

  /** Paging the store [a, b] one key at a time goes wrong when the second query treats `b` wrongly. */
  lemma SecondQueryWrong(op: WhereOperator, o: Operands, leftToRight: bool, a: Bytes, b: Bytes)
    requires WellFormed(op, o) && Before(leftToRight, a, b)
    requires Selects(Items(op, o, None, leftToRight), a) && Matches(op, o, a)
    requires !Selects(Items(op, o, Some(Cursor(a, false)), leftToRight), a)
    requires Selects(Items(op, o, Some(Cursor(a, false)), leftToRight), b) != Matches(op, o, b)
    ensures !PagingComplete(op, o, leftToRight)
  {
    var store := [a, b];
    Trichotomy(a, b);
    FilterTwo(a, b, k => WellFormed(op, o) && Matches(op, o, k));
    VisitTwo(op, o, leftToRight, a, b);
    assert Sequential(leftToRight, store);
    assert Visit(op, o, None, leftToRight, store, 1, 3) != Matching(op, o, store);
  }

  /** Left to right, an upper bound is lost after the first page. */
  lemma UpperBoundPagingGoesWrong(op: WhereOperator, o: Operands)
    requires op in {LessThan, LessThanOrEquals} && WellFormed(op, o) && !Pageable(op, o, true)
    ensures !PagingComplete(op, o, true)
  {
    var b := if op == LessThan then [0] else o.key;
    if op == LessThan {
      SomethingBetween([], o.key);
      assert [] + [0] == [0];
    }
    Ordered([], b, o.key, o.key);
    SelectsOnly(Items(op, o, None, true), []);
    SelectsOnly(Items(op, o, Some(Cursor([], false)), true), []);
    SelectsOnly(Items(op, o, Some(Cursor([], false)), true), b);
    SecondQueryWrong(op, o, true, [], b);
  }

  /** Right to left, an excluded left bound is visited after all. */
  lemma LeftBoundPagingGoesWrong(o: Operands)
    requires WellFormed(BetweenExcludeLeft, o) && !Pageable(BetweenExcludeLeft, o, false)
    ensures !PagingComplete(BetweenExcludeLeft, o, false)
  {
    var a, b := o.left + [0], o.left;
    NothingBetween(o.left, a);
    SomethingBetween(o.left, o.right);
    Irreflexive(o.left);
    Ordered(a, b, o.right, o.right);
    SelectsOnly(Items(BetweenExcludeLeft, o, None, false), a);
    SelectsOnly(Items(BetweenExcludeLeft, o, Some(Cursor(a, false)), false), a);
    SelectsOnly(Items(BetweenExcludeLeft, o, Some(Cursor(a, false)), false), b);
    SecondQueryWrong(BetweenExcludeLeft, o, false, a, b);
  }

  lemma PrefixPagingGoesWrong(o: Operands, leftToRight: bool)
    requires WellFormed(StartsWith, o) && !Pageable(StartsWith, o, leftToRight)
    ensures !PagingComplete(StartsWith, o, leftToRight)
  {
    var store, items := [o.key], Items(StartsWith, o, None, leftToRight);
    WrappedPrefix(o, None, leftToRight, o.key);
    SelectsOnly(items, o.key);
    var selected := k => Selects(items, k);
    assert store[1..] == [] && !selected(o.key);
    assert Filter(store, selected) == [];
    assert Page(items, store, 1) == [];
    assert o.key in Matching(StartsWith, o, store);
    VisitRound(StartsWith, o, None, leftToRight, store, 1, 2, []);
    assert Visit(StartsWith, o, None, leftToRight, store, 1, 2) != Matching(StartsWith, o, store);
  }

  /** Paging visits every matching key exactly once, in order, and stops, exactly for pageable clauses. */
  lemma PagingExactlyWhenPageable(op: WhereOperator, o: Operands, leftToRight: bool)
    requires WellFormed(op, o)
    ensures PagingComplete(op, o, leftToRight) <==> Pageable(op, o, leftToRight)
  {
    if Pageable(op, o, leftToRight) {
      PagingVisitsAll(op, o, leftToRight);
    } else if op == StartsWith {
      PrefixPagingGoesWrong(o, leftToRight);
    } else if op == BetweenExcludeLeft {
      LeftBoundPagingGoesWrong(o);
    } else {
      UpperBoundPagingGoesWrong(op, o);
    }
  }
}
