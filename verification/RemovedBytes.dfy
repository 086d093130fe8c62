/** Removed bytes per identity and epoch (drive/src/fee/removed_bytes_from_epochs_by_identities.rs). */
module RemovedBytes {
  import opened Prelude
  import opened StorageFlags

  /** Amounts per identity and epoch, without width limits; a stored ledger fits 32 bits. */
  type Ledger = map<OwnerId, Amounts>

  predicate FitsU32(l: Ledger)
  {
    forall id | id in l :: AmountsFit(l[id])
  }

  type StoredLedger = l: Ledger | FitsU32(l) witness map[]

  predicate AmountsFit(m: Amounts)
  {
    forall e | e in m :: m[e] < U32
  }

  function AmountsOf(l: Ledger, id: OwnerId): Amounts
  {
    if id in l then l[id] else map[]
  }

  /** Epoch by epoch sum over the union of the epochs. */
  function AddAmounts(a: Amounts, b: Amounts): Amounts
  {
    map e | e in a.Keys + b.Keys :: BytesAt(a, e) + BytesAt(b, e)
  }

  /** Identity by identity sum over the union of the identities. */
  function AddLedgers(a: Ledger, b: Ledger): Ledger
  {
    map id | id in a.Keys + b.Keys :: AddAmounts(AmountsOf(a, id), AmountsOf(b, id))
  }

  datatype FeeError = Overflow | GroveOperationNotExecuted

  /** The inner step: entries of the first map meet their partners, then the second's others are chained on. */
  method CombineAmounts(a: Amounts, b: Amounts) returns (r: Result<Amounts, FeeError>)
    requires AmountsFit(a) && AmountsFit(b)
    ensures r == if AmountsFit(AddAmounts(a, b)) then Ok(AddAmounts(a, b)) else Err(Overflow)
  {
    var met: Amounts := map[];
    var rest, left := b, a.Keys;
    while left != {}
      invariant left <= a.Keys && met.Keys == a.Keys - left && rest.Keys == b.Keys - met.Keys
      invariant forall e | e in met :: met[e] == BytesAt(a, e) + BytesAt(b, e) && met[e] < U32
      invariant forall e | e in rest :: rest[e] == b[e]
      decreases left
    {
      var e :| e in left;
      var sum := a[e] + BytesAt(rest, e);
      if sum >= U32 {
        assert AddAmounts(a, b)[e] >= U32;
        return Err(Overflow);
      }
      met := met[e := sum];
      rest := rest - {e};
      left := left - {e};
    }
    assert met + rest == AddAmounts(a, b);
    return Ok(met + rest);
  }

  class RemovedBytesFromEpochsByIdentities {
    var ledger: StoredLedger

    constructor ()
      ensures ledger == map[]
    {
      ledger := map[];
    }

    /** One identity's entry is taken out, combined and put back; a sum that does not fit leaves it out. */
    method AddIdentity(id: OwnerId, amounts: Amounts) returns (ok: bool)
      requires AmountsFit(amounts)
      modifies this
      ensures var sum := if id in old(ledger) then AddAmounts(old(ledger)[id], amounts) else amounts;
              ok == AmountsFit(sum) && ledger == if ok then old(ledger)[id := sum] else old(ledger) - {id}
    {
      if id !in ledger {
        ledger := ledger[id := amounts];
        return true;
      }
      var mine := ledger[id];
      ledger := ledger - {id};
      var sum := CombineAmounts(mine, amounts);
      if sum.Err? {
        return false;
      }
      ledger := ledger[id := sum.value];
      return true;
    }

    /** Succeeds exactly when every exact sum fits, and then adds pointwise. A failure leaves the ledger
        without the identity whose sum did not fit. */
    method CheckedAddAssign(rhs: StoredLedger) returns (r: Result<(), FeeError>)
      modifies this
      ensures r == if FitsU32(AddLedgers(old(ledger), rhs)) then Ok(()) else Err(Overflow)
      ensures r.Ok? ==> ledger == AddLedgers(old(ledger), rhs)
      ensures r.Err? ==> exists id :: Dropped(old(ledger), rhs, ledger, id)
    {
      ghost var self := ledger;
      var left := rhs.Keys;
      NothingAdded(self, rhs);
      while left != {}
        invariant left <= rhs.Keys
        invariant ledger == AddLedgers(self, rhs - left)
        decreases left
      {
        var id :| id in left;
        ghost var was := ledger;
        var ok := AddIdentity(id, rhs[id]);
        if !ok {
          FailedStep(self, rhs, left, id, was, ledger);
          return Err(Overflow);
        }
        AddedStep(self, rhs, left, id, was, ledger);
        left := left - {id};
      }
      assert rhs - left == rhs;
      return Ok(());
    }
  }

  lemma NothingAdded(self: Ledger, rhs: Ledger)
    ensures AddLedgers(self, rhs - rhs.Keys) == self
  {
    assert rhs - rhs.Keys == map[];
    AddLedgersZero(self);
  }

  lemma AddedStep(self: Ledger, rhs: Ledger, left: set<OwnerId>, id: OwnerId, was: Ledger, now: Ledger)
    requires id in left && left <= rhs.Keys && was == AddLedgers(self, rhs - left)
    requires now == was[id := if id in was then AddAmounts(was[id], rhs[id]) else rhs[id]]
    ensures now == AddLedgers(self, rhs - (left - {id}))
  {
    AddOne(self, rhs, left, id);
  }

  lemma FailedStep(self: Ledger, rhs: Ledger, left: set<OwnerId>, id: OwnerId, was: Ledger, now: Ledger)
    requires id in left && left <= rhs.Keys && was == AddLedgers(self, rhs - left)
    requires AmountsFit(rhs[id]) && now == was - {id}
    requires !AmountsFit(if id in was then AddAmounts(was[id], rhs[id]) else rhs[id])
    ensures Dropped(self, rhs, now, id) && !FitsU32(AddLedgers(self, rhs))
  {
    AddOne(self, rhs, left, id);
    DroppedOverflows(self, rhs, now, id);
  }

  /** An identity of both ledgers whose sum does not fit, and which the first ledger has lost. */
  ghost predicate Dropped(before: Ledger, rhs: Ledger, after: Ledger, id: OwnerId)
  {
    id in before && id in rhs && id !in after && !AmountsFit(AddAmounts(before[id], rhs[id]))
  }

  lemma DroppedOverflows(before: Ledger, rhs: Ledger, after: Ledger, id: OwnerId)
    requires Dropped(before, rhs, after, id)
    ensures !FitsU32(AddLedgers(before, rhs))
  {
    assert AddLedgers(before, rhs)[id] == AddAmounts(before[id], rhs[id]);
  }

  /** One more identity of the right-hand side. */
  lemma AddOne(self: Ledger, rhs: Ledger, left: set<OwnerId>, id: OwnerId)
    requires id in left && left <= rhs.Keys
    ensures var was := AddLedgers(self, rhs - left);
            (id in was <==> id in self) && (id in self ==> was[id] == self[id]) &&
            AddLedgers(self, rhs - (left - {id})) ==
            was[id := if id in self then AddAmounts(self[id], rhs[id]) else rhs[id]]
  {
    var before, after := rhs - left, rhs - (left - {id});
    var was, now := AddLedgers(self, before), AddLedgers(self, after);
    AddAmountsZero(AmountsOf(self, id));
    AmountsOfSum(self, before, id);
    AddOneAt(self, rhs[id], id);
    assert after[id] == rhs[id];
    var updated := was[id := if id in self then AddAmounts(self[id], rhs[id]) else rhs[id]];
    assert now.Keys == updated.Keys;
    forall k | k in now ensures AmountsOf(now, k) == AmountsOf(updated, k) {
      AmountsOfSum(self, after, k);
      AmountsOfSum(self, before, k);
      assert k != id ==> AmountsOf(before, k) == AmountsOf(after, k);
    }
    SameLedgers(now, updated);
  }

  lemma AddOneAt(self: Ledger, amounts: Amounts, id: OwnerId)
    ensures AddAmounts(AmountsOf(self, id), amounts) == if id in self then AddAmounts(self[id], amounts) else amounts
  {
    AddAmountsCommutes(map[], amounts);
    AddAmountsZero(amounts);
  }

  // ---------- An abelian monoid ----------

  lemma SameAmounts(x: Amounts, y: Amounts)
    requires x.Keys == y.Keys && forall e | e in x :: BytesAt(x, e) == BytesAt(y, e)
    ensures x == y
  {
    forall e | e in x ensures x[e] == y[e] {
      assert BytesAt(x, e) == BytesAt(y, e);
    }
  }

  lemma AddAmountsZero(a: Amounts)
    ensures AddAmounts(a, map[]) == a
  {
    SameAmounts(AddAmounts(a, map[]), a);
  }

  lemma AddAmountsCommutes(a: Amounts, b: Amounts)
    ensures AddAmounts(a, b) == AddAmounts(b, a)
  {
    SameAmounts(AddAmounts(a, b), AddAmounts(b, a));
  }

  lemma AddAmountsAssociates(a: Amounts, b: Amounts, c: Amounts)
    ensures AddAmounts(AddAmounts(a, b), c) == AddAmounts(a, AddAmounts(b, c))
  {
    var x, y := AddAmounts(AddAmounts(a, b), c), AddAmounts(a, AddAmounts(b, c));
    assert x.Keys == a.Keys + b.Keys + c.Keys;
    assert y.Keys == a.Keys + (b.Keys + c.Keys);
    SameAmounts(x, y);
  }

  lemma AmountsOfSum(a: Ledger, b: Ledger, id: OwnerId)
    ensures AmountsOf(AddLedgers(a, b), id) == AddAmounts(AmountsOf(a, id), AmountsOf(b, id))
  {
    AddAmountsZero(map[]);
  }

  lemma SameLedgers(x: Ledger, y: Ledger)
    requires x.Keys == y.Keys && forall id | id in x :: AmountsOf(x, id) == AmountsOf(y, id)
    ensures x == y
  {
    forall id | id in x ensures x[id] == y[id] {
      assert AmountsOf(x, id) == AmountsOf(y, id);
    }
  }

  lemma AddLedgersZero(a: Ledger)
    ensures AddLedgers(a, map[]) == a
  {
    forall id ensures AddAmounts(AmountsOf(a, id), map[]) == AmountsOf(a, id) {
      AddAmountsZero(AmountsOf(a, id));
    }
    SameLedgers(AddLedgers(a, map[]), a);
  }

  /** Addition of ledgers is commutative. */
  lemma AddLedgersCommutes(a: Ledger, b: Ledger)
    ensures AddLedgers(a, b) == AddLedgers(b, a)
  {
    forall id ensures AmountsOf(AddLedgers(a, b), id) == AmountsOf(AddLedgers(b, a), id) {
      AmountsOfSum(a, b, id);
      AmountsOfSum(b, a, id);
      AddAmountsCommutes(AmountsOf(a, id), AmountsOf(b, id));
    }
    SameLedgers(AddLedgers(a, b), AddLedgers(b, a));
  }

  lemma AssociatesAt(a: Ledger, b: Ledger, c: Ledger, id: OwnerId)
    ensures AmountsOf(AddLedgers(AddLedgers(a, b), c), id) == AmountsOf(AddLedgers(a, AddLedgers(b, c)), id)
  {
    var x, y, z := AmountsOf(a, id), AmountsOf(b, id), AmountsOf(c, id);
    calc {
      AmountsOf(AddLedgers(AddLedgers(a, b), c), id);
      { AmountsOfSum(AddLedgers(a, b), c, id); AmountsOfSum(a, b, id); }
      AddAmounts(AddAmounts(x, y), z);
      { AddAmountsAssociates(x, y, z); }
      AddAmounts(x, AddAmounts(y, z));
      { AmountsOfSum(a, AddLedgers(b, c), id); AmountsOfSum(b, c, id); }
      AmountsOf(AddLedgers(a, AddLedgers(b, c)), id);
    }
  }

  /** Addition is pointwise over the union of the identities and, for each, of the epochs. */
  lemma AddLedgersAt(a: Ledger, b: Ledger, id: OwnerId, e: u16)
    ensures id in AddLedgers(a, b) <==> id in a || id in b
    ensures e in AmountsOf(AddLedgers(a, b), id) <==> e in AmountsOf(a, id) || e in AmountsOf(b, id)
    ensures BytesAt(AmountsOf(AddLedgers(a, b), id), e) == BytesAt(AmountsOf(a, id), e) + BytesAt(AmountsOf(b, id), e)
  {
    AmountsOfSum(a, b, id);
  }

  lemma SumKeys(a: Ledger, b: Ledger)
    ensures AddLedgers(a, b).Keys == a.Keys + b.Keys
  {
  }

  /** Addition of ledgers is associative. */
  lemma AddLedgersAssociates(a: Ledger, b: Ledger, c: Ledger)
    ensures AddLedgers(AddLedgers(a, b), c) == AddLedgers(a, AddLedgers(b, c))
  {
    var ab, bc := AddLedgers(a, b), AddLedgers(b, c);
    var x, y := AddLedgers(ab, c), AddLedgers(a, bc);
    forall id ensures AmountsOf(x, id) == AmountsOf(y, id) {
      AssociatesAt(a, b, c, id);
    }
    assert x.Keys == y.Keys by {
      SumKeys(a, b);
      SumKeys(b, c);
      SumKeys(ab, c);
      SumKeys(a, bc);
    }
    SameLedgers(x, y);
  }

  // ---------- Totals ----------

  /** The bytes of all identities, added up over any set that covers them. */
  ghost function SumOver(l: Ledger, ids: set<OwnerId>): nat
  {
    if ids == {} then 0
    else
      var id :| id in ids;
      Total(AmountsOf(l, id), 0) + SumOver(l, ids - {id})
  }

  ghost function TotalBytes(l: Ledger): nat
  {
    SumOver(l, l.Keys)
  }

  /** Any identity may be counted first. */
  lemma {:induction false} SumOverPick(l: Ledger, ids: set<OwnerId>, k: OwnerId)
    requires k in ids
    ensures SumOver(l, ids) == Total(AmountsOf(l, k), 0) + SumOver(l, ids - {k})
    decreases ids
  {
    var id :| id in ids && SumOver(l, ids) == Total(AmountsOf(l, id), 0) + SumOver(l, ids - {id});
    if id != k {
      SumOverPick(l, ids - {id}, k);
      SumOverPick(l, ids - {k}, id);
      assert ids - {id} - {k} == ids - {k} - {id};
    }
  }

  lemma {:induction false} SumOverOfSum(a: Ledger, b: Ledger, ids: set<OwnerId>)
    ensures SumOver(AddLedgers(a, b), ids) == SumOver(a, ids) + SumOver(b, ids)
    decreases ids
  {
    if ids == {} {
    } else {
      var k :| k in ids;
      SumOverPick(AddLedgers(a, b), ids, k);
      SumOverPick(a, ids, k);
      SumOverPick(b, ids, k);
      AmountsOfSum(a, b, k);
      TotalOfSum(AmountsOf(a, k), AmountsOf(b, k), AddAmounts(AmountsOf(a, k), AmountsOf(b, k)), 0);
      SumOverOfSum(a, b, ids - {k});
    }
  }

  /** Identities without entries add nothing. */
  lemma {:induction false} SumOverMore(l: Ledger, ids: set<OwnerId>)
    requires l.Keys <= ids
    ensures SumOver(l, ids) == TotalBytes(l)
    decreases ids
  {
    if exists k :: k in ids && k !in l {
      var k :| k in ids && k !in l;
      SumOverPick(l, ids, k);
      TotalOfEmpty(0);
      SumOverMore(l, ids - {k});
    } else {
      assert ids == l.Keys;
    }
  }

  /** The total of a sum is the sum of the totals. */
  lemma TotalBytesOfSum(a: Ledger, b: Ledger)
    ensures TotalBytes(AddLedgers(a, b)) == TotalBytes(a) + TotalBytes(b)
  {
    var ids := a.Keys + b.Keys;
    SumOverOfSum(a, b, ids);
    SumOverMore(a, ids);
    SumOverMore(b, ids);
    SumOverMore(AddLedgers(a, b), ids);
  }
}
