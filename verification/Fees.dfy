/** Fees of operation lists (drive/src/fee/mod.rs and drive/src/fee/op.rs). */
module FeeCalculation {
  import opened Prelude
  import opened StorageFlags
  import opened RemovedBytes

  const STORAGE_DISK_USAGE_CREDIT_PER_BYTE: nat := 27000
  const STORAGE_PROCESSING_CREDIT_PER_BYTE: nat := 400
  const STORAGE_LOAD_CREDIT_PER_BYTE: nat := 400
  const STORAGE_SEEK_COST: nat := 4000
  const BLAKE3_COST: nat := 1000

  datatype BaseOp =
    | Stop | Add | Mul | Sub | Div | Sdiv | Mod | Smod | Addmod | Mulmod | Signextend
    | Less | Greater | Slt | Sgt | Eq | Iszero | And | Or | Xor | Not | ByteOp

  function BaseCost(op: BaseOp): nat
  {
    match op
    case Stop => 0
    case Mul | Div | Sdiv | Mod | Smod | Signextend => 20
    case Addmod | Mulmod => 32
    case _ => 12
  }

  /** The price list: stopping is free, plain steps cost 12, multiplying and dividing 20, doing so modulo a
      third number 32. */
  lemma BaseCosts(op: BaseOp)
    ensures BaseCost(op) == 0 <==> op == Stop
    ensures BaseCost(op) == 20 <==> op in {Mul, Div, Sdiv, Mod, Smod, Signextend}
    ensures BaseCost(op) == 32 <==> op in {Addmod, Mulmod}
    ensures BaseCost(op) == 12 <==> op !in {Stop, Mul, Div, Sdiv, Mod, Smod, Signextend, Addmod, Mulmod}
  {
  }

  /** Fees without width limits; `FeeResult` is what the source's fields can hold. */
  datatype Fees = Fees(storage: nat, processing: nat, removed: Ledger, system: nat)

  predicate Fits(f: Fees)
  {
    f.storage < U64 && f.processing < U64 && FitsU32(f.removed) && f.system < U32
  }

  const NO_FEES: Fees := Fees(0, 0, map[], 0)

  type FeeResult = f: Fees | Fits(f) witness NO_FEES

  function Plus(a: Fees, b: Fees): Fees
  {
    Fees(a.storage + b.storage, a.processing + b.processing, AddLedgers(a.removed, b.removed), a.system + b.system)
  }

  // ---------- The cost of one operation ----------

  datatype OperationCost = OperationCost(
    seekCount: u32, added: u32, replaced: u32, removal: Removal, loaded: u32, hashCalls: u32)

  datatype DriveOperation =
    | GroveOperation
    | CalculatedCost(cost: OperationCost)
    | PreCalculated(fee: FeeResult)
    | CostCalculation

  /** All bytes of a removal, in a u32 that is not checked. */
  ghost function RemovedTotal(r: Removal): u32
  {
    match r
    case NoRemoval => 0
    case BasicRemoval(amount) => amount
    case SectionedRemoval(sections) => TotalBytes(sections) % U32
  }

  function CheckedMul(a: nat, b: nat): Result<nat, FeeError>
  {
    if a * b < U64 then Ok(a * b) else Err(Overflow)
  }

  function CheckedAdd(a: nat, b: nat): Result<nat, FeeError>
  {
    if a + b < U64 then Ok(a + b) else Err(Overflow)
  }

  /** `removedTotal` is what `total_removed_bytes` gives for the cost's removal. */
  function EphemeralCost(c: OperationCost, removedTotal: u32): Result<nat, FeeError>
  {
    var seek :- CheckedMul(c.seekCount, STORAGE_SEEK_COST);
    var added :- CheckedMul(c.added, STORAGE_PROCESSING_CREDIT_PER_BYTE);
    var replaced :- CheckedMul(c.replaced, STORAGE_PROCESSING_CREDIT_PER_BYTE);
    var removed :- CheckedMul(removedTotal, STORAGE_PROCESSING_CREDIT_PER_BYTE);
    var loaded :- CheckedMul(c.loaded, STORAGE_LOAD_CREDIT_PER_BYTE);
    var hashes :- CheckedMul(c.hashCalls, BLAKE3_COST);
    var sum :- CheckedAdd(seek, added);
    var sum :- CheckedAdd(sum, replaced);
    var sum :- CheckedAdd(sum, loaded);
    var sum :- CheckedAdd(sum, removed);
    CheckedAdd(sum, hashes)
  }

  function ExactEphemeral(c: OperationCost, removedTotal: u32): nat
  {
    4000 * c.seekCount + 400 * (c.added + c.replaced + removedTotal + c.loaded) + 1000 * c.hashCalls
  }

  /** With 32-bit cost fields the processing cost cannot overflow. */
  lemma EphemeralCostExact(c: OperationCost, removedTotal: u32)
    ensures EphemeralCost(c, removedTotal) == Ok(ExactEphemeral(c, removedTotal))
  {
  }

  /** Bytes under the all-zero identifier belong to the system; the rest keep their identity. */
  function SystemBytes(r: Removal): nat
  {
    match r
    case NoRemoval => 0
    case BasicRemoval(amount) => amount
    case SectionedRemoval(sections) => Total(AmountsOf(sections, NO_OWNER), 0) % U32
  }

  function IdentityBytes(r: Removal): Ledger
  {
    if r.SectionedRemoval? then r.sections - {NO_OWNER} else map[]
  }

  function FeeWith(op: DriveOperation, removedTotal: u32): Result<FeeResult, FeeError>
  {
    match op
    case PreCalculated(f) => Ok(f)
    case GroveOperation => Err(GroveOperationNotExecuted)
    case CostCalculation => Ok(NO_FEES)
    case CalculatedCost(c) =>
      var storage :- CheckedMul(c.added, STORAGE_DISK_USAGE_CREDIT_PER_BYTE);
      var processing :- EphemeralCost(c, removedTotal);
      Ok(Fees(storage, processing, IdentityBytes(c.removal), SystemBytes(c.removal)))
  }

  ghost function FeeOf(op: DriveOperation): Result<FeeResult, FeeError>
  {
    FeeWith(op, if op.CalculatedCost? then RemovedTotal(op.cost.removal) else 0)
  }

  /** An operation has a fee exactly when it is not a grove operation: the cost itself cannot overflow. */
  lemma FeeOfExact(op: DriveOperation)
    ensures FeeOf(op).Ok? <==> !op.GroveOperation?
    ensures op.GroveOperation? ==> FeeOf(op) == Err(GroveOperationNotExecuted)
    ensures op.PreCalculated? ==> FeeOf(op) == Ok(op.fee)
    ensures op.CostCalculation? ==> FeeOf(op) == Ok(Fees(0, 0, map[], 0))
    ensures op.CalculatedCost? ==>
              FeeOf(op) == Ok(Fees(27000 * op.cost.added, ExactEphemeral(op.cost, RemovedTotal(op.cost.removal)),
                                   IdentityBytes(op.cost.removal), SystemBytes(op.cost.removal)))
  {
    if op.CalculatedCost? {
      EphemeralCostExact(op.cost, RemovedTotal(op.cost.removal));
    }
  }

  /** Removed bytes of an identity stay with it, epoch by epoch; those under the all-zero identifier, and an
      unsplit amount, go to the system. */
  lemma RemovedFiled(op: DriveOperation, id: OwnerId)
    requires op.CalculatedCost?
    ensures var fee, r := FeeOf(op), op.cost.removal;
            fee.Ok? &&
            match r
            case NoRemoval => fee.value.removed == map[] && fee.value.system == 0
            case BasicRemoval(amount) => fee.value.removed == map[] && fee.value.system == amount
            case SectionedRemoval(sections) =>
              (id in fee.value.removed <==> id in sections && id != NO_OWNER) &&
              (id in fee.value.removed ==> fee.value.removed[id] == sections[id]) &&
              fee.value.system == (if NO_OWNER in sections then Total(sections[NO_OWNER], 0) % U32 else 0)
  {
    FeeOfExact(op);
    TotalOfEmpty(0);
  }

  lemma WrapSum(n: nat, x: nat, rest: nat)
    ensures ((n + x) % U32 + rest) % U32 == (n + (x + rest)) % U32
  {
  }

  method TotalRemovedBytes(r: Removal) returns (n: u32)
    ensures n == RemovedTotal(r)
  {
    match r
    case NoRemoval => n := 0;
    case BasicRemoval(amount) => n := amount;
    case SectionedRemoval(sections) =>
      n := 0;
      var left := sections.Keys;
      while left != {}
        invariant left <= sections.Keys && n < U32
        invariant TotalBytes(sections) % U32 == (n + SumOver(sections, left)) % U32
        decreases left
      {
        var id :| id in left;
        SumOverPick(sections, left, id);
        WrapSum(n, Total(sections[id], 0), SumOver(sections, left - {id}));
        n := (n + Total(sections[id], 0)) % U32;
        left := left - {id};
      }
  }

  method OperationFee(op: DriveOperation) returns (r: Result<FeeResult, FeeError>)
    ensures r == FeeOf(op)
  {
    var removed: u32 := 0;
    if op.CalculatedCost? {
      removed := TotalRemovedBytes(op.cost.removal);
    }
    return FeeWith(op, removed);
  }

  // ---------- Sums ----------

  lemma PlusCommutes(a: Fees, b: Fees)
    ensures Plus(a, b) == Plus(b, a)
  {
    AddLedgersCommutes(a.removed, b.removed);
  }

  lemma PlusAssociates(a: Fees, b: Fees, c: Fees)
    ensures Plus(Plus(a, b), c) == Plus(a, Plus(b, c))
  {
    AddLedgersAssociates(a.removed, b.removed, c.removed);
  }

  lemma PlusZero(a: Fees)
    ensures Plus(a, NO_FEES) == a
  {
    AddLedgersZero(a.removed);
  }

  /** What fits after an addition fitted before it. */
  lemma FitsBefore(a: Fees, b: Fees)
    requires Fits(Plus(a, b))
    ensures Fits(a)
  {
    forall id, e | id in a.removed && e in a.removed[id] ensures a.removed[id][e] < U32 {
      var sum := AddLedgers(a.removed, b.removed);
      assert id in sum && e in sum[id] && AmountsFit(sum[id]);
    }
  }

  /** The exact fee of an operation that has one. */
  ghost function Fee(op: DriveOperation): Fees
  {
    if FeeOf(op).Ok? then FeeOf(op).value else NO_FEES
  }

  ghost function SumFees(ops: seq<DriveOperation>): Fees
  {
    if ops == [] then NO_FEES else Plus(Fee(ops[0]), SumFees(ops[1..]))
  }

  function BaseTotal(base: seq<(BaseOp, u64)>): nat
  {
    if base == [] then 0 else BaseCost(base[0].0) * base[0].1 + BaseTotal(base[1..])
  }

  /** The exact totals, as if every field were wide enough. */
  ghost function ExactTotal(base: seq<(BaseOp, u64)>, ops: seq<DriveOperation>): Fees
  {
    Plus(Fees(0, BaseTotal(base), map[], 0), SumFees(ops))
  }

  ghost predicate Chargeable(base: seq<(BaseOp, u64)>, ops: seq<DriveOperation>)
  {
    (forall op | op in ops :: !op.GroveOperation?) && Fits(ExactTotal(base, ops))
  }

  /** What an addition that fails leaves: the fields before the one that does not fit are added, those after
      it are as they were, and an identity whose bytes do not fit is lost. */
  ghost predicate Interrupted(before: Fees, rhs: Fees, after: Fees)
  {
    var sum := Plus(before, rhs);
    if sum.storage >= U64 then after == before
    else if sum.processing >= U64 then after == before.(storage := sum.storage)
    else
      after.storage == sum.storage && after.processing == sum.processing && after.system == before.system &&
      if FitsU32(sum.removed) then after.removed == sum.removed && sum.system >= U32
      else exists id :: Dropped(before.removed, rhs.removed, after.removed, id)
  }

  /** The fees being added up. */
  class FeeAggregate {
    var storage: u64
    var processing: u64
    const removed: RemovedBytesFromEpochsByIdentities
    var system: u32

    function Value(): FeeResult
      reads this, removed
    {
      Fees(storage, processing, removed.ledger, system)
    }

    constructor ()
      ensures Value() == NO_FEES && fresh(removed)
    {
      storage, processing, system := 0, 0, 0;
      removed := new RemovedBytesFromEpochsByIdentities();
    }

    /** Succeeds exactly when every exact sum fits its field, and then adds field by field. A failure keeps
        the fields added before the one that does not fit, and leaves those after it alone. */
    method CheckedAddAssign(rhs: FeeResult) returns (r: Result<(), FeeError>)
      modifies this, removed
      ensures r == if Fits(Plus(old(Value()), rhs)) then Ok(()) else Err(Overflow)
      ensures r.Ok? ==> Value() == Plus(old(Value()), rhs)
      ensures r.Err? ==> Interrupted(old(Value()), rhs, Value())
    {
      if storage + rhs.storage >= U64 {
        return Err(Overflow);
      }
      storage := storage + rhs.storage;
      if processing + rhs.processing >= U64 {
        return Err(Overflow);
      }
      processing := processing + rhs.processing;
      var added := removed.CheckedAddAssign(rhs.removed);
      if added.Err? || system + rhs.system >= U32 {
        return Err(Overflow);
      }
      system := system + rhs.system;
      return Ok(());
    }

    /** The base operations' part, which goes into the processing fee. */
    method AddBaseFees(base: seq<(BaseOp, u64)>) returns (r: Result<(), FeeError>)
      modifies this
      ensures r == if old(processing) + BaseTotal(base) < U64 then Ok(()) else Err(Overflow)
      ensures r.Ok? ==> processing == old(processing) + BaseTotal(base)
      ensures storage == old(storage) && system == old(system)
    {
      assert base[0..] == base;
      for n := 0 to |base|
        invariant storage == old(storage) && system == old(system)
        invariant old(processing) + BaseTotal(base) == processing + BaseTotal(base[n..])
      {
        assert base[n..][0] == base[n] && base[n..][1..] == base[n + 1..];
        assert BaseTotal(base[n..]) == BaseCost(base[n].0) * base[n].1 + BaseTotal(base[n + 1..]);
        var cost :- CheckedMul(BaseCost(base[n].0), base[n].1);
        processing :- CheckedAdd(processing, cost);
      }
      return Ok(());
    }
  }

  /** All operations are turned into fees before any is added, so a grove operation anywhere is an error. */
  method ConsumeToFees(ops: seq<DriveOperation>) returns (r: Result<seq<FeeResult>, FeeError>)
    ensures r.Ok? <==> forall op | op in ops :: !op.GroveOperation?
    ensures r.Ok? ==> |r.value| == |ops| && forall i | 0 <= i < |ops| :: r.value[i] == Fee(ops[i])
    ensures r.Err? ==> r.error == GroveOperationNotExecuted
  {
    var fees: seq<FeeResult> := [];
    for n := 0 to |ops|
      invariant |fees| == n
      invariant forall i | 0 <= i < n :: !ops[i].GroveOperation? && fees[i] == Fee(ops[i])
    {
      FeeOfExact(ops[n]);
      var fee :- OperationFee(ops[n]);
      fees := fees + [fee];
    }
    return Ok(fees);
  }

  /** One more fee, seen from the total: if it does not fit now, the total never will. */
  lemma OneFee(was: Fees, ops: seq<DriveOperation>, n: nat)
    requires n < |ops|
    ensures Plus(was, SumFees(ops[n..])) == Plus(Plus(was, Fee(ops[n])), SumFees(ops[n + 1..]))
    ensures Fits(Plus(was, SumFees(ops[n..]))) ==> Fits(Plus(was, Fee(ops[n])))
  {
    assert ops[n..][0] == ops[n] && ops[n..][1..] == ops[n + 1..];
    PlusAssociates(was, Fee(ops[n]), SumFees(ops[n + 1..]));
    if Fits(Plus(was, SumFees(ops[n..]))) {
      FitsBefore(Plus(was, Fee(ops[n])), SumFees(ops[n + 1..]));
    }
  }

  /** The loop over the fees of the operations. */
  method AddAll(aggregate: FeeAggregate, ops: seq<DriveOperation>, fees: seq<FeeResult>)
    returns (r: Result<(), FeeError>)
    requires |fees| == |ops| && forall i | 0 <= i < |ops| :: fees[i] == Fee(ops[i])
    modifies aggregate, aggregate.removed
    ensures r.Ok? <==> Fits(Plus(old(aggregate.Value()), SumFees(ops)))
    ensures r.Err? ==> r.error == Overflow
    ensures r.Ok? ==> aggregate.Value() == Plus(old(aggregate.Value()), SumFees(ops))
  {
    ghost var total := Plus(aggregate.Value(), SumFees(ops));
    assert ops[0..] == ops;
    for n := 0 to |ops|
      invariant total == Plus(aggregate.Value(), SumFees(ops[n..]))
    {
      OneFee(aggregate.Value(), ops, n);
      var sum := aggregate.CheckedAddAssign(fees[n]);
      if sum.Err? {
        return Err(sum.error);
      }
    }
    PlusZero(aggregate.Value());
    return Ok(());
  }

  lemma BaseTooMuch(base: seq<(BaseOp, u64)>, ops: seq<DriveOperation>)
    requires BaseTotal(base) >= U64
    ensures !Chargeable(base, ops)
  {
    assert ExactTotal(base, ops).processing >= U64;
  }

  /** The aggregate after the base operations. */
  method StartFees(base: seq<(BaseOp, u64)>) returns (aggregate: FeeAggregate, r: Result<(), FeeError>)
    ensures fresh(aggregate) && fresh(aggregate.removed)
    ensures r == if BaseTotal(base) < U64 then Ok(()) else Err(Overflow)
    ensures r.Ok? ==> aggregate.Value() == Fees(0, BaseTotal(base), map[], 0)
  {
    aggregate := new FeeAggregate();
    r := aggregate.AddBaseFees(base);
  }

  /** Fees are calculated exactly when there is no grove operation and every exact total fits its field,
      and then they are the exact totals. An absent list counts as an empty one. The base operations are
      added first, then grove operations are looked for. */
  method CalculateFee(base: seq<(BaseOp, u64)>, ops: seq<DriveOperation>) returns (r: Result<FeeResult, FeeError>)
    ensures r.Ok? <==> Chargeable(base, ops)
    ensures r.Ok? ==> r.value == ExactTotal(base, ops)
    ensures r.Err? ==> (r.error == GroveOperationNotExecuted <==> BaseTotal(base) < U64 && GroveOperation in ops)
  {
    var aggregate, started := StartFees(base);
    if started.Err? {
      BaseTooMuch(base, ops);
      return Err(started.error);
    }
    var fees := ConsumeToFees(ops);
    if fees.Err? {
      return Err(fees.error);
    }
    var added := AddAll(aggregate, ops, fees.value);
    if added.Err? {
      return Err(added.error);
    }
    return Ok(aggregate.Value());
  }

  // ---------- The order of the operations does not matter ----------

  lemma {:induction false} SumFeesPull(ops: seq<DriveOperation>, i: nat)
    requires i < |ops|
    ensures SumFees(ops) == Plus(Fee(ops[i]), SumFees(ops[..i] + ops[i + 1..]))
  {
    var rest := ops[..i] + ops[i + 1..];
    if i == 0 {
      assert rest == ops[1..];
    } else {
      SumFeesPull(ops[1..], i - 1);
      assert rest[0] == ops[0] && rest[1..] == ops[1..][..i - 1] + ops[1..][i..];
      var x, y, z := Fee(ops[0]), Fee(ops[i]), SumFees(rest[1..]);
      PlusAssociates(x, y, z);
      PlusCommutes(x, y);
      PlusAssociates(y, x, z);
    }
  }

  lemma WithoutOne(ops: seq<DriveOperation>, i: nat)
    requires i < |ops|
    ensures multiset(ops[..i] + ops[i + 1..]) == multiset(ops) - multiset{ops[i]}
  {
    assert ops == ops[..i] + [ops[i]] + ops[i + 1..];
  }

  lemma FindFirst(ops: seq<DriveOperation>, others: seq<DriveOperation>) returns (i: nat)
    requires ops != [] && multiset(ops) == multiset(others)
    ensures i < |others| && others[i] == ops[0]
    ensures multiset(ops[1..]) == multiset(others[..i] + others[i + 1..])
  {
    assert ops[0] in multiset(others);
    i :| 0 <= i < |others| && others[i] == ops[0];
    WithoutOne(others, i);
    WithoutFirst(ops);
  }

  lemma WithoutFirst(ops: seq<DriveOperation>)
    requires ops != []
    ensures multiset(ops[1..]) == multiset(ops) - multiset{ops[0]}
  {
    assert ops == [ops[0]] + ops[1..];
  }

  lemma {:induction false} SumFeesPermuted(ops: seq<DriveOperation>, others: seq<DriveOperation>)
    requires multiset(ops) == multiset(others)
    ensures SumFees(ops) == SumFees(others)
  {
    assert |multiset(ops)| == |multiset(others)|;
    if ops == [] {
    } else {
      var i := FindFirst(ops, others);
      SumFeesPermuted(ops[1..], others[..i] + others[i + 1..]);
      SumFeesPull(others, i);
    }
  }

  /** Any permutation of the operations is charged alike. */
  lemma ChargesIgnoreOrder(base: seq<(BaseOp, u64)>, ops: seq<DriveOperation>, others: seq<DriveOperation>)
    requires multiset(ops) == multiset(others)
    ensures Chargeable(base, ops) <==> Chargeable(base, others)
    ensures ExactTotal(base, ops) == ExactTotal(base, others)
  {
    SumFeesPermuted(ops, others);
    forall op ensures op in ops <==> op in others {
      assert op in ops <==> op in multiset(ops);
    }
  }

  // ---------- Removed bytes are conserved ----------

  /** The bytes an operation removed, wherever they are recorded. */
  ghost function RemovedBy(op: DriveOperation): nat
  {
    match op
    case PreCalculated(f) => TotalBytes(f.removed) + f.system
    case CalculatedCost(c) =>
      (match c.removal
       case NoRemoval => 0
       case BasicRemoval(amount) => amount
       case SectionedRemoval(sections) => TotalBytes(sections))
    case _ => 0
  }

  ghost function SumRemoved(ops: seq<DriveOperation>): nat
  {
    if ops == [] then 0 else RemovedBy(ops[0]) + SumRemoved(ops[1..])
  }

  /** The bytes of the all-zero identifier fit the u32 they are added up in. */
  predicate SystemFits(op: DriveOperation)
  {
    op.CalculatedCost? && op.cost.removal.SectionedRemoval? ==>
      Total(AmountsOf(op.cost.removal.sections, NO_OWNER), 0) < U32
  }

  lemma SplitConserves(op: DriveOperation)
    requires SystemFits(op)
    ensures RemovedBy(op) == TotalBytes(Fee(op).removed) + Fee(op).system
  {
    FeeOfExact(op);
    if op.CalculatedCost? {
      RemovalConserves(op.cost.removal);
    }
    NoBytes();
  }

  lemma NoBytes()
    ensures TotalBytes(map[]) == 0
  {
  }

  lemma RemovalConserves(r: Removal)
    requires r.SectionedRemoval? ==> Total(AmountsOf(r.sections, NO_OWNER), 0) < U32
    ensures TotalBytes(IdentityBytes(r)) + SystemBytes(r) ==
            match r case NoRemoval => 0 case BasicRemoval(n) => n case SectionedRemoval(l) => TotalBytes(l)
  {
    if r.SectionedRemoval? {
      WithoutSystem(r.sections);
    } else {
      NoBytes();
    }
  }

  lemma WithoutSystem(l: Ledger)
    ensures TotalBytes(l) == TotalBytes(l - {NO_OWNER}) + Total(AmountsOf(l, NO_OWNER), 0)
  {
    var others := l - {NO_OWNER};
    TotalOfEmpty(0);
    if NO_OWNER in l {
      SumOverPick(l, l.Keys, NO_OWNER);
      assert l.Keys - {NO_OWNER} == others.Keys;
      SumOverAgrees(l, others, others.Keys);
    } else {
      assert others == l;
    }
  }

  lemma {:induction false} SumOverAgrees(a: Ledger, b: Ledger, ids: set<OwnerId>)
    requires forall id | id in ids :: AmountsOf(a, id) == AmountsOf(b, id)
    ensures SumOver(a, ids) == SumOver(b, ids)
    decreases ids
  {
    if ids == {} {
    } else {
      var k :| k in ids;
      SumOverPick(a, ids, k);
      SumOverPick(b, ids, k);
      SumOverAgrees(a, b, ids - {k});
    }
  }

  /** Over any list, all removed bytes are accounted for: identities and system together hold them all. */
  lemma {:induction false} RemovedConserved(ops: seq<DriveOperation>)
    requires forall op | op in ops :: SystemFits(op)
    ensures SumRemoved(ops) == TotalBytes(SumFees(ops).removed) + SumFees(ops).system
  {
    if ops == [] {
    } else {
      assert ops[0] in ops && forall op | op in ops[1..] :: op in ops;
      RemovedConserved(ops[1..]);
      SplitConserves(ops[0]);
      TotalBytesOfSum(Fee(ops[0]).removed, SumFees(ops[1..]).removed);
    }
  }
}
