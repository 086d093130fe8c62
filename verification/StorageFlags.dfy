/** Storage flags: who paid for an element's bytes and in which epochs (drive/src/drive/flags.rs). */
module StorageFlags {
  import opened Prelude
  import opened ByteOrder

  const OWNER_SIZE: nat := 32

  type OwnerId = o: Bytes | |o| == OWNER_SIZE witness Zeros(OWNER_SIZE)
  type EpochBytes = map<u16, u32>
  type Sections = map<u16, u32>

  /** Bytes per epoch without a width limit. */
  type Amounts = map<u16, nat>

  function Zeros(n: nat): (r: Bytes)
    ensures |r| == n && forall i | 0 <= i < n :: r[i] == 0
  {
    if n == 0 then [] else [0] + Zeros(n - 1)
  }

  const NO_OWNER: OwnerId := Zeros(OWNER_SIZE)

  /** The base epoch holds the element's first bytes; the map, bytes added in other epochs. */
  datatype Flags =
    | SingleEpoch(base: u16)
    | MultiEpoch(base: u16, others: EpochBytes)
    | SingleEpochOwned(base: u16, owner: OwnerId)
    | MultiEpochOwned(base: u16, others: EpochBytes, owner: OwnerId)
  {
    function OwnerOf(): Option<OwnerId>
    {
      if SingleEpochOwned? || MultiEpochOwned? then Some(owner) else None
    }

    function EpochMap(): Option<EpochBytes>
    {
      if MultiEpoch? || MultiEpochOwned? then Some(others) else None
    }

    function Others(): EpochBytes
    {
      if EpochMap().Some? then EpochMap().value else map[]
    }

    /** The bytes recorded for an epoch outside the base. */
    function At(epoch: u16): u32
    {
      BytesAt(Others(), epoch)
    }

    /** Every recorded epoch is later than the base. */
    ghost predicate Ordered()
    {
      forall e | e in Others() :: base < e
    }
  }

  function BytesAt(m: Amounts, e: u16): nat
  {
    if e in m then m[e] else 0
  }

  datatype FlagsError =
    | DifferentOwners
    | OlderBaseEpoch
    | NotHeldAtEpoch
    | WrongSize
    | UnknownType

  /** What an update removed: nothing, an amount, or amounts per owner and epoch. */
  datatype Removal =
    | NoRemoval
    | BasicRemoval(amount: u32)
    | SectionedRemoval(sections: map<OwnerId, Sections>)

  /** u32 addition without overflow checks. */
  function Add(a: u32, b: u32): u32
  {
    if a + b < U32 then a + b else a + b - U32
  }

  // ---------- Merging ----------

  function CombineOwner(a: Flags, b: Flags): Result<Option<OwnerId>, FlagsError>
  {
    if a.OwnerOf().Some? then
      if b.OwnerOf().Some? && a.owner != b.owner then Err(DifferentOwners) else Ok(a.OwnerOf())
    else Ok(b.OwnerOf())
  }

  /** Key by key sum of two epoch maps. */
  function AddMaps(a: EpochBytes, b: EpochBytes): EpochBytes
  {
    map e | e in a.Keys + b.Keys ::
      if e in a && e in b then Add(a[e], b[e]) else if e in a then a[e] else b[e]
  }

  function CombineEpochBytes(a: Flags, b: Flags): Option<EpochBytes>
  {
    if a.EpochMap().Some? then
      if b.EpochMap().Some? then Some(AddMaps(a.EpochMap().value, b.EpochMap().value)) else a.EpochMap()
    else b.EpochMap()
  }

  /** The same with the source's loop, which edits a copy of the first map in place. */
  method MergeMaps(a: EpochBytes, b: EpochBytes) returns (combined: EpochBytes)
    ensures combined == AddMaps(a, b)
  {
    combined := a;
    var left := b.Keys;
    while left != {}
      invariant left <= b.Keys
      invariant combined.Keys == a.Keys + (b.Keys - left)
      invariant forall e | e in combined :: combined[e] == if e in left then a[e] else AddMaps(a, b)[e]
      decreases left
    {
      var e :| e in left;
      combined := combined[e := if e in combined then Add(combined[e], b[e]) else b[e]];
      left := left - {e};
    }
    assert combined.Keys == AddMaps(a, b).Keys;
  }

  function MakeFlags(base: u16, others: Option<EpochBytes>, owner: Option<OwnerId>): Flags
  {
    match (others, owner)
    case (None, None) => SingleEpoch(base)
    case (None, Some(o)) => SingleEpochOwned(base, o)
    case (Some(m), None) => MultiEpoch(base, m)
    case (Some(m), Some(o)) => MultiEpochOwned(base, m, o)
  }

  function CombineSameEpoch(a: Flags, b: Flags): Result<Flags, FlagsError>
  {
    var owner :- CombineOwner(a, b);
    Ok(MakeFlags(a.base, CombineEpochBytes(a, b), owner))
  }

  function OthersOf(a: Flags, b: Flags): EpochBytes
  {
    match CombineEpochBytes(a, b)
    case Some(m) => m
    case None => map[]
  }

  function AddAt(m: EpochBytes, epoch: u16, added: u32): EpochBytes
  {
    m[epoch := if epoch in m then Add(m[epoch], added) else added]
  }

  function CombineLaterAdding(a: Flags, b: Flags, added: u32): Result<Flags, FlagsError>
  {
    var owner :- CombineOwner(a, b);
    Ok(MakeFlags(a.base, Some(AddAt(OthersOf(a, b), b.base, added)), owner))
  }

  function CombineAdded(a: Flags, b: Flags, added: u32): Result<Flags, FlagsError>
  {
    if a.base == b.base then CombineSameEpoch(a, b)
    else if a.base < b.base then CombineLaterAdding(a, b, added)
    else Err(OlderBaseEpoch)
  }

  /** Every section is taken from an epoch that holds at least as much. */
  predicate Held(m: EpochBytes, sections: Sections)
  {
    forall e | e in sections :: e in m && sections[e] <= m[e]
  }

  function Subtract(m: EpochBytes, sections: Sections): EpochBytes
    requires Held(m, sections)
  {
    map e | e in m :: if e in sections then m[e] - sections[e] else m[e]
  }

  datatype SectionError = NoSuchEpoch | TooFewBytes

  /** The source's loop takes sections off one at a time, in no particular order, and stops at the first that
      is not held, with an error that tells why. When both kinds of failure are there, the order decides. */
  method SubtractSections(m: EpochBytes, sections: Sections) returns (r: Result<EpochBytes, SectionError>)
    ensures r.Ok? <==> Held(m, sections)
    ensures r.Ok? ==> r.value == Subtract(m, sections)
    ensures r == Err(NoSuchEpoch) ==> exists e | e in sections :: e !in m
    ensures r == Err(TooFewBytes) ==> exists e | e in sections :: e in m && m[e] < sections[e]
  {
    var others := m;
    var left := sections.Keys;
    while left != {}
      invariant left <= sections.Keys && others.Keys == m.Keys
      invariant forall e | e in sections && e !in left :: e in m && sections[e] <= m[e]
      invariant forall e | e in m :: others[e] == if e in sections && e !in left then m[e] - sections[e] else m[e]
      decreases left
    {
      var e :| e in left;
      if e !in others {
        return Err(NoSuchEpoch);
      }
      if others[e] < sections[e] {
        return Err(TooFewBytes);
      }
      others := others[e := others[e] - sections[e]];
      left := left - {e};
    }
    assert others == Subtract(m, sections);
    return Ok(others);
  }

  function Identifier(owner: Option<OwnerId>): OwnerId
  {
    if owner.Some? then owner.value else NO_OWNER
  }

  /** The other epochs' bytes after a removal on behalf of one owner. */
  function RemoveFor(others: EpochBytes, removal: Removal, identifier: OwnerId): Result<EpochBytes, FlagsError>
  {
    if !removal.SectionedRemoval? then Ok(others)
    else if |removal.sections| > 1 || identifier !in removal.sections then Err(DifferentOwners)
    else if !Held(others, removal.sections[identifier]) then Err(NotHeldAtEpoch)
    else Ok(Subtract(others, removal.sections[identifier]))
  }

  function CombineLaterRemoving(a: Flags, b: Flags, removal: Removal): Result<Flags, FlagsError>
  {
    match CombineOwner(a, b)
    case Err(e) => Err(e)
    case Ok(owner) =>
      match RemoveFor(OthersOf(a, b), removal, Identifier(owner))
      case Err(e) => Err(e)
      case Ok(others) => Ok(MakeFlags(a.base, Some(others), owner))
  }

  function CombineRemoved(a: Flags, b: Flags, removal: Removal): Result<Flags, FlagsError>
  {
    if a.base == b.base then CombineSameEpoch(a, b)
    else if a.base < b.base then CombineLaterRemoving(a, b, removal)
    else Err(OlderBaseEpoch)
  }

  // ---------- What merging keeps ----------

  predicate CompatibleOwners(a: Flags, b: Flags)
  {
    a.OwnerOf().Some? && b.OwnerOf().Some? ==> a.owner == b.owner
  }

  /** The base epoch stays, a set owner stays, and recorded epochs stay above the base. */
  ghost predicate Keeps(a: Flags, b: Flags, r: Flags)
  {
    r.base == a.base &&
    r.OwnerOf() == (if a.OwnerOf().Some? then a.OwnerOf() else b.OwnerOf()) &&
    (a.Ordered() && b.Ordered() ==> r.Ordered())
  }

  lemma OthersOfAt(a: Flags, b: Flags, e: u16)
    ensures BytesAt(OthersOf(a, b), e) == Add(a.At(e), b.At(e))
    ensures OthersOf(a, b).Keys == a.Others().Keys + b.Others().Keys
  {
  }

  lemma MadeFlags(base: u16, others: Option<EpochBytes>, owner: Option<OwnerId>)
    ensures var f := MakeFlags(base, others, owner);
            f.base == base && f.EpochMap() == others && f.OwnerOf() == owner
  {
  }

  lemma CombinedOwner(a: Flags, b: Flags)
    ensures CombineOwner(a, b).Ok? <==> CompatibleOwners(a, b)
    ensures CombineOwner(a, b).Ok? ==>
              CombineOwner(a, b).value == if a.OwnerOf().Some? then a.OwnerOf() else b.OwnerOf()
  {
  }

  /** Flags made from an epoch map that has the keys of both. */
  lemma MadeKeeps(a: Flags, b: Flags, others: Option<EpochBytes>)
    requires CompatibleOwners(a, b) && a.base <= b.base
    requires others.Some? ==> others.value.Keys <= a.Others().Keys + b.Others().Keys + ({b.base} - {a.base})
    ensures var r := MakeFlags(a.base, others, CombineOwner(a, b).value);
            Keeps(a, b, r) && r.EpochMap() == others
  {
    CombinedOwner(a, b);
    MadeFlags(a.base, others, CombineOwner(a, b).value);
  }

  lemma SameEpochMerge(a: Flags, b: Flags)
    requires a.base == b.base
    ensures CombineSameEpoch(a, b).Ok? <==> CompatibleOwners(a, b)
    ensures var r := CombineSameEpoch(a, b);
            r.Ok? ==> Keeps(a, b, r.value) && forall e :: r.value.At(e) == Add(a.At(e), b.At(e))
  {
    CombinedOwner(a, b);
    if CompatibleOwners(a, b) {
      var r := CombineSameEpoch(a, b).value;
      OthersOfAt(a, b, 0);
      MadeKeeps(a, b, CombineEpochBytes(a, b));
      assert r.Others() == OthersOf(a, b);
      forall e ensures r.At(e) == Add(a.At(e), b.At(e)) {
        OthersOfAt(a, b, e);
      }
    }
  }

  /** Growing merges fail only for an older base epoch or another owner; each epoch's bytes are the bytes
      of both flags, plus the added bytes in the new epoch when that is a later one. */
  lemma AddedMerge(a: Flags, b: Flags, added: u32)
    ensures CombineAdded(a, b, added).Ok? <==> a.base <= b.base && CompatibleOwners(a, b)
    ensures var r := CombineAdded(a, b, added);
            r.Ok? ==> Keeps(a, b, r.value) &&
                      forall e :: r.value.At(e) ==
                        Add(Add(a.At(e), b.At(e)), if a.base < b.base && e == b.base then added else 0)
  {
    CombinedOwner(a, b);
    if a.base == b.base {
      SameEpochMerge(a, b);
    } else if a.base < b.base && CompatibleOwners(a, b) {
      var r, m := CombineAdded(a, b, added).value, OthersOf(a, b);
      OthersOfAt(a, b, 0);
      MadeKeeps(a, b, Some(AddAt(m, b.base, added)));
      forall e ensures r.At(e) == Add(Add(a.At(e), b.At(e)), if e == b.base then added else 0) {
        OthersOfAt(a, b, e);
      }
    }
  }

  /** The bytes a removal takes from an epoch, on behalf of the owner of the merged flags. */
  function Taken(a: Flags, b: Flags, removal: Removal, e: u16): u32
  {
    var owner := Identifier(if a.OwnerOf().Some? then a.OwnerOf() else b.OwnerOf());
    if a.base < b.base && removal.SectionedRemoval? && owner in removal.sections && e in removal.sections[owner]
    then removal.sections[owner][e] else 0
  }

  /** Shrinking merges keep the same things, and each epoch gives up exactly its section. */
  lemma RemovedMerge(a: Flags, b: Flags, removal: Removal)
    ensures var r := CombineRemoved(a, b, removal);
            r.Ok? ==> Keeps(a, b, r.value) &&
                      forall e :: r.value.At(e) == Add(a.At(e), b.At(e)) - Taken(a, b, removal, e)
  {
    CombinedOwner(a, b);
    if a.base == b.base {
      SameEpochMerge(a, b);
    } else if CombineRemoved(a, b, removal).Ok? {
      var r, m := CombineRemoved(a, b, removal).value, OthersOf(a, b);
      var identifier := Identifier(CombineOwner(a, b).value);
      OthersOfAt(a, b, 0);
      MadeKeeps(a, b, Some(RemoveFor(m, removal, identifier).value));
      forall e ensures r.At(e) == Add(a.At(e), b.At(e)) - Taken(a, b, removal, e) {
        OthersOfAt(a, b, e);
        RemovedFor(m, removal, identifier, e);
      }
    }
  }

  /** The removal, if it names epochs, names one owner, that of the merged flags. */
  ghost predicate FiledUnder(a: Flags, b: Flags, removal: Removal)
  {
    removal.SectionedRemoval? ==>
      removal.sections.Keys == {Identifier(if a.OwnerOf().Some? then a.OwnerOf() else b.OwnerOf())}
  }

  /** The removal, if it names epochs, names one owner, that of the merged flags, and asks of each epoch
      no more than both flags hold there. */
  ghost predicate Removable(a: Flags, b: Flags, removal: Removal)
  {
    var owner := Identifier(if a.OwnerOf().Some? then a.OwnerOf() else b.OwnerOf());
    removal.SectionedRemoval? ==>
      removal.sections.Keys == {owner} && BothHold(a, b, removal.sections[owner])
  }

  /** Shrinking merges fail for an older base epoch, another owner, or, in a later epoch, for a removal
      that the flags do not hold; for nothing else. */
  lemma RemovedMergeSucceeds(a: Flags, b: Flags, removal: Removal)
    ensures CombineRemoved(a, b, removal).Ok? <==>
            a.base <= b.base && CompatibleOwners(a, b) && (a.base < b.base ==> Removable(a, b, removal))
    ensures CombineRemoved(a, b, removal).Err? ==>
              CombineRemoved(a, b, removal).error ==
              if b.base < a.base then OlderBaseEpoch
              else if !CompatibleOwners(a, b) || !FiledUnder(a, b, removal) then DifferentOwners
              else NotHeldAtEpoch
  {
    CombinedOwner(a, b);
    if a.base == b.base {
      SameEpochMerge(a, b);
    } else if a.base < b.base && CompatibleOwners(a, b) && removal.SectionedRemoval? {
      var identifier := Identifier(CombineOwner(a, b).value);
      OneKey(removal.sections, identifier);
      if identifier in removal.sections {
        HeldByBoth(a, b, removal.sections[identifier]);
      }
    }
  }

  /** The epochs of both flags hold each section. */
  ghost predicate BothHold(a: Flags, b: Flags, sections: Sections)
  {
    forall e | e in sections :: e in a.Others().Keys + b.Others().Keys && sections[e] <= Add(a.At(e), b.At(e))
  }

  lemma HeldByBoth(a: Flags, b: Flags, sections: Sections)
    ensures Held(OthersOf(a, b), sections) <==> BothHold(a, b, sections)
  {
    var m := OthersOf(a, b);
    forall e | e in sections
      ensures e in m && sections[e] <= m[e] <==>
              e in a.Others().Keys + b.Others().Keys && sections[e] <= Add(a.At(e), b.At(e))
    {
      OthersOfAt(a, b, e);
    }
  }

  lemma OneKey(m: map<OwnerId, Sections>, k: OwnerId)
    ensures |m| <= 1 && k in m <==> m.Keys == {k}
  {
    if |m| <= 1 && k in m {
      assert |m.Keys - {k}| == 0;
    }
    if m.Keys == {k} {
      assert |m| == |m.Keys| == 1;
    }
  }

  lemma RemovedFor(m: EpochBytes, removal: Removal, identifier: OwnerId, e: u16)
    requires RemoveFor(m, removal, identifier).Ok?
    ensures BytesAt(RemoveFor(m, removal, identifier).value, e) == BytesAt(m, e) -
            if removal.SectionedRemoval? then BytesAt(removal.sections[identifier], e) else 0
  {
  }

  /** The epochs recorded by a merge of two flags: those of both, and `more`; none at all when neither has a
      map, unless the second is of a later epoch. */
  predicate MergesEpochs(a: Flags, b: Flags, r: Flags, more: set<u16>)
  {
    (r.EpochMap().Some? <==> a.base < b.base || a.EpochMap().Some? || b.EpochMap().Some?) &&
    r.Others().Keys == a.Others().Keys + b.Others().Keys + more
  }

  lemma SameEpochs(a: Flags, b: Flags)
    requires a.base == b.base && CombineSameEpoch(a, b).Ok?
    ensures MergesEpochs(a, b, CombineSameEpoch(a, b).value, {})
  {
    OthersOfAt(a, b, 0);
    MadeFlags(a.base, CombineEpochBytes(a, b), CombineOwner(a, b).value);
  }

  lemma AddedEpochs(a: Flags, b: Flags, added: u32)
    requires CombineAdded(a, b, added).Ok?
    ensures MergesEpochs(a, b, CombineAdded(a, b, added).value, if a.base < b.base then {b.base} else {})
  {
    if a.base == b.base {
      SameEpochs(a, b);
    } else {
      OthersOfAt(a, b, 0);
      MadeFlags(a.base, Some(AddAt(OthersOf(a, b), b.base, added)), CombineOwner(a, b).value);
    }
  }

  lemma RemovedEpochs(a: Flags, b: Flags, removal: Removal)
    requires CombineRemoved(a, b, removal).Ok?
    ensures MergesEpochs(a, b, CombineRemoved(a, b, removal).value, {})
  {
    if a.base == b.base {
      SameEpochs(a, b);
    } else {
      OthersOfAt(a, b, 0);
      var owner := CombineOwner(a, b).value;
      MadeFlags(a.base, Some(RemoveFor(OthersOf(a, b), removal, Identifier(owner)).value), owner);
    }
  }

  /** A growing merge fails with an older base epoch first, then with different owners. */
  lemma AddedMergeErrors(a: Flags, b: Flags, added: u32)
    ensures CombineAdded(a, b, added).Err? ==>
              CombineAdded(a, b, added).error == if b.base < a.base then OlderBaseEpoch else DifferentOwners
  {
  }

  // ---------- Totals ----------

  /** The bytes recorded from an epoch on. */
  function Total(m: Amounts, from: nat): nat
    requires from <= U16
    decreases U16 - from, m
  {
    if from == U16 then 0 else BytesAt(m, from) + Total(m, from + 1)
  }

  /** The bytes recorded in epochs from `from` on, before `end`. */
  function Span(m: Amounts, from: nat, end: nat): nat
    requires from <= end <= U16
    decreases end - from, m
  {
    if from == end then 0 else BytesAt(m, from) + Span(m, from + 1, end)
  }

  lemma {:induction false} SpanAndRest(m: Amounts, from: nat, end: nat)
    requires from <= end <= U16
    ensures Total(m, from) == Span(m, from, end) + Total(m, end)
    decreases end - from
  {
    if from == end {
    } else {
      SpanAndRest(m, from + 1, end);
    }
  }

  lemma {:induction false} SpanNext(m: Amounts, from: nat, end: u16)
    requires from <= end
    ensures Span(m, from, end + 1) == Span(m, from, end) + BytesAt(m, end)
    decreases end - from
  {
    if from == end {
      assert Span(m, from + 1, end + 1) == 0;
    } else {
      SpanNext(m, from + 1, end);
    }
  }

  lemma {:induction false} TotalOfSum(a: Amounts, b: Amounts, c: Amounts, from: nat)
    requires from <= U16 && forall e: u16 :: BytesAt(c, e) == BytesAt(a, e) + BytesAt(b, e)
    ensures Total(c, from) == Total(a, from) + Total(b, from)
    decreases U16 - from
  {
    if from == U16 {
    } else {
      TotalOfSum(a, b, c, from + 1);
      var e: u16 := from;
      assert BytesAt(c, e) == BytesAt(a, e) + BytesAt(b, e);
    }
  }

  lemma {:induction false} TotalOfUpdate(m: EpochBytes, k: u16, v: u32, from: nat)
    requires from <= U16 && k !in m
    ensures Total(m[k := v], from) == Total(m, from) + if from <= k then v else 0
    decreases U16 - from
  {
    if from == U16 {
    } else {
      TotalOfUpdate(m, k, v, from + 1);
    }
  }

  function OthersTotal(f: Flags): nat
  {
    Total(f.Others(), 0)
  }

  lemma {:induction false} TotalOfEmpty(from: nat)
    requires from <= U16
    ensures Total(map[], from) == 0
    decreases U16 - from
  {
    if from == U16 {
    } else {
      TotalOfEmpty(from + 1);
    }
  }

  lemma MergedTotal(a: Flags, b: Flags)
    requires forall e: u16 :: a.At(e) + b.At(e) < U32
    ensures Total(OthersOf(a, b), 0) == OthersTotal(a) + OthersTotal(b)
  {
    forall e: u16 ensures BytesAt(OthersOf(a, b), e) == BytesAt(a.Others(), e) + BytesAt(b.Others(), e) {
      OthersOfAt(a, b, e);
      assert a.At(e) + b.At(e) < U32;
    }
    TotalOfSum(a.Others(), b.Others(), OthersOf(a, b), 0);
  }

  /** Bytes are conserved: as long as no epoch overflows, the total after a growing merge is both totals
      plus the added bytes, the latter only when the new epoch is a later one. */
  lemma AddedMergeTotal(a: Flags, b: Flags, added: u32)
    requires CombineAdded(a, b, added).Ok?
    requires forall e: u16 :: a.At(e) + b.At(e) + (if a.base < b.base && e == b.base then added else 0) < U32
    ensures OthersTotal(CombineAdded(a, b, added).value) ==
            OthersTotal(a) + OthersTotal(b) + if a.base < b.base then added else 0
  {
    AddedMerge(a, b, added);
    var extra: EpochBytes := if a.base < b.base then map[b.base := added] else map[];
    var both, r := OthersOf(a, b), CombineAdded(a, b, added).value;
    forall e: u16 ensures a.At(e) + b.At(e) < U32 && BytesAt(r.Others(), e) == BytesAt(both, e) + BytesAt(extra, e) {
      OthersOfAt(a, b, e);
      assert r.At(e) == BytesAt(r.Others(), e);
    }
    MergedTotal(a, b);
    TotalOfSum(both, extra, r.Others(), 0);
    TotalOfEmpty(0);
    TotalOfUpdate(map[], b.base, added, 0);
  }

  /** And the total after a shrinking merge is both totals minus the sections taken. */
  lemma RemovedMergeTotal(a: Flags, b: Flags, removal: Removal, taken: Sections)
    requires CombineRemoved(a, b, removal).Ok?
    requires forall e: u16 :: a.At(e) + b.At(e) < U32
    requires forall e: u16 :: BytesAt(taken, e) == Taken(a, b, removal, e)
    ensures OthersTotal(CombineRemoved(a, b, removal).value) == OthersTotal(a) + OthersTotal(b) - Total(taken, 0)
  {
    RemovedMerge(a, b, removal);
    var both, r := OthersOf(a, b), CombineRemoved(a, b, removal).value;
    forall e: u16 ensures BytesAt(both, e) == BytesAt(r.Others(), e) + BytesAt(taken, e) {
      OthersOfAt(a, b, e);
      assert r.At(e) == BytesAt(r.Others(), e);
      assert a.At(e) + b.At(e) < U32;
    }
    MergedTotal(a, b);
    TotalOfSum(r.Others(), taken, both, 0);
  }
}
