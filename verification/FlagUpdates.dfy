/** How an element's flags change on each update: the closures of `grove_apply_batch_with_add_costs`
    (drive/src/drive/grove_operations.rs). */
module FlagUpdates {
  import opened Prelude
  import opened ByteOrder
  import opened StorageFlags
  import opened RemovalSplit
  import opened FlagsCodec

  datatype Transition = UpdateBiggerSize(added: u32) | UpdateSmallerSize(removed: Removal) | OtherTransition

  datatype UpdateError = OldNotUnderstood | NewNotUnderstood | FlagsRemoved | CannotCombine

  function Combined(t: Transition, before: Option<Flags>, after: Flags): Result<Flags, FlagsError>
    requires !t.OtherTransition?
  {
    if before.None? then Ok(after)
    else if t.UpdateBiggerSize? then CombineAdded(before.value, after, t.added)
    else CombineRemoved(before.value, after, t.removed)
  }

  /** The flags stored by an update, given the bytes of the old flags, if the element had any. */
  function Stored(t: Transition, before: Option<Bytes>, after: Bytes): Result<Bytes, UpdateError>
  {
    if before.None? then Ok(after)
    else
      match (Deserialize(before.value), Deserialize(after))
      case (Err(_), _) => Err(OldNotUnderstood)
      case (_, Err(_)) => Err(NewNotUnderstood)
      case (_, Ok(None)) => Err(FlagsRemoved)
      case (Ok(o), Ok(Some(n))) =>
        if t.OtherTransition? then Ok(after)
        else
          match Combined(t, o, n)
          case Ok(f) => Ok(Serialize(f))
          case Err(_) => Err(CannotCombine)
  }

  /** An element about to be written, whose flags the update closure may overwrite. */
  class PendingElement {
    var flags: Bytes

    constructor (f: Bytes)
      ensures flags == f
    {
      flags := f;
    }

    /** Reports whether the flags were changed; a failure leaves them alone. */
    method Update(t: Transition, before: Option<Bytes>) returns (r: Result<bool, UpdateError>)
      modifies this
      ensures match Stored(t, before, old(flags))
              case Ok(b) => flags == b && r == Ok(b != old(flags))
              case Err(e) => flags == old(flags) && r == Err(e)
      ensures before.None? ==> r == Ok(false) && flags == old(flags)
    {
      if before.None? {
        return Ok(false);
      }
      var was := Deserialize(before.value);
      if was.Err? {
        return Err(OldNotUnderstood);
      }
      var will := Deserialize(flags);
      if will.Err? {
        return Err(NewNotUnderstood);
      }
      if will.value.None? {
        return Err(FlagsRemoved);
      }
      if t.OtherTransition? {
        return Ok(false);
      }
      var combined := Combined(t, was.value, will.value.value);
      if combined.Err? {
        return Err(CannotCombine);
      }
      var bytes := Serialize(combined.value);
      if bytes == flags {
        return Ok(false);
      }
      flags := bytes;
      return Ok(true);
    }
  }

  /** An element without old flags keeps its new ones. Otherwise both must decode, the new ones to flags. */
  lemma StoredExactly(t: Transition, before: Option<Bytes>, after: Bytes)
    ensures before.None? ==> Stored(t, before, after) == Ok(after)
    ensures before.Some? && Deserialize(before.value).Err? ==> Stored(t, before, after) == Err(OldNotUnderstood)
    ensures before.Some? && Deserialize(before.value).Ok? && Deserialize(after).Err? ==>
              Stored(t, before, after) == Err(NewNotUnderstood)
    ensures before.Some? && Deserialize(before.value).Ok? && after == [] ==>
              Stored(t, before, after) == Err(FlagsRemoved)
  {
  }

  /** Old flags that are there but empty count as none: the new flags are stored, in their serialized form. */
  lemma EmptyOldFlags(t: Transition, f: Flags)
    requires Deserialize(Serialize(f)) == Ok(Some(f))
    ensures Stored(t, Some([]), Serialize(f)) == Ok(Serialize(f))
  {
  }

  /** A growing update combines by the added bytes, a shrinking one by the removal, any other not at all; what
      cannot be combined is an error. */
  lemma StoredCombined(t: Transition, f: Flags, g: Flags)
    requires Deserialize(Serialize(f)) == Ok(Some(f)) && Deserialize(Serialize(g)) == Ok(Some(g))
    ensures var r := Stored(t, Some(Serialize(f)), Serialize(g));
            match t
            case OtherTransition => r == Ok(Serialize(g))
            case UpdateBiggerSize(added) => CombinedAs(CombineAdded(f, g, added), r)
            case UpdateSmallerSize(removal) => CombinedAs(CombineRemoved(f, g, removal), r)
  {
  }

  predicate CombinedAs(merged: Result<Flags, FlagsError>, r: Result<Bytes, UpdateError>)
  {
    if merged.Ok? then r == Ok(Serialize(merged.value)) else r == Err(CannotCombine)
  }

  /** The split closure: an element without flags has its removed bytes counted in one sum. */
  function SplitRemoved(flags: Bytes, keyBytes: u32, valueBytes: u32): Result<(Removal, Removal), UpdateError>
  {
    match Deserialize(flags)
    case Err(_) => Err(OldNotUnderstood)
    case Ok(None) => Ok((BasicRemoval(keyBytes), BasicRemoval(valueBytes)))
    case Ok(Some(f)) => Ok(Split(f, keyBytes, valueBytes))
  }

  /** Flags that do not decode are an error, empty ones leave each amount whole, others split each amount. */
  lemma SplitRemovedExactly(flags: Bytes, f: Flags, keyBytes: u32, valueBytes: u32)
    ensures Deserialize(flags).Err? ==> SplitRemoved(flags, keyBytes, valueBytes) == Err(OldNotUnderstood)
    ensures SplitRemoved([], keyBytes, valueBytes) == Ok((BasicRemoval(keyBytes), BasicRemoval(valueBytes)))
    ensures Deserialize(flags) == Ok(Some(f)) ==>
              SplitRemoved(flags, keyBytes, valueBytes) == Ok(Split(f, keyBytes, valueBytes))
  {
  }

  // ---------- Runs of updates to an unowned element ----------

  /** An update that grows or shrinks the value, written with the flags of its epoch. What a shrinking update
      removed reaches the update closure split by epoch, or as one amount. */
  datatype Step = Grow(epoch: u16, added: u32) | Shrink(epoch: u16, removed: u32) | Drop(epoch: u16, removed: u32)

  /** One step on the stored bytes: the split closure, for a split removal, then the update closure. */
  function Apply(stored: Bytes, s: Step): Result<Bytes, UpdateError>
  {
    match s
    case Grow(epoch, added) => Stored(UpdateBiggerSize(added), Some(stored), Serialize(SingleEpoch(epoch)))
    case Drop(epoch, removed) =>
      Stored(UpdateSmallerSize(BasicRemoval(removed)), Some(stored), Serialize(SingleEpoch(epoch)))
    case Shrink(epoch, removed) =>
      match SplitRemoved(stored, 0, removed)
      case Err(e) => Err(e)
      case Ok((_, value)) => Stored(UpdateSmallerSize(value), Some(stored), Serialize(SingleEpoch(epoch)))
  }

  /** A run that has left bytes which the next update can read. */
  predicate Readable(r: Result<Bytes, UpdateError>)
  {
    r.Ok? && Deserialize(r.value).Ok?
  }

  function Run(stored: Bytes, steps: seq<Step>): Result<Bytes, UpdateError>
    decreases steps
  {
    if steps == [] then Ok(stored)
    else
      match Apply(stored, steps[0])
      case Err(e) => Err(e)
      case Ok(next) => Run(next, steps[1..])
  }

  /** The account the bytes are meant to keep: one base epoch and the bytes of later epochs. */
  datatype Account = Account(base: u16, others: EpochBytes)

  function FlagsOf(a: Account): Flags
  {
    if a.others == map[] then SingleEpoch(a.base) else MultiEpoch(a.base, a.others)
  }

  ghost predicate Proper(a: Account)
  {
    forall e | e in a.others :: a.base < e
  }

  /** What a step means: nothing in the base epoch; later, growth is added to its epoch, a split removal is
      taken from the later epochs, which must hold that much, and an unsplit one takes nothing, but ruins an
      account without later epochs. */
  function Book(a: Account, s: Step): Option<Account>
  {
    if s.epoch < a.base then None
    else if s.epoch == a.base then Some(a)
    else
      match s
      case Grow(epoch, added) => Some(a.(others := AddAt(a.others, epoch, added)))
      case Shrink(_, removed) =>
        var sections := SectionsOf(FlagsOf(a), removed);
        if removed > Total(a.others, 0) || !Held(a.others, sections) then None
        else Some(a.(others := Subtract(a.others, sections)))
      case Drop(_, _) => if a.others == map[] then None else Some(a)
  }

  function BookAll(a: Account, steps: seq<Step>): Option<Account>
    decreases steps
  {
    if steps == [] then Some(a)
    else
      match Book(a, steps[0])
      case None => None
      case Some(next) => BookAll(next, steps[1..])
  }

  lemma FlagsRoundTrip(a: Account)
    ensures Deserialize(Serialize(FlagsOf(a))) == Ok(Some(FlagsOf(a)))
    ensures FlagsOf(a).Others() == a.others && FlagsOf(a).base == a.base && FlagsOf(a).OwnerOf().None?
  {
    if a.others == map[] {
      SingleRoundTrip(FlagsOf(a));
    } else {
      MultiRoundTrip(FlagsOf(a));
    }
  }

  /** A shrinking step removes something; a removal of nothing is not an update to a smaller size. */
  predicate Real(s: Step)
  {
    s.Shrink? ==> s.removed > 0
  }

  lemma GrowRefines(a: Account, s: Step)
    requires Proper(a) && s.Grow?
    ensures match Book(a, s)
            case None => Apply(Serialize(FlagsOf(a)), s).Err?
            case Some(next) => Apply(Serialize(FlagsOf(a)), s) == Ok(Serialize(FlagsOf(next))) && Proper(next)
  {
    FlagsRoundTrip(a);
    SingleRoundTrip(SingleEpoch(s.epoch));
  }

  /** A split removal on stored bytes is a shrinking merge of what they decode to. */
  lemma ApplyShrink(a: Account, s: Step)
    requires s.Shrink?
    ensures var f := FlagsOf(a);
            var removal := SectionedRemoval(map[NO_OWNER := SectionsOf(f, s.removed)]);
            var merged := CombineRemoved(f, SingleEpoch(s.epoch), removal);
            Apply(Serialize(f), s) == if merged.Ok? then Ok(Serialize(merged.value)) else Err(CannotCombine)
  {
    FlagsRoundTrip(a);
    SingleRoundTrip(SingleEpoch(s.epoch));
    assert Split(FlagsOf(a), 0, s.removed).1 == SectionedRemoval(map[NO_OWNER := SectionsOf(FlagsOf(a), s.removed)]);
  }

  lemma ShrinkRefines(a: Account, s: Step)
    requires Proper(a) && s.Shrink? && s.removed > 0
    ensures match Book(a, s)
            case None => Apply(Serialize(FlagsOf(a)), s).Err?
            case Some(next) => Apply(Serialize(FlagsOf(a)), s) == Ok(Serialize(FlagsOf(next))) && Proper(next)
  {
    var f, later := FlagsOf(a), SingleEpoch(s.epoch);
    FlagsRoundTrip(a);
    ApplyShrink(a, s);
    if a.base < s.epoch {
      SplitThenMerge(f, later, 0, s.removed);
      TotalOfEmpty(0);
      var sections := SectionsOf(f, s.removed);
      assert OthersOf(f, later) == a.others;
      assert map[NO_OWNER := sections][NO_OWNER] == sections;
      SplitRecords(f, s.removed);
      if s.removed <= Total(a.others, 0) {
        assert Held(a.others, sections);
      }
    }
  }

  /** An unsplit removal on stored bytes is a merge that takes nothing. */
  lemma ApplyDrop(a: Account, s: Step)
    requires s.Drop?
    ensures var merged := CombineRemoved(FlagsOf(a), SingleEpoch(s.epoch), BasicRemoval(s.removed));
            Apply(Serialize(FlagsOf(a)), s) == if merged.Ok? then Ok(Serialize(merged.value)) else Err(CannotCombine)
  {
    FlagsRoundTrip(a);
    SingleRoundTrip(SingleEpoch(s.epoch));
  }

  lemma DropRefines(a: Account, s: Step)
    requires Proper(a) && s.Drop?
    ensures match Book(a, s)
            case None => !Readable(Apply(Serialize(FlagsOf(a)), s))
            case Some(next) => Apply(Serialize(FlagsOf(a)), s) == Ok(Serialize(FlagsOf(next))) && Proper(next)
  {
    ApplyDrop(a, s);
    if a.base < s.epoch {
      var merged := CombineRemoved(FlagsOf(a), SingleEpoch(s.epoch), BasicRemoval(s.removed));
      assert merged == Ok(MultiEpoch(a.base, a.others));
      MultiRoundTrip(MultiEpoch(a.base, a.others));
    }
  }

  lemma StepRefines(a: Account, s: Step)
    requires Proper(a) && Real(s)
    ensures match Book(a, s)
            case None =>
              !Readable(Apply(Serialize(FlagsOf(a)), s)) && (!s.Drop? ==> Apply(Serialize(FlagsOf(a)), s).Err?)
            case Some(next) => Apply(Serialize(FlagsOf(a)), s) == Ok(Serialize(FlagsOf(next))) && Proper(next)
  {
    match s
    case Grow(_, _) => GrowRefines(a, s);
    case Shrink(_, _) => ShrinkRefines(a, s);
    case Drop(_, _) => DropRefines(a, s);
  }

  /** Bytes that cannot be read end every run of further updates. */
  lemma Unreadable(stored: Bytes, steps: seq<Step>)
    requires Deserialize(stored).Err?
    ensures !Readable(Run(stored, steps))
  {
  }

  /** The bytes keep the account: every run of updates on the stored bytes leaves readable bytes exactly when
      the account can be kept, and then holds exactly the account's flags. Without unsplit removals a run
      whose account cannot be kept fails outright. */
  lemma {:induction false} RunRefinesAccount(a: Account, steps: seq<Step>)
    requires Proper(a) && forall s | s in steps :: Real(s)
    ensures match BookAll(a, steps)
            case None =>
              !Readable(Run(Serialize(FlagsOf(a)), steps)) &&
              ((forall s | s in steps :: !s.Drop?) ==> Run(Serialize(FlagsOf(a)), steps).Err?)
            case Some(last) =>
              Run(Serialize(FlagsOf(a)), steps) == Ok(Serialize(FlagsOf(last))) &&
              Deserialize(Serialize(FlagsOf(last))) == Ok(Some(FlagsOf(last))) &&
              Proper(last) && last.base == a.base
    decreases steps
  {
    if steps == [] {
      FlagsRoundTrip(a);
    } else {
      var s := steps[0];
      assert s in steps && forall t | t in steps[1..] :: t in steps;
      StepRefines(a, s);
      if Book(a, s).Some? {
        RunRefinesAccount(Book(a, s).value, steps[1..]);
      } else if Apply(Serialize(FlagsOf(a)), s).Ok? {
        Unreadable(Apply(Serialize(FlagsOf(a)), s).value, steps[1..]);
      }
    }
  }

  lemma RunKept(a: Account, steps: seq<Step>, last: Account)
    requires Proper(a) && (forall s | s in steps :: Real(s)) && BookAll(a, steps) == Some(last)
    ensures Run(Serialize(FlagsOf(a)), steps) == Ok(Serialize(FlagsOf(last)))
    ensures Deserialize(Serialize(FlagsOf(last))) == Ok(Some(FlagsOf(last)))
  {
    RunRefinesAccount(a, steps);
  }

  /** The first step after the base epoch, if there is one, grows. */
  predicate GrowsFirst(steps: seq<Step>, base: u16)
    decreases steps
  {
    steps == [] || (if steps[0].epoch == base then GrowsFirst(steps[1..], base) else steps[0].Grow?)
  }

  lemma {:induction false} DropsBooked(a: Account, steps: seq<Step>)
    requires forall s | s in steps :: !s.Shrink? && a.base <= s.epoch
    ensures BookAll(a, steps).Some? <==> a.others != map[] || GrowsFirst(steps, a.base)
    decreases steps
  {
    if steps == [] {
    } else {
      assert steps[0] in steps && forall t | t in steps[1..] :: t in steps;
      if Book(a, steps[0]).Some? {
        var next := Book(a, steps[0]).value;
        DropsBooked(next, steps[1..]);
        if a.base < steps[0].epoch && steps[0].Grow? {
          assert steps[0].epoch in next.others;
        }
      }
    }
  }

  /** A run of growth and unsplit removals leaves readable bytes exactly when the element has later epochs
      already, or no removal in a later epoch comes before the first growth in one. */
  lemma ReadableExactlyWhenGrowsFirst(a: Account, steps: seq<Step>)
    requires Proper(a) && forall s | s in steps :: !s.Shrink? && a.base <= s.epoch
    ensures Readable(Run(Serialize(FlagsOf(a)), steps)) <==> a.others != map[] || GrowsFirst(steps, a.base)
  {
    DropsBooked(a, steps);
    RunRefinesAccount(a, steps);
  }

  // ---------- What the account says ----------

  /** The bytes that a run of growth adds in an epoch after the base. */
  function AddedIn(steps: seq<Step>, base: u16, e: u16): nat
  {
    if steps == [] then 0
    else
      var now := if steps[0].Grow? && steps[0].epoch == e && base < e then steps[0].added else 0;
      now + AddedIn(steps[1..], base, e)
  }

  lemma {:induction false} GrowthBooked(a: Account, steps: seq<Step>, e: u16)
    requires forall s | s in steps :: s.Grow? && a.base <= s.epoch
    ensures var last := BookAll(a, steps);
            last.Some? && last.value.base == a.base &&
            BytesAt(last.value.others, e) == (BytesAt(a.others, e) + AddedIn(steps, a.base, e)) % U32
    decreases steps
  {
    if steps == [] {
    } else {
      assert steps[0] in steps && forall t | t in steps[1..] :: t in steps;
      var next := Book(a, steps[0]).value;
      GrowthBooked(next, steps[1..], e);
      var now := if steps[0].epoch == e && a.base < e then steps[0].added else 0;
      assert BytesAt(next.others, e) == Add(BytesAt(a.others, e), now);
      WrapLater(BytesAt(a.others, e), now, AddedIn(steps[1..], a.base, e));
    }
  }

  lemma WrapLater(x: u32, y: u32, rest: nat)
    ensures (Add(x, y) + rest) % U32 == (x + y + rest) % U32
  {
  }

  /** What an epoch holds after a run of growth, in 32 bits. */
  function Grown(a: Account, steps: seq<Step>, e: u16): u32
  {
    (BytesAt(a.others, e) + AddedIn(steps, a.base, e)) % U32
  }

  lemma GrowthAccount(a: Account, steps: seq<Step>)
    requires forall s | s in steps :: s.Grow? && a.base <= s.epoch
    ensures var last := BookAll(a, steps);
            last.Some? && last.value.base == a.base && forall e :: BytesAt(last.value.others, e) == Grown(a, steps, e)
  {
    GrowthBooked(a, steps, 0);
    forall e ensures BytesAt(BookAll(a, steps).value.others, e) == Grown(a, steps, e) {
      GrowthBooked(a, steps, e);
    }
  }

  /** The flags of an account hold what it says. */
  lemma FlagsHold(a: Account)
    ensures FlagsOf(a).base == a.base && FlagsOf(a).OwnerOf().None?
    ensures forall e :: FlagsOf(a).At(e) == BytesAt(a.others, e)
  {
  }

  /** Over every run of growing updates to an unowned element, at epochs no older than its base, the stored
      bytes decode to flags whose base epoch never changed and in which each later epoch holds what it held
      and the sum of the bytes added in it, modulo 2^32: exactly that sum as long as it fits 32 bits. */
  lemma GrowthRun(a: Account, steps: seq<Step>) returns (f: Flags)
    requires Proper(a) && forall s | s in steps :: s.Grow? && a.base <= s.epoch
    ensures Run(Serialize(FlagsOf(a)), steps) == Ok(Serialize(f))
    ensures Deserialize(Serialize(f)) == Ok(Some(f))
    ensures f.base == a.base && f.OwnerOf().None?
    ensures forall e :: f.At(e) == Grown(a, steps, e)
  {
    GrowthAccount(a, steps);
    var last := BookAll(a, steps).value;
    RunKept(a, steps, last);
    f := FlagsOf(last);
    FlagsHold(last);
  }

  /** A run from creation: an element written with single-epoch flags and then grown holds, in each later
      epoch, the bytes added in it. */
  lemma CreatedThenGrown(t: Transition, base: u16, steps: seq<Step>) returns (f: Flags)
    requires forall s | s in steps :: s.Grow? && base <= s.epoch
    ensures var created := Stored(t, None, Serialize(SingleEpoch(base)));
            created.Ok? && Run(created.value, steps) == Ok(Serialize(f)) && Deserialize(Serialize(f)) == Ok(Some(f))
    ensures f.base == base && f.OwnerOf().None?
    ensures forall e :: f.At(e) == Grown(Account(base, map[]), steps, e)
  {
    var a := Account(base, map[]);
    StoredExactly(t, None, Serialize(SingleEpoch(base)));
    assert FlagsOf(a) == SingleEpoch(base);
    f := GrowthRun(a, steps);
  }

  /** A growing step does not wrap its epoch's bytes. */
  predicate Fits(a: Account, s: Step)
  {
    s.Grow? && a.base < s.epoch ==> BytesAt(a.others, s.epoch) + s.added < U32
  }

  /** What a step adds or removes after the base epoch. */
  function Added(s: Step, base: u16): nat
  {
    if s.Grow? && base < s.epoch then s.added else 0
  }

  function Removed(s: Step, base: u16): nat
  {
    if !s.Grow? && base < s.epoch then s.removed else 0
  }

  /** Each booked step changes the total by what it added, less what was recorded of what it removed. A
      removal is always recorded short, so the account keeps more than is left. */
  lemma BookedTotal(a: Account, s: Step)
    requires Proper(a) && Real(s) && Book(a, s).Some? && Fits(a, s)
    ensures var after := Total(Book(a, s).value.others, 0);
            var left := Total(a.others, 0) + Added(s, a.base) - Removed(s, a.base);
            after >= left && (after == left <==> Removed(s, a.base) == 0)
    ensures s.Shrink? && a.base < s.epoch ==>
              Total(Book(a, s).value.others, 0) ==
              Total(a.others, 0) - Total(SectionsOf(FlagsOf(a), s.removed), 0)
  {
    FlagsRoundTrip(a);
    if a.base < s.epoch {
      var next := Book(a, s).value.others;
      TotalOfEmpty(0);
      match s
      case Grow(epoch, added) =>
        TotalOfUpdate(map[], epoch, added, 0);
        TotalOfSum(a.others, map[epoch := added], next, 0);
      case Shrink(_, removed) =>
        SplitRecords(FlagsOf(a), removed);
        TotalOfSum(next, SectionsOf(FlagsOf(a), removed), a.others, 0);
      case Drop(_, _) =>
    }
  }

  function AllAdded(steps: seq<Step>, base: u16): nat
  {
    if steps == [] then 0 else Added(steps[0], base) + AllAdded(steps[1..], base)
  }

  function AllRemoved(steps: seq<Step>, base: u16): nat
  {
    if steps == [] then 0 else Removed(steps[0], base) + AllRemoved(steps[1..], base)
  }

  /** No step of a run wraps. */
  predicate AllFit(a: Account, steps: seq<Step>)
    decreases steps
  {
    steps == [] ||
    (Fits(a, steps[0]) && (Book(a, steps[0]).Some? ==> AllFit(Book(a, steps[0]).value, steps[1..])))
  }

  /** Over every run the account keeps at least the bytes added less the bytes removed after the base epoch,
      and exactly those only if nothing was removed after it. */
  lemma {:induction false} RunTotal(a: Account, steps: seq<Step>)
    requires Proper(a) && (forall s | s in steps :: Real(s)) && AllFit(a, steps) && BookAll(a, steps).Some?
    ensures var after := Total(BookAll(a, steps).value.others, 0);
            var left := Total(a.others, 0) + AllAdded(steps, a.base) - AllRemoved(steps, a.base);
            after >= left && (after == left <==> AllRemoved(steps, a.base) == 0)
    decreases steps
  {
    if steps == [] {
    } else {
      assert steps[0] in steps && forall t | t in steps[1..] :: t in steps;
      BookedTotal(a, steps[0]);
      StepRefines(a, steps[0]);
      RunTotal(Book(a, steps[0]).value, steps[1..]);
    }
  }

  // ---------- Where updates go wrong ----------

  /** An update of equal size keeps the new flags as they are, and with them a new base epoch. So the account
      survives it exactly when it has that base epoch and no later ones. */
  lemma SameSizeForgets(a: Account, epoch: u16)
    ensures var r := Stored(OtherTransition, Some(Serialize(FlagsOf(a))), Serialize(SingleEpoch(epoch)));
            r == Ok(Serialize(SingleEpoch(epoch))) &&
            (r == Ok(Serialize(FlagsOf(a))) <==> a == Account(epoch, map[]))
  {
    FlagsRoundTrip(a);
    SingleRoundTrip(SingleEpoch(epoch));
    if Serialize(SingleEpoch(epoch)) == Serialize(FlagsOf(a)) {
      SerializeInjective(SingleEpoch(epoch), FlagsOf(a));
    }
  }

  /** A removal that is not split by epoch turns single-epoch flags into bytes that no later update can read. */
  lemma UnreadableAfterShrink(base: u16, epoch: u16, amount: u32, t: Transition, after: Bytes)
    requires base < epoch
    ensures var r := Stored(UpdateSmallerSize(BasicRemoval(amount)), Some(Serialize(SingleEpoch(base))),
                            Serialize(SingleEpoch(epoch)));
            r.Ok? && Stored(t, Some(r.value), after) == Err(OldNotUnderstood)
  {
    SingleRoundTrip(SingleEpoch(base));
    SingleRoundTrip(SingleEpoch(epoch));
    MultiRoundTrip(MultiEpoch(base, map[]));
  }

  /** An owned element that grows in a later epoch is stored with flags that are not read back, unless two
      bytes of its owner spell that epoch. */
  lemma OwnedGrowthNotRecovered(base: u16, owner: OwnerId, epoch: u16, added: u32)
    requires base < epoch && OwnerEpoch(owner) != epoch
    ensures var f := MultiEpochOwned(base, map[epoch := added], owner);
            Stored(UpdateBiggerSize(added), Some(Serialize(SingleEpochOwned(base, owner))),
                   Serialize(SingleEpochOwned(epoch, owner))) == Ok(Serialize(f)) &&
            Deserialize(Serialize(f)) != Ok(Some(f))
  {
    SingleRoundTrip(SingleEpochOwned(base, owner));
    SingleRoundTrip(SingleEpochOwned(epoch, owner));
    var f := MultiEpochOwned(base, map[epoch := added], owner);
    assert AddAt(map[], epoch, added) == map[epoch := added];
    MultiOwnedNotRecovered(f);
  }
}
