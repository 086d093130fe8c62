/** Splitting removed bytes over the epochs that hold them: `split_storage_removed_bytes`. */
module RemovalSplit {
  import opened Prelude
  import opened StorageFlags

  /** Epochs in ascending order: each that holds less than what is left gives all it has, and the first
      that holds enough ends the walk with a section of zero; what no epoch covers falls on the base. */
  function SplitFrom(m: EpochBytes, base: u16, e: nat, left: u32, sections: Sections): Sections
    requires e <= U16
    decreases U16 - e, m
  {
    if left == 0 then sections
    else if e == U16 then sections[base := left]
    else if e !in m then SplitFrom(m, base, e + 1, left, sections)
    else if m[e] < left then SplitFrom(m, base, e + 1, left - m[e], sections[e := m[e]])
    else sections[e := 0]
  }

  /** Single-epoch flags put everything on the base epoch. */
  function SectionsOf(f: Flags, removed: u32): Sections
  {
    match f.EpochMap()
    case None => if removed > 0 then map[f.base := removed] else map[]
    case Some(m) => SplitFrom(m, f.base, 0, removed, map[])
  }

  /** The walk over the map as the source writes it: a double-ended reverse iterator read from its back. */
  method SectionedRemovalLoop(removed: u32, base: u16, others: EpochBytes) returns (sections: Sections)
    ensures sections == SplitFrom(others, base, 0, removed, map[])
  {
    var bytesLeft := removed;
    sections := map[];
    var e := 0;
    while bytesLeft > 0 && e < U16
      invariant 0 <= e <= U16 && 0 <= bytesLeft < U32
      invariant SplitFrom(others, base, 0, removed, map[]) == SplitFrom(others, base, e, bytesLeft, sections)
      decreases bytesLeft > 0, U16 - e
    {
      if e in others {
        if others[e] < bytesLeft {
          bytesLeft := bytesLeft - others[e];
          sections := sections[e := others[e]];
        } else {
          bytesLeft := 0;
          sections := sections[e := bytesLeft];
        }
      }
      e := e + 1;
    }
    if bytesLeft > 0 {
      sections := sections[base := bytesLeft];
    }
  }

  /** The removals for the key and for the value, each filed under the owner. */
  function Split(f: Flags, keyBytes: u32, valueBytes: u32): (Removal, Removal)
  {
    (SectionedRemoval(map[Identifier(f.OwnerOf()) := SectionsOf(f, keyBytes)]),
     SectionedRemoval(map[Identifier(f.OwnerOf()) := SectionsOf(f, valueBytes)]))
  }

  method SplitStorageRemovedBytes(f: Flags, keyBytes: u32, valueBytes: u32) returns (key: Removal, value: Removal)
    ensures (key, value) == Split(f, keyBytes, valueBytes)
  {
    var k: Sections := map[];
    var v: Sections := map[];
    if f.EpochMap().Some? {
      v := SectionedRemovalLoop(valueBytes, f.base, f.others);
      k := SectionedRemovalLoop(keyBytes, f.base, f.others);
    } else {
      if valueBytes > 0 {
        v := map[f.base := valueBytes];
      }
      if keyBytes > 0 {
        k := map[f.base := keyBytes];
      }
    }
    var owner := if f.OwnerOf().Some? then f.owner else NO_OWNER;
    return SectionedRemoval(map[owner := k]), SectionedRemoval(map[owner := v]);
  }

  // ---------- What the split records ----------

  /** The state of a walk that has reached epoch `e`. */
  ghost predicate Walking(m: EpochBytes, base: u16, e: nat, sections: Sections)
  {
    e <= U16 && (forall k | k in m :: base < k) &&
    forall k | k in sections :: k < e && k in m && sections[k] <= m[k]
  }

  lemma {:induction false} SplitFromSections(m: EpochBytes, base: u16, e: nat, left: u32, sections: Sections)
    requires Walking(m, base, e, sections)
    ensures var s := SplitFrom(m, base, e, left, sections);
            (forall k | k in s && k != base :: k in m && s[k] <= m[k]) &&
            (base in s <==> left > Total(m, e)) &&
            (base in s ==> s[base] == left - Total(m, e))
    decreases U16 - e
  {
    if left > 0 && e < U16 {
      if e in m && m[e] < left {
        SplitFromSections(m, base, e + 1, left - m[e], sections[e := m[e]]);
      } else if e !in m {
        SplitFromSections(m, base, e + 1, left, sections);
      }
    }
  }

  lemma {:induction false} SplitFromTotal(m: EpochBytes, base: u16, e: nat, left: u32, sections: Sections)
    requires Walking(m, base, e, sections)
    ensures Records(left, Total(m, e), Total(SplitFrom(m, base, e, left, sections), 0) - Total(sections, 0))
    decreases U16 - e
  {
    if left == 0 {
    } else {
      if e == U16 {
        TotalOfUpdate(sections, base, left, 0);
      } else if e !in m {
        SplitFromTotal(m, base, e + 1, left, sections);
      } else if m[e] < left {
        TotalOfUpdate(sections, e, m[e], 0);
        SplitFromTotal(m, base, e + 1, left - m[e], sections[e := m[e]]);
      } else {
        TotalOfUpdate(sections, e, 0, 0);
      }
    }
  }

  /** What is recorded of a request, given what the epochs hold. */
  predicate Records(requested: nat, held: nat, recorded: int)
  {
    0 <= recorded <= requested && (recorded == requested <==> requested == 0 || requested > held)
  }

  /** No epoch gives more than it holds, and no more is recorded than requested. Exactly the request is
      recorded only when it is zero or exceeds everything outside the base epoch, and only in the latter
      case does the base epoch give anything: what the others do not cover. */
  lemma SplitRecords(f: Flags, removed: u32)
    requires f.Ordered()
    ensures var s := SectionsOf(f, removed);
            (forall e | e in s && e != f.base :: e in f.Others() && s[e] <= f.At(e)) &&
            (f.base in s <==> removed > OthersTotal(f)) &&
            (f.base in s ==> s[f.base] == removed - OthersTotal(f)) &&
            Total(s, 0) <= removed &&
            (Total(s, 0) == removed <==> removed == 0 || removed > OthersTotal(f))
  {
    TotalOfEmpty(0);
    if f.EpochMap().Some? {
      SplitFromSections(f.Others(), f.base, 0, removed, map[]);
      SplitFromTotal(f.Others(), f.base, 0, removed, map[]);
    } else {
      TotalOfUpdate(map[], f.base, removed, 0);
    }
  }

  /** Bytes split from `f` are filed under the owner that a merge with `later` looks for. */
  predicate FiledAlike(f: Flags, later: Flags)
  {
    f.OwnerOf().None? ==> Identifier(later.OwnerOf()) == NO_OWNER
  }

  lemma SectionsMerge(f: Flags, later: Flags, s: Sections)
    requires f.Ordered() && f.base < later.base && later.EpochMap().None? && CompatibleOwners(f, later)
    ensures var r := CombineRemoved(f, later, SectionedRemoval(map[Identifier(f.OwnerOf()) := s]));
            (r.Ok? <==> FiledAlike(f, later) && Held(OthersOf(f, later), s)) &&
            (r.Ok? ==> Keeps(f, later, r.value) && forall e :: r.value.At(e) == f.At(e) - BytesAt(s, e))
  {
    var removal := SectionedRemoval(map[Identifier(f.OwnerOf()) := s]);
    CombinedOwner(f, later);
    RemovedMerge(f, later, removal);
    var r := CombineRemoved(f, later, removal);
    if r.Ok? {
      forall e ensures r.value.At(e) == f.At(e) - BytesAt(s, e) {
        assert r.value.At(e) == Add(f.At(e), later.At(e)) - Taken(f, later, removal, e);
      }
    }
  }

  /** Feeding the value part of a split to a later single-epoch merge under a compatible owner succeeds exactly
      when the merge looks under the owner of the split and nothing landed on the base epoch, that is, when the
      request fits in the epochs outside the base; then each epoch gives up exactly its section. Owned flags
      are always filed alike. */
  lemma SplitThenMerge(f: Flags, later: Flags, key: u32, removed: u32)
    requires f.Ordered() && f.base < later.base && later.EpochMap().None? && CompatibleOwners(f, later)
    ensures var s, r := SectionsOf(f, removed), CombineRemoved(f, later, Split(f, key, removed).1);
            (r.Ok? <==> FiledAlike(f, later) && f.base !in s) &&
            (r.Ok? <==> FiledAlike(f, later) && removed <= OthersTotal(f)) &&
            (r.Ok? ==> Keeps(f, later, r.value) && forall e :: r.value.At(e) == f.At(e) - BytesAt(s, e))
    ensures f.OwnerOf().Some? ==> FiledAlike(f, later)
  {
    var s := SectionsOf(f, removed);
    SplitRecords(f, removed);
    assert OthersOf(f, later) == f.Others();
    assert Held(f.Others(), s) <==> f.base !in s;
    assert Split(f, key, removed).1 == SectionedRemoval(map[Identifier(f.OwnerOf()) := s]);
    SectionsMerge(f, later, s);
  }

  // ---------- Which epoch gives what ----------

  lemma {:induction false} SplitFromAt(m: EpochBytes, base: u16, e: nat, left: u32, sections: Sections, k: u16)
    requires e <= k && k in m && k != base && forall j | j in sections :: j < e
    ensures var s := SplitFrom(m, base, e, left, sections);
            (k in s <==> Span(m, e, k) < left) &&
            BytesAt(s, k) == if Span(m, e, k + 1) < left then m[k] else 0
    decreases U16 - e
  {
    if left == 0 {
    } else if e == k {
      assert Span(m, e + 1, k + 1) == 0;
      if m[k] < left {
        SplitFromKeeps(m, base, e + 1, left - m[k], sections[e := m[k]], k);
      }
    } else if e !in m {
      SplitFromAt(m, base, e + 1, left, sections, k);
    } else if m[e] < left {
      SplitFromAt(m, base, e + 1, left - m[e], sections[e := m[e]], k);
    }
  }

  /** Epochs that the walk has passed keep their sections. */
  lemma {:induction false} SplitFromKeeps(m: EpochBytes, base: u16, e: nat, left: u32, sections: Sections, k: u16)
    requires e <= U16 && k < e && k != base && k in sections
    ensures var s := SplitFrom(m, base, e, left, sections);
            k in s && s[k] == sections[k]
    decreases U16 - e
  {
    if left == 0 || e == U16 {
    } else if e !in m {
      SplitFromKeeps(m, base, e + 1, left, sections, k);
    } else if m[e] < left {
      SplitFromKeeps(m, base, e + 1, left - m[e], sections[e := m[e]], k);
    }
  }

  /** Oldest epochs give first: an epoch has a section exactly when the older ones do not cover the request,
      and gives all it has when the request exceeds it and the older ones together, otherwise nothing. */
  lemma SectionAt(f: Flags, removed: u32, e: u16)
    requires e in f.Others() && e != f.base
    ensures var s, older := SectionsOf(f, removed), Span(f.Others(), 0, e);
            (e in s <==> older < removed) &&
            BytesAt(s, e) == if older + f.At(e) < removed then f.At(e) else 0
  {
    SplitFromAt(f.Others(), f.base, 0, removed, map[], e);
    SpanNext(f.Others(), 0, e);
  }

  /** Both removals of a split are filed under the owner, or under the all-zero identifier without one. The
      first is by the key bytes, the second by the value bytes: each later epoch gives what the closed form
      says, and the base epoch what no other covers. */
  lemma SplitFiled(f: Flags, key: u32, value: u32)
    requires f.Ordered()
    ensures var (k, v) := Split(f, key, value);
            var owner := if f.OwnerOf().Some? then f.owner else NO_OWNER;
            k.SectionedRemoval? && k.sections.Keys == {owner} && FiledAs(f, key, k.sections[owner]) &&
            v.SectionedRemoval? && v.sections.Keys == {owner} && FiledAs(f, value, v.sections[owner])
  {
    SplitFiledAs(f, key);
    SplitFiledAs(f, value);
  }

  /** The sections of a request, epoch by epoch. */
  ghost predicate FiledAs(f: Flags, removed: u32, s: Sections)
  {
    (forall e | e in s :: e == f.base || e in f.Others()) &&
    (forall e | e in f.Others() :: (e in s <==> Span(f.Others(), 0, e) < removed) &&
      BytesAt(s, e) == if Span(f.Others(), 0, e) + f.At(e) < removed then f.At(e) else 0) &&
    (f.base in s <==> removed > OthersTotal(f)) && (f.base in s ==> s[f.base] == removed - OthersTotal(f))
  }

  lemma SplitFiledAs(f: Flags, removed: u32)
    requires f.Ordered()
    ensures FiledAs(f, removed, SectionsOf(f, removed))
  {
    SplitRecords(f, removed);
    forall e | e in f.Others()
      ensures (e in SectionsOf(f, removed) <==> Span(f.Others(), 0, e) < removed)
      ensures BytesAt(SectionsOf(f, removed), e) == if Span(f.Others(), 0, e) + f.At(e) < removed then f.At(e) else 0
    {
      SectionAt(f, removed, e);
    }
  }

  // ---------- The documented split ----------

  /** Last in, first out: epochs in descending order, each giving what it has until the request is met, the
      last of them only the part still needed; what no epoch covers falls on the base. */
  function LifoFrom(m: EpochBytes, base: u16, e: nat, left: u32, sections: Sections): Sections
    requires e <= U16
    decreases e, m
  {
    if left == 0 then sections
    else if e == 0 then sections[base := left]
    else if e - 1 !in m then LifoFrom(m, base, e - 1, left, sections)
    else if m[e - 1] < left then LifoFrom(m, base, e - 1, left - m[e - 1], sections[e - 1 := m[e - 1]])
    else sections[e - 1 := left]
  }

  function Lifo(f: Flags, removed: u32): Sections
  {
    LifoFrom(f.Others(), f.base, U16, removed, map[])
  }

  /** The state of a walk that has come down to epoch `e`. */
  ghost predicate Descending(m: EpochBytes, base: u16, e: nat, sections: Sections)
  {
    e <= U16 && base !in sections && (forall k | k in m :: base < k) && forall k | k in sections :: e <= k
  }

  /** All that is requested is recorded. */
  lemma {:induction false} LifoFromTotal(m: EpochBytes, base: u16, e: nat, left: u32, sections: Sections)
    requires Descending(m, base, e, sections)
    ensures Total(LifoFrom(m, base, e, left, sections), 0) == Total(sections, 0) + left
    decreases e
  {
    if left == 0 {
    } else if e == 0 {
      TotalOfUpdate(sections, base, left, 0);
    } else if e - 1 !in m {
      LifoFromTotal(m, base, e - 1, left, sections);
    } else if m[e - 1] < left {
      TotalOfUpdate(sections, e - 1, m[e - 1], 0);
      LifoFromTotal(m, base, e - 1, left - m[e - 1], sections[e - 1 := m[e - 1]]);
    } else {
      TotalOfUpdate(sections, e - 1, left, 0);
    }
  }

  /** A request beyond what is left in the epochs takes all of it, and the rest from the base. */
  lemma {:induction false} LifoFromAll(m: EpochBytes, base: u16, e: nat, left: u32, sections: Sections)
    requires Descending(m, base, e, sections) && left > Span(m, 0, e)
    ensures LifoFrom(m, base, e, left, sections) == sections + Below(m, e) + map[base := left - Span(m, 0, e)]
    decreases e
  {
    if e == 0 {
    } else {
      var k: u16 := e - 1;
      SpanNext(m, 0, k);
      BelowNext(m, k, sections);
      if k in m {
        LifoFromAll(m, base, k, left - m[k], sections[k := m[k]]);
      } else {
        LifoFromAll(m, base, k, left, sections);
      }
    }
  }

  /** The epochs before `e`. */
  function Below(m: EpochBytes, e: nat): EpochBytes
  {
    map k | k in m && k < e :: m[k]
  }

  lemma BelowNext(m: EpochBytes, k: u16, sections: Sections)
    ensures sections + Below(m, k + 1) ==
            if k in m then sections[k := m[k]] + Below(m, k) else sections + Below(m, k)
  {
  }

  /** The walk of the source takes all of the epochs too, when the request exceeds them. */
  lemma SplitAll(f: Flags, removed: u32)
    requires f.Ordered() && removed > OthersTotal(f)
    ensures SectionsOf(f, removed) == f.Others()[f.base := removed - OthersTotal(f)]
  {
    var s, m := SectionsOf(f, removed), f.Others();
    SplitRecords(f, removed);
    forall e | e in m ensures e in s && s[e] == m[e] {
      SectionAt(f, removed, e);
      SpanAndRest(m, 0, e);
    }
    assert s.Keys == m.Keys + {f.base};
  }

  /** The split is the documented one exactly when nothing is requested or the request exceeds everything
      outside the base epoch. */
  lemma SplitIsLifo(f: Flags, removed: u32)
    requires f.Ordered()
    ensures SectionsOf(f, removed) == Lifo(f, removed) <==> removed == 0 || removed > OthersTotal(f)
  {
    var m := f.Others();
    SplitRecords(f, removed);
    TotalOfEmpty(0);
    LifoFromTotal(m, f.base, U16, removed, map[]);
    SpanAndRest(m, 0, U16);
    if removed > OthersTotal(f) {
      SplitAll(f, removed);
      LifoFromAll(m, f.base, U16, removed, map[]);
      assert Below(m, U16) == m;
    }
  }

  lemma {:induction false} LifoFromAt(m: EpochBytes, base: u16, e: nat, left: u32, sections: Sections, k: u16)
    requires Descending(m, base, e, sections) && k in m && k < e
    ensures BytesAt(LifoFrom(m, base, e, left, sections), k) == Clamp(left - Span(m, k + 1, e), m[k])
    decreases e
  {
    if left == 0 {
    } else if e - 1 == k {
      if m[k] < left {
        LifoFromKeeps(m, base, k, left - m[k], sections[k := m[k]], k);
      }
    } else {
      SpanNext(m, k + 1, e - 1);
      if e - 1 !in m {
        LifoFromAt(m, base, e - 1, left, sections, k);
      } else if m[e - 1] < left {
        LifoFromAt(m, base, e - 1, left - m[e - 1], sections[e - 1 := m[e - 1]], k);
      }
    }
  }

  lemma {:induction false} LifoFromKeeps(m: EpochBytes, base: u16, e: nat, left: u32, sections: Sections, k: u16)
    requires e <= k && k != base && k in sections
    ensures BytesAt(LifoFrom(m, base, e, left, sections), k) == sections[k]
    decreases e
  {
    if left == 0 || e == 0 {
    } else if e - 1 !in m {
      LifoFromKeeps(m, base, e - 1, left, sections, k);
    } else if m[e - 1] < left {
      LifoFromKeeps(m, base, e - 1, left - m[e - 1], sections[e - 1 := m[e - 1]], k);
    }
  }

  function Clamp(x: int, most: nat): nat
  {
    if x <= 0 then 0 else if x < most then x else most
  }

  /** Newest epochs give first in the documented split: each as much as it has of what the newer ones do not
      cover. */
  lemma LifoAt(f: Flags, removed: u32, e: u16)
    requires f.Ordered() && e in f.Others()
    ensures BytesAt(Lifo(f, removed), e) == Clamp(removed - Total(f.Others(), e + 1), f.At(e))
  {
    LifoFromAt(f.Others(), f.base, U16, removed, map[], e);
    SpanAndRest(f.Others(), e + 1, U16);
  }

  // ---------- Where the split departs from its description ----------

  /** The walk starts at the oldest epoch, so removal is first in, first out. */
  lemma OldestFirst()
    ensures SectionsOf(MultiEpoch(1, map[2 := 10, 9 := 10]), 12) == map[2 := 10, 9 := 0]
  {
    var m: EpochBytes := map[2 := 10, 9 := 10];
    SkipEmpty(m, 1, 0, 2, 12, map[]);
    SkipEmpty(m, 1, 3, 9, 2, map[2 := 10]);
  }

  lemma {:induction false} SkipEmpty(m: EpochBytes, base: u16, e: nat, to: nat, left: u32, sections: Sections)
    requires e <= to <= U16 && left > 0 && forall k | e <= k < to :: k !in m
    ensures SplitFrom(m, base, e, left, sections) == SplitFrom(m, base, to, left, sections)
    decreases U16 - e
  {
    if e < to {
      SkipEmpty(m, base, e + 1, to, left, sections);
    }
  }

  /** Key and value bytes are split apart: together they take more of an epoch than it holds exactly when it
      holds something and both requests exceed the bytes of all epochs up to and including it. */
  lemma TakenTwiceExactly(f: Flags, key: u32, value: u32, e: u16)
    requires f.Ordered() && e in f.Others()
    ensures BytesAt(SectionsOf(f, key), e) + BytesAt(SectionsOf(f, value), e) > f.At(e) <==>
            f.At(e) > 0 && Span(f.Others(), 0, e + 1) < key && Span(f.Others(), 0, e + 1) < value
  {
    SectionAt(f, key, e);
    SectionAt(f, value, e);
    SpanNext(f.Others(), 0, e);
  }

  /** Ten bytes are taken twice. */
  lemma TakenTwice()
    ensures var f := MultiEpoch(1, map[2 := 10]);
            var (key, value) := Split(f, 11, 11);
            BytesAt(key.sections[NO_OWNER], 2) == BytesAt(value.sections[NO_OWNER], 2) == f.At(2) == 10
  {
    var m: EpochBytes := map[2 := 10];
    SkipEmpty(m, 1, 0, 2, 11, map[]);
    SkipEmpty(m, 1, 3, U16, 1, map[2 := 10]);
  }
}
