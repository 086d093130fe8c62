/** The byte form of storage flags: `serialize` and `deserialize` of drive/src/drive/flags.rs. */
module FlagsCodec {
  import opened Prelude
  import opened ByteOrder
  import opened KeyEncoding
  import opened StorageFlags

  // ---------- Fixed and variable size integers ----------

  function U16Bytes(v: u16): (b: Bytes)
    ensures |b| == 2
  {
    [v / 256, v % 256]
  }

  function ReadU16(b: Bytes): u16
    requires |b| >= 2
  {
    (b[0] as int) * 256 + b[1]
  }

  /** Variable-length integers: seven bits a byte, least significant first, the top bit set on all but the last. */
  function Varint(v: nat): (b: Bytes)
    ensures |b| >= 1
  {
    if v < 128 then [v] else [128 + v % 128] + Varint(v / 128)
  }

  const VARINT_MAX: nat := 10

  /** The value and size of the integer at the front, if one ends within ten bytes. */
  function ReadVarint(b: Bytes, room: nat): (r: Option<(nat, nat)>)
    ensures r.Some? ==> 1 <= r.value.1 <= |b|
  {
    if b == [] || room == 0 then None
    else if b[0] < 128 then Some((b[0], 1))
    else
      match ReadVarint(b[1..], room - 1)
      case None => None
      case Some((v, n)) => Some((b[0] - 128 + 128 * v, n + 1))
  }

  /** Decoding a u32 rejects what does not fit. */
  function ReadU32(b: Bytes): (r: Option<(u32, nat)>)
    ensures r.Some? ==> 1 <= r.value.1 <= |b|
  {
    match ReadVarint(b, VARINT_MAX)
    case Some((v, n)) => if v < U32 then Some((v, n)) else None
    case None => None
  }

  function Pow128(n: nat): (p: nat)
    ensures p > 0
  {
    if n == 0 then 1 else 128 * Pow128(n - 1)
  }

  /** Two bytes are a big-endian number. */
  lemma U16BigEndian(v: u16, b: Bytes)
    ensures KeyEncoding.Number(U16Bytes(v)) == v
    ensures |b| >= 2 ==> ReadU16(b) == KeyEncoding.Number(b[..2])
  {
    TwoBytes(v / 256, v % 256);
    if |b| >= 2 {
      assert b[..2] == [b[0], b[1]];
      TwoBytes(b[0], b[1]);
    }
  }

  lemma TwoBytes(x: Byte, y: Byte)
    ensures KeyEncoding.Number([x, y]) == 256 * x + y
  {
    assert [x, y][1..] == [y] && [y][1..] == [];
    assert KeyEncoding.Number([y]) == y;
    assert Pow256(1) == 256;
  }

  /** The digits of a variable-length integer in base 128, least significant first, with the top bit on all but
      the last, which is not a needless zero. */
  lemma {:induction false} VarintDigits(v: nat, i: nat)
    requires i < |Varint(v)|
    ensures Varint(v)[i] % 128 == (v / Pow128(i)) % 128
    ensures Varint(v)[i] >= 128 <==> i < |Varint(v)| - 1
    ensures |Varint(v)| > 1 ==> Varint(v)[|Varint(v)| - 1] > 0
  {
    if v < 128 {
      assert Pow128(0) == 1;
    } else {
      assert Varint(v)[1..] == Varint(v / 128);
      VarintDigits(v / 128, if i > 0 then i - 1 else 0);
      if i > 0 {
        DivideTwice(v, Pow128(i - 1));
      }
    }
  }

  lemma DivideTwice(v: nat, p: nat)
    requires p > 0
    ensures (v / 128) / p == v / (128 * p)
  {
    var q, r := v / 128, v % 128;
    var x, y := q / p, q % p;
    assert v == 128 * q + r && q == p * x + y;
    assert v == (128 * p) * x + (128 * y + r) by {
      assert 128 * (p * x) == (128 * p) * x;
    }
    assert 0 <= 128 * y + r < 128 * p;
    QuotientIs(v, 128 * p, x, 128 * y + r);
  }

  lemma QuotientIs(v: nat, d: nat, x: nat, r: nat)
    requires d > 0 && v == d * x + r && r < d
    ensures v / d == x
  {
    var q := v / d;
    assert v == d * q + v % d;
    NextMultiple(d, q, x);
    NextMultiple(d, x, q);
  }

  lemma NextMultiple(d: nat, a: nat, b: nat)
    ensures a < b ==> d * a + d <= d * b
  {
    if a < b {
      Scale(a + 1, b, d);
    }
  }

  lemma {:induction false} VarintRoundTrip(v: nat, room: nat, rest: Bytes)
    requires 1 <= room && v < Pow128(room)
    ensures ReadVarint(Varint(v) + rest, room) == Some((v, |Varint(v)|))
    decreases room
  {
    var b := Varint(v) + rest;
    if v >= 128 {
      VarintRoundTrip(v / 128, room - 1, rest);
      assert b[1..] == Varint(v / 128) + rest;
    }
  }

  lemma U32RoundTrip(v: u32, rest: Bytes)
    ensures ReadU32(Varint(v) + rest) == Some((v, |Varint(v)|))
  {
    assert Pow128(2) == 0x4000;
    assert Pow128(4) == 0x1000_0000;
    assert Pow128(5) == 0x8_0000_0000;
    Pow128Grows(5, VARINT_MAX);
    VarintRoundTrip(v, VARINT_MAX, rest);
  }

  lemma {:induction false} Pow128Grows(a: nat, b: nat)
    requires a <= b
    ensures Pow128(a) <= Pow128(b)
  {
    if a < b {
      Pow128Grows(a, b - 1);
    }
  }

  // ---------- The epoch map ----------

  /** Entries in ascending order of epoch, from a given epoch on. */
  function Entries(m: EpochBytes, from: nat): Bytes
    requires from <= U16
    decreases U16 - from, m
  {
    if from == U16 then []
    else (if from in m then U16Bytes(from) + Varint(m[from]) else []) + Entries(m, from + 1)
  }

  /** Reading stops when fewer than three bytes are left. */
  function ReadEntries(data: Bytes, m: EpochBytes): Option<EpochBytes>
    decreases |data|
  {
    if |data| <= 2 then Some(m)
    else
      match ReadU32(data[2..])
      case None => None
      case Some((bytes, used)) => ReadEntries(data[2 + used..], m[ReadU16(data) := bytes])
  }

  /** One entry at `offset`: its epoch, its bytes, and where the next entry starts. */
  function EntryAt(data: Bytes, offset: nat): (r: Option<(u16, u32, nat)>)
    requires offset + 2 < |data|
    ensures r.Some? ==> offset + 2 < r.value.2 <= |data|
  {
    match ReadU32(data[offset + 2..])
    case None => None
    case Some((bytes, used)) => Some((ReadU16(data[offset..offset + 2]), bytes, offset + 2 + used))
  }

  /** Walking over `offset` reads the entries of what is left. */
  lemma ReadEntriesAt(data: Bytes, offset: nat, m: EpochBytes)
    requires offset + 2 < |data|
    ensures match EntryAt(data, offset)
            case None => ReadEntries(data[offset..], m).None?
            case Some((epoch, bytes, next)) =>
              ReadEntries(data[offset..], m) == ReadEntries(data[next..], m[epoch := bytes])
  {
    assert data[offset..][2..] == data[offset + 2..];
    var decoded := ReadU32(data[offset + 2..]);
    if decoded.Some? {
      assert data[offset..][2 + decoded.value.1..] == data[offset + 2 + decoded.value.1..];
    }
  }

  /** The source's loop over `offset`. */
  method ReadEntriesLoop(data: Bytes, start: nat) returns (r: Option<EpochBytes>)
    requires start <= |data|
    ensures r == ReadEntries(data[start..], map[])
  {
    var offset := start;
    var bytesPerEpoch: EpochBytes := map[];
    ghost var goal := ReadEntries(data[start..], map[]);
    while offset + 2 < |data|
      invariant offset <= |data|
      invariant goal == ReadEntries(data[offset..], bytesPerEpoch)
    {
      ReadEntriesAt(data, offset, bytesPerEpoch);
      var entry := EntryAt(data, offset);
      if entry.None? {
        return None;
      }
      bytesPerEpoch := bytesPerEpoch[entry.value.0 := entry.value.1];
      offset := entry.value.2;
    }
    return Some(bytesPerEpoch);
  }

  function From(m: EpochBytes, from: nat): EpochBytes
  {
    map e | e in m && e >= from :: m[e]
  }

  lemma ReadEntry(e: u16, v: u32, rest: Bytes, m: EpochBytes)
    ensures ReadEntries(U16Bytes(e) + Varint(v) + rest, m) == ReadEntries(rest, m[e := v])
  {
    var data := U16Bytes(e) + Varint(v) + rest;
    assert data[2..] == Varint(v) + rest;
    U32RoundTrip(v, rest);
    assert data[2 + |Varint(v)|..] == rest;
    assert ReadU16(data) == e;
  }

  lemma FromNext(full: EpochBytes, from: u16, m: EpochBytes)
    ensures from in full ==> m[from := full[from]] + From(full, from + 1) == m + From(full, from)
    ensures from !in full ==> From(full, from + 1) == From(full, from)
  {
  }

  lemma {:induction false} EntriesRoundTrip(full: EpochBytes, from: nat, m: EpochBytes)
    requires from <= U16
    ensures ReadEntries(Entries(full, from), m) == Some(m + From(full, from))
    decreases U16 - from
  {
    if from == U16 {
      assert m + From(full, from) == m;
    } else {
      var rest := Entries(full, from + 1);
      FromNext(full, from, m);
      if from in full {
        ReadEntry(from, full[from], rest, m);
        EntriesRoundTrip(full, from + 1, m[from := full[from]]);
      } else {
        assert Entries(full, from) == rest;
        EntriesRoundTrip(full, from + 1, m);
      }
    }
  }

  /** A single entry: the epoch, big-endian, and the bytes. */
  lemma OneEntry(e: u16, v: u32)
    ensures Entries(map[e := v], 0) == U16Bytes(e) + Varint(v)
  {
    EntriesSkip(map[e := v], 0, e);
    EntriesSkip(map[e := v], e + 1, U16);
    assert U16Bytes(e) + Varint(v) + [] == U16Bytes(e) + Varint(v);
  }

  /** Epochs without an entry write nothing. */
  lemma {:induction false} EntriesSkip(m: EpochBytes, from: nat, end: nat)
    requires from <= end <= U16 && forall e | from <= e < end :: e !in m
    ensures Entries(m, from) == Entries(m, end)
    decreases end - from
  {
    if from == end {
    } else {
      EntriesSkip(m, from + 1, end);
      assert [] + Entries(m, from + 1) == Entries(m, from + 1);
    }
  }

  function Until(m: EpochBytes, e: nat): EpochBytes
  {
    map k | k in m && k < e :: m[k]
  }

  lemma {:induction false} EntriesAgree(a: EpochBytes, b: EpochBytes, from: nat)
    requires from <= U16 && forall e: u16 | from <= e :: (e in a <==> e in b) && (e in a ==> a[e] == b[e])
    ensures Entries(a, from) == Entries(b, from)
    decreases U16 - from
  {
    if from == U16 {
    } else {
      EntriesAgree(a, b, from + 1);
    }
  }

  lemma {:induction false} EntriesCut(m: EpochBytes, from: nat, e: nat)
    requires from <= e <= U16
    ensures Entries(m, from) == Entries(Until(m, e), from) + Entries(m, e)
    decreases e - from
  {
    if from == e {
      EntriesSkip(Until(m, e), e, U16);
      assert [] + Entries(m, e) == Entries(m, e);
    } else {
      EntriesCut(m, from + 1, e);
      var head := if from in m then U16Bytes(from) + Varint(m[from]) else [];
      assert head + (Entries(Until(m, e), from + 1) + Entries(m, e)) ==
             head + Entries(Until(m, e), from + 1) + Entries(m, e);
    }
  }

  /** Entries are in ascending order of epoch: at every epoch, those before it come first. With the form of a
      single entry this determines all bytes. */
  lemma EntriesAscend(m: EpochBytes, e: u16)
    ensures Entries(m, 0) == Entries(Until(m, e), 0) + Entries(From(m, e), 0)
  {
    EntriesCut(m, 0, e);
    EntriesSkip(From(m, e), 0, e);
    EntriesAgree(m, From(m, e), e);
  }

  /** One or two bytes after the entries are ignored. */
  lemma TrailingIgnored(m: EpochBytes, tail: Bytes)
    requires |tail| <= 2
    ensures ReadEntries(Entries(m, 0) + tail, map[]) == Some(m)
  {
    EntriesTail(m, 0, map[], tail);
    assert map[] + From(m, 0) == m;
  }

  lemma EntriesPlus(full: EpochBytes, from: u16, tail: Bytes)
    ensures var rest := Entries(full, from + 1) + tail;
            Entries(full, from) + tail == if from in full then U16Bytes(from) + Varint(full[from]) + rest else rest
  {
  }

  lemma {:induction false} EntriesTail(full: EpochBytes, from: nat, m: EpochBytes, tail: Bytes)
    requires from <= U16 && |tail| <= 2
    ensures ReadEntries(Entries(full, from) + tail, m) == Some(m + From(full, from))
    decreases U16 - from
  {
    if from == U16 {
      assert [] + tail == tail && m + From(full, from) == m;
    } else {
      EntriesPlus(full, from, tail);
      FromNext(full, from, m);
      if from in full {
        ReadEntry(from, full[from], Entries(full, from + 1) + tail, m);
        EntriesTail(full, from + 1, m[from := full[from]], tail);
      } else {
        EntriesTail(full, from + 1, m, tail);
      }
    }
  }

  /** A map is read back from its entries. */
  lemma MapRoundTrip(m: EpochBytes)
    ensures ReadEntries(Entries(m, 0), map[]) == Some(m)
  {
    EntriesRoundTrip(m, 0, map[]);
    assert map[] + From(m, 0) == m;
  }

  lemma {:induction false} EntriesLength(m: EpochBytes, from: nat)
    requires from <= U16
    ensures if exists e | e in m :: e >= from then |Entries(m, from)| >= 3 else Entries(m, from) == []
    decreases U16 - from
  {
    if from == U16 {
    } else {
      EntriesLength(m, from + 1);
      if from !in m {
        assert (exists e | e in m :: e >= from) <==> (exists e | e in m :: e >= from + 1);
      }
    }
  }

  // ---------- Flags ----------

  function TypeByte(f: Flags): Byte
  {
    match f
    case SingleEpoch(_) => 0
    case MultiEpoch(_, _) => 1
    case SingleEpochOwned(_, _) => 2
    case MultiEpochOwned(_, _, _) => 3
  }

  function OwnerBytes(f: Flags): Bytes
  {
    if f.OwnerOf().Some? then f.owner else []
  }

  function MapBytes(f: Flags): Bytes
  {
    if f.EpochMap().Some? then Entries(f.others, 0) else []
  }

  /** Type, owner if any, base epoch, epoch map if any. */
  function Serialize(f: Flags): (b: Bytes)
    ensures |b| >= 3 && b[0] == TypeByte(f)
  {
    [TypeByte(f)] + OwnerBytes(f) + U16Bytes(f.base) + MapBytes(f)
  }

  function DeserializeSingle(data: Bytes): Result<Flags, FlagsError>
  {
    if |data| != 3 then Err(WrongSize) else Ok(SingleEpoch(ReadU16(data[1..])))
  }

  function DeserializeMulti(data: Bytes): Result<Flags, FlagsError>
  {
    if |data| < 6 then Err(WrongSize)
    else
      match ReadEntries(data[3..], map[])
      case None => Err(WrongSize)
      case Some(m) => Ok(MultiEpoch(ReadU16(data[1..]), m))
  }

  function DeserializeSingleOwned(data: Bytes): Result<Flags, FlagsError>
  {
    if |data| != 35 then Err(WrongSize) else Ok(SingleEpochOwned(ReadU16(data[33..]), data[1..33]))
  }

  /** The map is read from offset 3, which lies inside the owner. */
  function DeserializeMultiOwned(data: Bytes): Result<Flags, FlagsError>
  {
    if |data| < 38 then Err(WrongSize)
    else
      match ReadEntries(data[3..], map[])
      case None => Err(WrongSize)
      case Some(m) => Ok(MultiEpochOwned(ReadU16(data[33..]), m, data[1..33]))
  }

  function Deserialize(data: Bytes): Result<Option<Flags>, FlagsError>
  {
    if data == [] then Ok(None)
    else
      var r := match data[0]
        case 0 => DeserializeSingle(data)
        case 1 => DeserializeMulti(data)
        case 2 => DeserializeSingleOwned(data)
        case 3 => DeserializeMultiOwned(data)
        case _ => Err(UnknownType);
      if r.Ok? then Ok(Some(r.value)) else Err(r.error)
  }

  lemma U16RoundTrip(v: u16, rest: Bytes)
    ensures ReadU16(U16Bytes(v) + rest) == v
  {
  }

  /** Where the parts of serialized flags are. */
  lemma Layout(f: Flags)
    ensures var b := Serialize(f);
            var at := 1 + |OwnerBytes(f)|;
            |b| == at + 2 + |MapBytes(f)| &&
            b[1..at] == OwnerBytes(f) && ReadU16(b[at..]) == f.base && b[at + 2..] == MapBytes(f)
  {
    var b, at := Serialize(f), 1 + |OwnerBytes(f)|;
    assert b[at..] == U16Bytes(f.base) + MapBytes(f);
    U16RoundTrip(f.base, MapBytes(f));
  }

  /** The first byte tells the kind, and two bytes, big-endian, the base epoch. */
  lemma KindAndEpoch(f: Flags)
    ensures var b := Serialize(f);
            b[0] == (if f.OwnerOf().Some? then 2 else 0) + (if f.EpochMap().Some? then 1 else 0) &&
            var at := if f.OwnerOf().Some? then 33 else 1;
            |b| >= at + 2 && KeyEncoding.Number(b[at..at + 2]) == f.base
  {
    Layout(f);
    var b := Serialize(f);
    var at := if f.OwnerOf().Some? then 33 else 1;
    U16BigEndian(f.base, b[at..]);
    assert b[at..][..2] == b[at..at + 2];
  }

  /** What any bytes decode to, by their first byte and their length, and the error they earn otherwise. */
  lemma DeserializedExactly(data: Bytes)
    ensures data == [] ==> Deserialize(data) == Ok(None)
    ensures data != [] && data[0] > 3 ==> Deserialize(data) == Err(UnknownType)
    ensures data != [] && data[0] == 0 ==>
              Deserialize(data) == if |data| == 3 then Ok(Some(SingleEpoch(EpochIn(data, 1)))) else Err(WrongSize)
    ensures data != [] && data[0] == 2 ==>
              Deserialize(data) ==
              if |data| == 35 then Ok(Some(SingleEpochOwned(EpochIn(data, 33), data[1..33]))) else Err(WrongSize)
    ensures data != [] && data[0] == 1 ==>
              Deserialize(data) ==
              if |data| >= 6 && ReadEntries(data[3..], map[]).Some?
              then Ok(Some(MultiEpoch(EpochIn(data, 1), ReadEntries(data[3..], map[]).value))) else Err(WrongSize)
    ensures data != [] && data[0] == 3 ==>
              Deserialize(data) ==
              if |data| >= 38 && ReadEntries(data[3..], map[]).Some?
              then Ok(Some(MultiEpochOwned(EpochIn(data, 33), ReadEntries(data[3..], map[]).value, data[1..33])))
              else Err(WrongSize)
  {
    if |data| >= 3 {
      U16BigEndian(0, data[1..]);
      assert data[1..][..2] == data[1..3];
    }
    if |data| >= 35 {
      U16BigEndian(0, data[33..]);
      assert data[33..][..2] == data[33..35];
    }
  }

  /** The two bytes at a place, big-endian. */
  function EpochIn(data: Bytes, at: nat): u16
  {
    if at + 2 <= |data| then
      assert Pow256(2) == U16;
      KeyEncoding.Number(data[at..at + 2])
    else 0
  }

  /** Different flags have different bytes. */
  lemma SerializeInjective(f: Flags, g: Flags)
    requires Serialize(f) == Serialize(g)
    ensures f == g
  {
    Layout(f);
    Layout(g);
    assert TypeByte(f) == TypeByte(g);
    if f.EpochMap().Some? {
      MapRoundTrip(f.others);
      MapRoundTrip(g.others);
    }
  }

  /** Single-epoch flags of both kinds are read back. */
  lemma SingleRoundTrip(f: Flags)
    requires f.EpochMap().None?
    ensures Deserialize(Serialize(f)) == Ok(Some(f))
  {
    Layout(f);
  }

  /** Unowned multi-epoch flags are read back exactly when their map is not empty. */
  lemma MultiRoundTrip(f: Flags)
    requires f.MultiEpoch?
    ensures Deserialize(Serialize(f)) == if f.others == map[] then Err(WrongSize) else Ok(Some(f))
  {
    Layout(f);
    EntriesLength(f.others, 0);
    MapRoundTrip(f.others);
    if f.others != map[] {
      var e :| e in f.others;
      assert e >= 0;
    }
  }

  /** Owned multi-epoch flags, when they are accepted at all, come back with their owner and base epoch;
      an empty map is never accepted. */
  lemma MultiOwnedPartial(f: Flags)
    requires f.MultiEpochOwned?
    ensures var r := Deserialize(Serialize(f));
            r.Ok? ==> r.value.Some? && r.value.value.MultiEpochOwned? &&
                      r.value.value.owner == f.owner && r.value.value.base == f.base
    ensures f.others == map[] ==> Deserialize(Serialize(f)).Err?
  {
    Layout(f);
    EntriesLength(f.others, 0);
  }

  /** The epoch that the decoder finds at offset 3: two bytes of the owner. */
  function OwnerEpoch(owner: OwnerId): u16
  {
    ReadU16(owner[2..])
  }

  lemma {:induction false} EntriesKept(data: Bytes, m: EpochBytes)
    ensures ReadEntries(data, m).Some? ==> m.Keys <= ReadEntries(data, m).value.Keys
    decreases |data|
  {
    if |data| > 2 && ReadU32(data[2..]).Some? {
      var (bytes, used) := ReadU32(data[2..]).value;
      EntriesKept(data[2 + used..], m[ReadU16(data) := bytes]);
    }
  }

  /** The first entry read is always kept. */
  lemma FirstEntryKept(data: Bytes)
    requires |data| > 2
    ensures ReadEntries(data, map[]).Some? ==> ReadU16(data) in ReadEntries(data, map[]).value
  {
    var decoded := ReadU32(data[2..]);
    if decoded.Some? {
      var m: EpochBytes := map[ReadU16(data) := decoded.value.0];
      assert m == map[][ReadU16(data) := decoded.value.0];
      EntriesKept(data[2 + decoded.value.1..], m);
    }
  }

  /** Owned multi-epoch flags are not read back, unless two bytes of the owner happen to spell one of
      the recorded epochs. */
  lemma MultiOwnedNotRecovered(f: Flags)
    requires f.MultiEpochOwned? && OwnerEpoch(f.owner) !in f.others
    ensures Deserialize(Serialize(f)) != Ok(Some(f))
  {
    Layout(f);
    var b := Serialize(f);
    assert b[1..33] == f.owner;
    assert b[3] == b[1..33][2] && b[4] == b[1..33][3];
    assert ReadU16(b[3..]) == OwnerEpoch(f.owner);
    FirstEntryKept(b[3..]);
  }

  // ---------- When the misread owner does no harm ----------

  /** The bytes are exactly a row of entries, with nothing left over. */
  predicate Tiled(data: Bytes)
    decreases |data|
  {
    data == [] ||
    (|data| > 2 && ReadU32(data[2..]).Some? && Tiled(data[2 + ReadU32(data[2..]).value.1..]))
  }

  lemma {:induction false} ReadVarintExtend(b: Bytes, room: nat, rest: Bytes)
    requires ReadVarint(b, room).Some?
    ensures ReadVarint(b + rest, room) == ReadVarint(b, room)
  {
    if b[0] >= 128 {
      assert (b + rest)[1..] == b[1..] + rest;
      ReadVarintExtend(b[1..], room - 1, rest);
    }
  }

  lemma FirstEntry(data: Bytes, m: EpochBytes, bytes: u32, used: nat)
    requires |data| > 2 && ReadU32(data[2..]) == Some((bytes, used))
    ensures ReadEntries(data, m) == ReadEntries(data[2 + used..], m[ReadU16(data) := bytes])
  {
  }

  lemma DropAppend(data: Bytes, rest: Bytes, n: nat)
    requires n <= |data|
    ensures (data + rest)[n..] == data[n..] + rest
  {
  }

  lemma FirstEntryExtend(data: Bytes, rest: Bytes, m: EpochBytes, bytes: u32, used: nat)
    requires |data| > 2 && ReadU32(data[2..]) == Some((bytes, used))
    ensures ReadEntries(data + rest, m) == ReadEntries(data[2 + used..] + rest, m[ReadU16(data) := bytes])
  {
    var all := data + rest;
    DropAppend(data, rest, 2);
    ReadVarintExtend(data[2..], VARINT_MAX, rest);
    DropAppend(data, rest, 2 + used);
    assert ReadU16(all) == ReadU16(data);
    FirstEntry(all, m, bytes, used);
  }

  lemma {:induction false} TiledThen(data: Bytes, rest: Bytes, m: EpochBytes)
    requires Tiled(data)
    ensures ReadEntries(data, m).Some?
    ensures ReadEntries(data + rest, m) == ReadEntries(rest, ReadEntries(data, m).value)
    decreases |data|
  {
    if data == [] {
      assert data + rest == rest;
    } else {
      var (bytes, used) := ReadU32(data[2..]).value;
      FirstEntry(data, m, bytes, used);
      FirstEntryExtend(data, rest, m, bytes, used);
      TiledThen(data[2 + used..], rest, m[ReadU16(data) := bytes]);
    }
  }

  /** What the decoder reads as entries before it reaches the map: the owner from its third byte on,
      and the base epoch. */
  function Misread(f: Flags): Bytes
    requires f.MultiEpochOwned?
  {
    f.owner[2..] + U16Bytes(f.base)
  }

  lemma MisreadThenMap(f: Flags)
    requires f.MultiEpochOwned? && Tiled(Misread(f))
    ensures ReadEntries(Misread(f), map[]).Some?
    ensures ReadEntries(Misread(f) + Entries(f.others, 0), map[]) ==
            Some(ReadEntries(Misread(f), map[]).value + f.others)
  {
    TiledThen(Misread(f), Entries(f.others, 0), map[]);
    EntriesRoundTrip(f.others, 0, ReadEntries(Misread(f), map[]).value);
    assert From(f.others, 0) == f.others;
  }

  lemma Overwritten(stray: EpochBytes, m: EpochBytes)
    ensures stray + m == m <==> stray.Keys <= m.Keys
  {
    assert (stray + m).Keys == stray.Keys + m.Keys;
    if stray.Keys <= m.Keys {
      assert (stray + m).Keys == m.Keys;
    }
  }

  /** An owned multi-epoch decode of serialized flags, by what is read from offset 3. */
  lemma OwnedDecode(f: Flags)
    requires f.MultiEpochOwned?
    ensures var m := ReadEntries(Misread(f) + Entries(f.others, 0), map[]);
            Deserialize(Serialize(f)) ==
            if f.others == map[] || m.None? then Err(WrongSize)
            else Ok(Some(MultiEpochOwned(f.base, m.value, f.owner)))
  {
    Layout(f);
    var b := Serialize(f);
    assert b[3..] == Misread(f) + Entries(f.others, 0);
    EntriesLength(f.others, 0);
    if f.others != map[] {
      var e :| e in f.others;
      assert e >= 0;
    }
  }

  /** When the misread bytes are a row of entries, owned multi-epoch flags are read back exactly when
      the map is not empty and overwrites every epoch that was misread. */
  lemma MultiOwnedTiled(f: Flags)
    requires f.MultiEpochOwned? && Tiled(Misread(f))
    ensures ReadEntries(Misread(f), map[]).Some?
    ensures Deserialize(Serialize(f)) == Ok(Some(f)) <==>
            f.others != map[] && ReadEntries(Misread(f), map[]).value.Keys <= f.others.Keys
  {
    OwnedDecode(f);
    MisreadThenMap(f);
    Overwritten(ReadEntries(Misread(f), map[]).value, f.others);
  }
}
