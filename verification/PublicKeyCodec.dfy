/** Identity public keys as canonical CBOR maps (dpp/src/identity/identity_public_key.rs). */
module PublicKeyCodec {
  import opened Prelude
  import opened ByteOrder
  import opened Values
  import opened CanonicalCbor

  datatype KeyType = ECDSA_SECP256K1 | BLS12_381 | ECDSA_HASH160 | BIP13_SCRIPT_HASH
  datatype Purpose = AUTHENTICATION | ENCRYPTION | DECRYPTION | WITHDRAW
  datatype SecurityLevel = MASTER | CRITICAL | HIGH | MEDIUM

  datatype PublicKey = PublicKey(
    id: u64,
    purpose: Purpose,
    securityLevel: SecurityLevel,
    keyType: KeyType,
    data: Bytes,
    readOnly: bool,
    disabledAt: Option<u64>,
    signature: Bytes)

  datatype DecodingError = DecodingError

  function KeyTypeCode(t: KeyType): u16
  {
    match t
    case ECDSA_SECP256K1 => 0
    case BLS12_381 => 1
    case ECDSA_HASH160 => 2
    case BIP13_SCRIPT_HASH => 3
  }

  function KeyTypeFrom(code: nat): Result<KeyType, DecodingError>
  {
    match code
    case 0 => Ok(ECDSA_SECP256K1)
    case 1 => Ok(BLS12_381)
    case 2 => Ok(ECDSA_HASH160)
    case 3 => Ok(BIP13_SCRIPT_HASH)
    case _ => Err(DecodingError)
  }

  function PurposeCode(p: Purpose): u16
  {
    match p
    case AUTHENTICATION => 0
    case ENCRYPTION => 1
    case DECRYPTION => 2
    case WITHDRAW => 3
  }

  /** The code of WITHDRAW is missing. */
  function PurposeFrom(code: nat): Result<Purpose, DecodingError>
  {
    match code
    case 0 => Ok(AUTHENTICATION)
    case 1 => Ok(ENCRYPTION)
    case 2 => Ok(DECRYPTION)
    case _ => Err(DecodingError)
  }

  function SecurityLevelCode(l: SecurityLevel): u16
  {
    match l
    case MASTER => 0
    case CRITICAL => 1
    case HIGH => 2
    case MEDIUM => 3
  }

  function SecurityLevelFrom(code: nat): Result<SecurityLevel, DecodingError>
  {
    match code
    case 0 => Ok(MASTER)
    case 1 => Ok(CRITICAL)
    case 2 => Ok(HIGH)
    case 3 => Ok(MEDIUM)
    case _ => Err(DecodingError)
  }

  // The field names, in ASCII.
  const ID: Bytes := [0x69, 0x64]
  const DATA: Bytes := [0x64, 0x61, 0x74, 0x61]
  const TYPE: Bytes := [0x74, 0x79, 0x70, 0x65]
  const PURPOSE: Bytes := [0x70, 0x75, 0x72, 0x70, 0x6F, 0x73, 0x65]
  const READ_ONLY: Bytes := [0x72, 0x65, 0x61, 0x64, 0x4F, 0x6E, 0x6C, 0x79]
  const SECURITY_LEVEL: Bytes := [0x73, 0x65, 0x63, 0x75, 0x72, 0x69, 0x74, 0x79, 0x4C, 0x65, 0x76, 0x65, 0x6C]
  const DISABLED_AT: Bytes := [0x64, 0x69, 0x73, 0x61, 0x62, 0x6C, 0x65, 0x64, 0x41, 0x74]
  const SIGNATURE: Bytes := [0x73, 0x69, 0x67, 0x6E, 0x61, 0x74, 0x75, 0x72, 0x65]

  /** The bytes are those of an ASCII name. */
  predicate Spells(b: Bytes, name: string)
  {
    |b| == |name| && forall i | 0 <= i < |name| :: b[i] == name[i] as int
  }

  lemma FieldNamesSpelled()
    ensures Spells(ID, "id") && Spells(DATA, "data") && Spells(TYPE, "type") && Spells(PURPOSE, "purpose")
    ensures Spells(READ_ONLY, "readOnly") && Spells(SECURITY_LEVEL, "securityLevel")
    ensures Spells(DISABLED_AT, "disabledAt") && Spells(SIGNATURE, "signature")
  {
  }

  /** The numbers that stand for types, purposes and security levels. */
  lemma Codes()
    ensures KeyTypeCode(ECDSA_SECP256K1) == 0 && KeyTypeCode(BLS12_381) == 1
    ensures KeyTypeCode(ECDSA_HASH160) == 2 && KeyTypeCode(BIP13_SCRIPT_HASH) == 3
    ensures PurposeCode(AUTHENTICATION) == 0 && PurposeCode(ENCRYPTION) == 1
    ensures PurposeCode(DECRYPTION) == 2 && PurposeCode(WITHDRAW) == 3
    ensures SecurityLevelCode(MASTER) == 0 && SecurityLevelCode(CRITICAL) == 1
    ensures SecurityLevelCode(HIGH) == 2 && SecurityLevelCode(MEDIUM) == 3
  {
  }

  /** Every known number is read as what it stands for; 3 is no purpose. */
  lemma CodesRead(code: nat)
    ensures KeyTypeFrom(code).Ok? <==> code <= 3
    ensures KeyTypeFrom(code).Ok? ==> KeyTypeCode(KeyTypeFrom(code).value) == code
    ensures PurposeFrom(code).Ok? <==> code <= 2
    ensures PurposeFrom(code).Ok? ==> PurposeCode(PurposeFrom(code).value) == code
    ensures SecurityLevelFrom(code).Ok? <==> code <= 3
    ensures SecurityLevelFrom(code).Ok? ==> SecurityLevelCode(SecurityLevelFrom(code).value) == code
  {
  }

  // ---------- Encoding ----------

  /** The fields in the order in which they are inserted; the last two only when they say something. */
  function Fields(k: PublicKey): Entries
  {
    [(Text(ID), Integer(k.id)),
     (Text(DATA), ByteString(k.data)),
     (Text(TYPE), Integer(KeyTypeCode(k.keyType))),
     (Text(PURPOSE), Integer(PurposeCode(k.purpose))),
     (Text(READ_ONLY), Bool(k.readOnly)),
     (Text(SECURITY_LEVEL), Integer(SecurityLevelCode(k.securityLevel)))] +
    (if k.disabledAt.Some? then [(Text(DISABLED_AT), Integer(k.disabledAt.value))] else []) +
    (if k.signature != [] then [(Text(SIGNATURE), ByteString(k.signature))] else [])
  }

  lemma FieldsSortable(k: PublicKey)
    ensures Sortable(Fields(k))
  {
  }

  function Encode(k: PublicKey): Value
  {
    Map(Canonical(Fields(k)))
  }

  method ToCborValue(k: PublicKey) returns (v: Value)
    ensures v == Encode(k)
  {
    var pkMap := new CborCanonicalMap();
    pkMap.Insert(ID, Integer(k.id));
    pkMap.Insert(DATA, ByteString(k.data));
    pkMap.Insert(TYPE, Integer(KeyTypeCode(k.keyType)));
    pkMap.Insert(PURPOSE, Integer(PurposeCode(k.purpose)));
    pkMap.Insert(READ_ONLY, Bool(k.readOnly));
    pkMap.Insert(SECURITY_LEVEL, Integer(SecurityLevelCode(k.securityLevel)));
    if k.disabledAt.Some? {
      pkMap.Insert(DISABLED_AT, Integer(k.disabledAt.value));
    }
    if k.signature != [] {
      pkMap.Insert(SIGNATURE, ByteString(k.signature));
    }
    assert pkMap.inner == Fields(k);
    FieldsSortable(k);
    v := pkMap.ToValueSorted();
  }

  // ---------- Decoding ----------

  /** An integer field, cut down to the given width. */
  function AsUnsigned(es: Entries, key: Bytes, width: nat): Result<nat, DecodingError>
    requires width > 0
  {
    match GetKey(es, key)
    case Some(Integer(i)) => Ok(i % width)
    case _ => Err(DecodingError)
  }

  function AsBool(es: Entries, key: Bytes): Result<bool, DecodingError>
  {
    match GetKey(es, key)
    case Some(Bool(b)) => Ok(b)
    case _ => Err(DecodingError)
  }

  function BytesOfArray(items: seq<Value>): Result<Bytes, DecodingError>
  {
    if items == [] then Ok([])
    else
      match items[0]
      case Integer(i) =>
        if 0 <= i < 256 then
          match BytesOfArray(items[1..])
          case Ok(rest) => Ok([i] + rest)
          case Err(e) => Err(e)
        else Err(DecodingError)
      case _ => Err(DecodingError)
  }

  function AsBytes(es: Entries, key: Bytes): Result<Bytes, DecodingError>
  {
    match GetKey(es, key)
    case Some(ByteString(b)) => Ok(b)
    case Some(Array(items)) => BytesOfArray(items)
    case _ => Err(DecodingError)
  }

  /** The fields as read, before the codes are turned into enumerations. */
  datatype RawKey = RawKey(
    id: nat, keyType: nat, purpose: nat, securityLevel: nat, readOnly: bool, data: Bytes,
    signature: Result<Bytes, DecodingError>, disabledAt: Result<nat, DecodingError>)

  function ReadFields(es: Entries): Result<RawKey, DecodingError>
  {
    var id :- AsUnsigned(es, ID, U16);
    var keyType :- AsUnsigned(es, TYPE, 256);
    var purpose :- AsUnsigned(es, PURPOSE, 256);
    var securityLevel :- AsUnsigned(es, SECURITY_LEVEL, 256);
    var readOnly :- AsBool(es, READ_ONLY);
    var data :- AsBytes(es, DATA);
    Ok(RawKey(id, keyType, purpose, securityLevel, readOnly, data,
              AsBytes(es, SIGNATURE), AsUnsigned(es, DISABLED_AT, U64)))
  }

  function FromRaw(raw: RawKey): Result<PublicKey, DecodingError>
    requires raw.id < U64 && (raw.disabledAt.Ok? ==> raw.disabledAt.value < U64)
  {
    var purpose :- PurposeFrom(raw.purpose);
    var securityLevel :- SecurityLevelFrom(raw.securityLevel);
    var keyType :- KeyTypeFrom(raw.keyType);
    Ok(PublicKey(raw.id, purpose, securityLevel, keyType, raw.data, raw.readOnly,
                 if raw.disabledAt.Ok? then Some(raw.disabledAt.value) else None,
                 if raw.signature.Ok? then raw.signature.value else []))
  }

  function Decode(v: Value): Result<PublicKey, DecodingError>
  {
    if !v.Map? then Err(DecodingError)
    else
      var raw :- ReadFields(v.entries);
      FromRaw(raw)
  }

  /** The numbers of a list are bytes. */
  predicate AreBytes(items: seq<Value>)
  {
    forall v | v in items :: v.Integer? && 0 <= v.i < 256
  }

  lemma {:induction false} ArrayRead(items: seq<Value>)
    ensures BytesOfArray(items).Ok? <==> AreBytes(items)
    ensures BytesOfArray(items).Ok? ==>
              |BytesOfArray(items).value| == |items| &&
              forall i | 0 <= i < |items| :: Integer(BytesOfArray(items).value[i]) == items[i]
  {
    if items == [] {
    } else {
      ArrayRead(items[1..]);
      assert items == [items[0]] + items[1..];
      assert AreBytes(items) <==> items[0].Integer? && 0 <= items[0].i < 256 && AreBytes(items[1..]);
    }
  }

  predicate HasInteger(es: Entries, name: Bytes)
  {
    GetKey(es, name).Some? && GetKey(es, name).value.Integer?
  }

  function IntegerAt(es: Entries, name: Bytes): int
  {
    if HasInteger(es, name) then GetKey(es, name).value.i else 0
  }

  predicate HasBytes(es: Entries, name: Bytes)
  {
    match GetKey(es, name)
    case Some(ByteString(_)) => true
    case Some(Array(items)) => AreBytes(items)
    case _ => false
  }

  lemma BytesRead(es: Entries, name: Bytes)
    ensures AsBytes(es, name).Ok? <==> HasBytes(es, name)
    ensures forall b :: GetKey(es, name) == Some(ByteString(b)) ==> AsBytes(es, name) == Ok(b)
    ensures forall items :: GetKey(es, name) == Some(Array(items)) && AreBytes(items) ==>
              AsBytes(es, name) == BytesOfArray(items)
  {
    if GetKey(es, name).Some? && GetKey(es, name).value.Array? {
      ArrayRead(GetKey(es, name).value.items);
    }
  }

  /** What a map must hold to be decoded: the six required fields with values of their types, the three codes
      known when cut to eight bits. */
  predicate Decodable(es: Entries)
  {
    HasInteger(es, ID) && HasInteger(es, TYPE) && HasInteger(es, PURPOSE) &&
    HasInteger(es, SECURITY_LEVEL) && HasBytes(es, DATA) &&
    GetKey(es, READ_ONLY).Some? && GetKey(es, READ_ONLY).value.Bool? &&
    IntegerAt(es, TYPE) % 256 <= 3 && IntegerAt(es, PURPOSE) % 256 <= 2 &&
    IntegerAt(es, SECURITY_LEVEL) % 256 <= 3
  }

  /** Exactly such maps are decoded, field by field: integers cut to their widths, an absent or improper
      signature empty, an absent or improper time of disabling none. */
  lemma DecodedExactly(v: Value)
    ensures Decode(v).Ok? <==> v.Map? && Decodable(v.entries)
    ensures Decode(v).Ok? ==>
              var k, es := Decode(v).value, v.entries;
              k.id == IntegerAt(es, ID) % 0x1_0000 &&
              KeyTypeCode(k.keyType) == IntegerAt(es, TYPE) % 256 &&
              PurposeCode(k.purpose) == IntegerAt(es, PURPOSE) % 256 &&
              SecurityLevelCode(k.securityLevel) == IntegerAt(es, SECURITY_LEVEL) % 256 &&
              GetKey(es, READ_ONLY) == Some(Bool(k.readOnly)) &&
              AsBytes(es, DATA) == Ok(k.data) &&
              k.signature == (if AsBytes(es, SIGNATURE).Ok? then AsBytes(es, SIGNATURE).value else []) &&
              k.disabledAt == if HasInteger(es, DISABLED_AT)
                              then Some(IntegerAt(es, DISABLED_AT) % U64) else None
  {
    if v.Map? {
      BytesRead(v.entries, DATA);
      BytesRead(v.entries, SIGNATURE);
      CodesRead(IntegerAt(v.entries, TYPE) % 256);
      CodesRead(IntegerAt(v.entries, PURPOSE) % 256);
      CodesRead(IntegerAt(v.entries, SECURITY_LEVEL) % 256);
    }
  }

  // ---------- Round trip ----------

  lemma {:induction false} GetKeyAt(es: Entries, i: nat, key: Bytes)
    requires i < |es| && es[i].0 == Text(key) && forall j | 0 <= j < i :: es[j].0 != Text(key)
    ensures GetKey(es, key) == Some(es[i].1)
  {
    if i == 0 {
    } else {
      GetKeyAt(es[1..], i - 1, key);
    }
  }

  lemma {:induction false} GetKeyMissing(es: Entries, key: Bytes)
    requires forall j | 0 <= j < |es| :: es[j].0 != Text(key)
    ensures GetKey(es, key) == None
  {
    if es == [] {
    } else {
      GetKeyMissing(es[1..], key);
    }
  }

  /** A field at a known position is found in the sorted map. */
  lemma EncodedAt(k: PublicKey, i: nat, key: Bytes)
    requires i < |Fields(k)| && Fields(k)[i].0 == Text(key) && !Fields(k)[i].1.Map?
    requires forall j | 0 <= j < i :: Fields(k)[j].0 != Text(key)
    ensures GetKey(Encode(k).entries, key) == Some(Fields(k)[i].1)
  {
    GetKeyAt(Fields(k), i, key);
    FieldsSortable(k);
    LookupAfterSort(Fields(k), key);
  }

  lemma EncodedMissing(k: PublicKey, key: Bytes)
    requires forall j | 0 <= j < |Fields(k)| :: Fields(k)[j].0 != Text(key)
    ensures GetKey(Encode(k).entries, key) == None
  {
    GetKeyMissing(Fields(k), key);
    FieldsSortable(k);
    LookupAfterSort(Fields(k), key);
  }

  lemma RequiredFields(k: PublicKey)
    ensures var es := Encode(k).entries;
            GetKey(es, ID) == Some(Integer(k.id)) &&
            GetKey(es, DATA) == Some(ByteString(k.data)) &&
            GetKey(es, TYPE) == Some(Integer(KeyTypeCode(k.keyType)))
    ensures var es := Encode(k).entries;
            GetKey(es, PURPOSE) == Some(Integer(PurposeCode(k.purpose))) &&
            GetKey(es, READ_ONLY) == Some(Bool(k.readOnly)) &&
            GetKey(es, SECURITY_LEVEL) == Some(Integer(SecurityLevelCode(k.securityLevel)))
  {
    FieldNames(k);
    EncodedAt(k, 0, ID);
    EncodedAt(k, 1, DATA);
    EncodedAt(k, 2, TYPE);
    EncodedAt(k, 3, PURPOSE);
    EncodedAt(k, 4, READ_ONLY);
    EncodedAt(k, 5, SECURITY_LEVEL);
  }

  /** The required fields come first and have different names. */
  lemma FieldNames(k: PublicKey)
    ensures var es := Fields(k);
            |es| >= 6 && es[0].0 == Text(ID) && es[1].0 == Text(DATA) && es[2].0 == Text(TYPE) &&
            es[3].0 == Text(PURPOSE) && es[4].0 == Text(READ_ONLY) && es[5].0 == Text(SECURITY_LEVEL)
    ensures |DATA| == |TYPE| == 4 && DATA[0] != TYPE[0]
    ensures |ID| == 2 && |PURPOSE| == 7 && |READ_ONLY| == 8 && |SECURITY_LEVEL| == 13
    ensures |DISABLED_AT| == 10 && |SIGNATURE| == 9
  {
  }

  lemma OptionalFields(k: PublicKey)
    ensures GetKey(Encode(k).entries, DISABLED_AT) ==
            if k.disabledAt.Some? then Some(Integer(k.disabledAt.value)) else None
    ensures GetKey(Encode(k).entries, SIGNATURE) == if k.signature != [] then Some(ByteString(k.signature)) else None
  {
    if k.disabledAt.Some? {
      EncodedAt(k, 6, DISABLED_AT);
    } else {
      EncodedMissing(k, DISABLED_AT);
    }
    if k.signature != [] {
      EncodedAt(k, |Fields(k)| - 1, SIGNATURE);
    } else {
      EncodedMissing(k, SIGNATURE);
    }
  }

  /** What is found in an encoded key under each name, and nothing besides. */
  lemma EncodedFields(k: PublicKey)
    ensures var es := Encode(k).entries;
            GetKey(es, ID) == Some(Integer(k.id)) &&
            GetKey(es, DATA) == Some(ByteString(k.data)) &&
            GetKey(es, TYPE) == Some(Integer(KeyTypeCode(k.keyType))) &&
            GetKey(es, PURPOSE) == Some(Integer(PurposeCode(k.purpose))) &&
            GetKey(es, READ_ONLY) == Some(Bool(k.readOnly)) &&
            GetKey(es, SECURITY_LEVEL) == Some(Integer(SecurityLevelCode(k.securityLevel)))
    ensures var es := Encode(k).entries;
            GetKey(es, DISABLED_AT) ==
              (if k.disabledAt.Some? then Some(Integer(k.disabledAt.value)) else None) &&
            GetKey(es, SIGNATURE) == (if k.signature != [] then Some(ByteString(k.signature)) else None) &&
            |es| == 6 + (if k.disabledAt.Some? then 1 else 0) + (if k.signature != [] then 1 else 0)
  {
    RequiredFields(k);
    OptionalFields(k);
    CanonicalForm(Fields(k));
    assert |multiset(Canonical(Fields(k)))| == |multiset(CanonicalValues(Fields(k)))|;
  }

  function RawOf(k: PublicKey): RawKey
  {
    RawKey(k.id % U16, KeyTypeCode(k.keyType), PurposeCode(k.purpose), SecurityLevelCode(k.securityLevel),
           k.readOnly, k.data,
           if k.signature != [] then Ok(k.signature) else Err(DecodingError),
           if k.disabledAt.Some? then Ok(k.disabledAt.value) else Err(DecodingError))
  }

  lemma FieldsRead(k: PublicKey)
    ensures ReadFields(Encode(k).entries) == Ok(RawOf(k))
  {
    RequiredFields(k);
    OptionalFields(k);
  }

  lemma RawConverted(k: PublicKey)
    ensures FromRaw(RawOf(k)) == if k.purpose == WITHDRAW then Err(DecodingError) else Ok(k.(id := k.id % U16))
  {
  }

  /** Keys for withdrawals are not decoded; all others come back with their id cut to 16 bits. */
  lemma DecodeEncoded(k: PublicKey)
    ensures Decode(Encode(k)) == if k.purpose == WITHDRAW then Err(DecodingError) else Ok(k.(id := k.id % U16))
  {
    FieldsRead(k);
    RawConverted(k);
  }

  /** So a key survives the round trip exactly when its id is below 65536 and it is not for withdrawals. */
  lemma RoundTrip(k: PublicKey)
    ensures Decode(Encode(k)) == Ok(k) <==> k.id < U16 && k.purpose != WITHDRAW
  {
    DecodeEncoded(k);
  }

  /** Different keys are never encoded alike, not even those that cannot be decoded. */
  lemma EncodeInjective(k: PublicKey, l: PublicKey)
    requires Encode(k) == Encode(l)
    ensures k == l
  {
    RequiredFields(k);
    RequiredFields(l);
    OptionalFields(k);
    OptionalFields(l);
  }
}
