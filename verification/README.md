# Queries, storage accounting, contract cache and canonical encoding of Dash Platform

This project models five parts of the platform and proves what they are for.

* **Queries.** A SQL condition becomes where clauses (`SqlClauses`), the clauses are grouped
  (`Grouping`), and one clause with a direction and a start cursor becomes key ranges (`PathQuery`),
  which a client pages through (`Paging`). Clauses mean predicates on documents, queries mean sets of byte
  strings. `KeyEncoding` and `FieldQueries` show why byte ranges answer value comparisons, and
  `QueryPipeline` composes the stages.
* **Storage flags.** `StorageFlags` is the per-epoch byte ledger and its merges, `RemovalSplit` divides a
  removal over epochs, `FlagsCodec` is the byte form, and `FlagUpdates` runs all of them over sequences of
  element updates, refined by an abstract account of bytes per epoch.
* **Fees.** `RemovedBytes` and `FeeCalculation`: checked sums over operation lists against exact totals
  without width limits.
* **The contract cache.** `ContractCache` is the layered cache, `CachedStore` the state machine of store,
  transactions and cache. Over every allowed run the cache cannot be observed.
* **Canonical CBOR.** `CanonicalCbor` is the recursive stable sort of section 3.9 of RFC 7049,
  `PublicKeyCodec` the identity public key codec built on it.

`Prelude`, `ByteOrder`, `Values` and `Conditions` hold what these share.

Integers are unbounded in Dafny, so widths are explicit: `u16`, `u32` and `u64` are subset types, unchecked
u32 additions wrap (`StorageFlags.Add`), checked ones fail, and the last byte of a prefix wraps from 255 to 0.
Texts are their UTF-8 bytes and doubles their 64-bit patterns, so nothing is rounded.

## Where the code departs from what it promises

The model follows the code. Each departure has lemmas for all inputs: an if-and-only-if with the condition under
which the code does what it promises, or the exact outcome. The one exception is named: for owned multi-epoch
flags the condition is exact for a family of owners only.

* Key ranges are what the clause asks for exactly when `PathQuery.Conforms` holds of operator, operands,
  cursor and direction (`QueryExactlyWhenConforming`). What fails: left-to-right upper bounds with a cursor
  below the bound, a right-to-left `LessThan` at its own included bound, right-to-left
  `BetweenExcludeBounds` with the cursor at or beyond the right bound, right-to-left `BetweenExcludeLeft`
  with the cursor between the bounds or excluded at the right one, and prefixes whose last byte is 255.
* Paging is complete exactly when `Paging.Pageable` holds (`PagingExactlyWhenPageable`).
* `_` in a LIKE pattern is taken literally (`LikeMeaningExactly`).
* Unsigned keys order the two halves of the 64-bit range the wrong way round, and negative zero comes
  before every other double (`UnsignedKeyOrder`, `FloatKeyOrder`).
* The removal splitter is described as last in, first out, but starts with the oldest epoch and records zero
  for the section that ends the walk (`SectionAt`). It is the described split exactly when nothing is requested
  or more than all later epochs hold (`SplitIsLifo`). It splits key and value bytes independently, so both take
  an epoch's bytes exactly when both requests exceed all epochs up to it (`TakenTwiceExactly`).
* Owned multi-epoch flags are decoded from offset 3, inside the owner (`MultiOwnedPartial`,
  `MultiOwnedNotRecovered`, `MultiOwnedTiled`). Multi-epoch flags with an empty map cannot be decoded
  (`MultiRoundTrip`), and an unsplit removal stores such flags: a run of growth and unsplit removals stays
  readable exactly when no later-epoch removal comes first (`ReadableExactlyWhenGrowsFirst`).
* Removals are recorded short, so over any run the account keeps too much exactly when something was removed
  after the base epoch (`RunTotal`).
* An update of equal size replaces the account by the new flags, which keeps it exactly when it has their base
  epoch and nothing later (`SameSizeForgets`).
* A `WITHDRAW` key is encoded but not decoded, and key ids are cut to 16 bits (`DecodeEncoded`).
* Applying a contract that exists writes it without a cache insert. Its reader gets something else than the
  store holds exactly when the cache held another contract (`StaleAfterUnpairedWrite`), and no later read
  notices exactly when the write is harmless (`UnpairedWriteUnnoticed`). Writes beside open transactions,
  commits and finalization have their exact conditions too (`UnnoticedExactlyWhenAllowed`).
* A transaction is known to the cache by the address of a reference, and the loop moves the transaction out of
  its map before it tells the cache that it ends. When the address has changed by then, its layer is left
  behind, which goes unnoticed exactly when the layer is empty (`MovedUnnoticedExactly`, `StaleAfterMove`).
* A document that lacks an indexed field, or has null in it, is kept under the empty key, which upper bounds
  admit: it is found though it does not satisfy them, and by no other operator unless an operand's key is
  empty (`StoredQuery`, `UpperBoundsAdmitEmpty`, witness `AgelessFound`). The empty byte string shares that key.
* The empty text and the text of one zero byte have the same key, and negative zero is out of place among the
  numbers that are not positive; no other values of a field are confused (`KeysOrderValues`).

## Model

| member | source | states |
|---|---|---|
| `ByteOrder.PrefixInterval` | drive/src/query/conditions.rs:892-904 | the keys with a given prefix are exactly those from the prefix up to the prefix with its last byte raised, for a last byte below 255 |
| `KeyEncoding.OrderIsNumeric` | drive/src/common/encode.rs:46-57 | among byte strings of one length, byte order is the order of the big-endian numbers they denote |
| `KeyEncoding.EncodeSignedInteger` | drive/src/common/encode.rs:65-88 | writing, then flipping the top bit, gives the eight bytes denoting the value plus 2^63 |
| `KeyEncoding.EncodeUnsignedInteger` | drive/src/common/encode.rs:39-62 | the same bytes denote the value plus 2^63 modulo 2^64 |
| `KeyEncoding.EncodeFloat` | drive/src/common/encode.rs:91-128 | complementing below zero and flipping the top bit otherwise gives the key whose order `FloatKeyOrder` describes |
| `KeyEncoding.SignedKeyOrder` | drive/src/common/encode.rs:65-88 | byte order of keys is integer order, for all pairs of 64-bit integers, and keys are distinct |
| `KeyEncoding.UnsignedKeyOrder` | drive/src/common/encode.rs:39-62 | byte order agrees with integer order if and only if both values are on the same side of 2^63; below 2^63 the keys are the signed ones |
| `KeyEncoding.MagnitudeMonotone` | drive/src/common/encode.rs:91-128 | within one sign, larger bit patterns are larger magnitudes, over the binary64 layout of section 3.4 of IEEE 754-2008 |
| `KeyEncoding.FloatKeyOrder` | drive/src/common/encode.rs:91-128 | for all pairs of doubles that are not NaN, byte order is numeric order if and only if the pair does not misplace negative zero; keys are equal exactly for equal numbers other than negative zero |
| `KeyEncoding.MisplacedKeys` | drive/src/common/encode.rs:59-124 | concrete pairs out of order: negative zero before zero and before minus one, 2^63 before its predecessor |
| `Values.NoneBetween` | drive/src/query/conditions.rs:250-284 | in the order used to compare bounds, no value satisfies a lower and an upper bound that are out of order |
| `Conditions.FlipMeaning` | drive/src/query/conditions.rs:119-145 | `v op x` holds exactly when `x flip(op) v` does, and flipping twice gives the operator back |
| `Conditions.FlipAllowed` | drive/src/query/conditions.rs:119-145 | exactly the five plain comparisons can be flipped; the others earn one error |
| `Conditions.InValues` | drive/src/query/conditions.rs:219-247 | accepted exactly when the value is an array of 1 to 100 values no two of which are equal; then it is that array |
| `SqlClauses.BuildWhereClauses` | drive/src/query/conditions.rs:936-1060 | succeeds exactly when the specification compiles, with its error otherwise; in either case exactly the clauses of all conjuncts before the first failure have been pushed after those already there |
| `SqlClauses.PushedAll` | drive/src/query/conditions.rs:936-1060 | on success these are all clauses of the expression, in order |
| `SqlClauses.ToCborDenotes` | drive/src/query/conditions.rs:50-71 | the CBOR value of a literal is what the literal denotes in SQL |
| `SqlClauses.AcceptedExactly` | drive/src/query/conditions.rs:936-1060 | an expression is compiled if and only if it is a conjunction, at any depth, of value lists for a field, comparisons between a field and a value on either side, and LIKE with the field first and one `%` at the end of a text |
| `SqlClauses.PushedClause` | drive/src/query/conditions.rs:982-1052 | the clause pushed for each comparison operator and each kind of literal |
| `SqlClauses.PushedFlipped` | drive/src/query/conditions.rs:996-1002 | a value-first comparison is compiled as the mirrored one with the field first |
| `SqlClauses.ListPushed` | drive/src/query/conditions.rs:958-972 | an in condition pushes the values of its list, all of them and in order |
| `SqlClauses.CompileErrors` | drive/src/query/conditions.rs:936-1060 | the error that each rejected expression earns |
| `SqlClauses.LikePrefix` | drive/src/query/conditions.rs:1016-1036 | a pattern of plain characters and a final `%` matches, in the sense of SQL, exactly the texts with that prefix |
| `SqlClauses.CompiledMeaning` | drive/src/query/conditions.rs:936-1060 | for every accepted expression without `_` in a pattern and every document, the expression holds exactly when all pushed clauses do: conjunctions of any depth, value-first comparisons, in lists, LIKE |
| `SqlClauses.LikeConfused` | drive/src/query/conditions.rs:1016-1036 | for every pattern with `_`, a text that SQL matches and the compiled prefix clause does not |
| `SqlClauses.LikeMeaningExactly` | drive/src/query/conditions.rs:1016-1036 | a LIKE condition keeps its meaning for all documents if and only if its pattern has no `_` |
| `Grouping.GroupClauses` | drive/src/query/conditions.rs:365-567 | the pass with its running set of known fields returns the groups, or the first error, of the specification `Group` |
| `Grouping.EqualClausesSucceed` | drive/src/query/conditions.rs:371-399 | equalities are accepted exactly when no field occurs twice or is known already |
| `Grouping.EqualClausesContents` | drive/src/query/conditions.rs:371-399 | accepted equalities are filed one per field, each under its own field |
| `Grouping.TwoBoundsAccepted` | drive/src/query/conditions.rs:494-535 | a lower and an upper bound make a range if and only if they are on one unused field, comparable, and not out of order, nor equal when both are excluded; the range has their values in order and excludes what they exclude |
| `Grouping.RangeExactly` | drive/src/query/conditions.rs:464-564 | the range part is accepted if and only if it is empty, one bound, two bounds that make a range, or one other clause that is not the empty prefix, on an unused field |
| `Grouping.GroupedExactly` | drive/src/query/conditions.rs:365-567 | a list of clauses is grouped if and only if its equalities are on distinct fields, it has at most one in clause, on another field, and its range part is accepted beside them; clauses on `$id` apart |
| `Grouping.GroupErrors` | drive/src/query/conditions.rs:365-567 | the error of a rejected list: repeated equality, too many in clauses, in clause on a used field, then the range |
| `Grouping.RangeErrors` | drive/src/query/conditions.rs:464-564 | the error of a rejected range part by the number and kind of its clauses |
| `Grouping.PairErrors` | drive/src/query/conditions.rs:481-525 | the error of two rejected bounds |
| `Grouping.TwoBoundsMeaning` | drive/src/query/conditions.rs:494-535 | two bounds hold of a document exactly when the between clause made of them does |
| `Grouping.GroupingMeaning` | drive/src/query/conditions.rs:365-567 | whenever grouping succeeds, a document satisfies all clauses other than Equal and In on `$id` exactly when it satisfies the equality, range and in groups |
| `Grouping.OutOfOrderUnsatisfiable` | drive/src/query/conditions.rs:519-525 | two bounds rejected as out of order hold together of no document |
| `Grouping.GroupingIgnoresOrder` | drive/src/query/conditions.rs:365-567 | any permutation of the clauses succeeds or fails alike, with the same groups |
| `Grouping.ErrorDependsOnOrder` | drive/src/query/conditions.rs:482-493 | which error two bounds on different fields earn depends on their order |
| `PathQuery.InQuery` | drive/src/query/conditions.rs:636-661 | the loop inserts the items of all serialized values in order, or stops with the first serialization error |
| `PathQuery.Resolved` | drive/src/query/conditions.rs:569-592 | the operands of every kind of clause are its serialized values in their places; otherwise the error that each defect earns |
| `PathQuery.ToPathQuery` | drive/src/query/conditions.rs:599-933 | the error of the cursor, else the error of the operands, else the items whose meaning the next three rows give |
| `PathQuery.ConformingQuery` | drive/src/query/conditions.rs:617-932 | for every operator, operands, cursor and direction that conform, the inserted items select a key exactly when it satisfies the clause and is past the cursor, or at it if included |
| `PathQuery.DeviatingQuery` | drive/src/query/conditions.rs:718-857 | in every other case, a key that the items select though it is not wanted, or miss though it is |
| `PathQuery.QueryExactlyWhenConforming` | drive/src/query/conditions.rs:617-932 | the items select exactly the wanted keys if and only if the clause and cursor conform |
| `PathQuery.SelectedExactly` | drive/src/query/conditions.rs:617-932 | the keys selected in every case: the wanted ones where clause and cursor conform, and in each other case exactly the set described by `Mistaken` |
| `PathQuery.UpperBoundReversed` | drive/src/query/conditions.rs:718-751 | left to right under an upper bound, with the cursor below it, the one range inserted runs from the bound back to the cursor |
| `PathQuery.InsertedUnlessExhausted` | drive/src/query/conditions.rs:662-932 | a range operator inserts one item, and none exactly when the scan that resumes at the cursor has passed its range |
| `Paging.VisitByRemaining` | drive/src/query/conditions.rs:607-615 | if each page is the first of what remains and the next cursor leaves the rest, the visit is what remains |
| `Paging.VisitRemaining` | drive/src/query/conditions.rs:607-932 | from any cursor a client can have, paging yields exactly the wanted keys left, in order |
| `Paging.PagingVisitsAll` | drive/src/query/conditions.rs:607-932 | over every finite key set and page size, re-querying after the last key returned visits every matching key once, in order, and stops, for pageable clauses |
| `Paging.UpperBoundPagingGoesWrong` | drive/src/query/conditions.rs:718-751 | left-to-right paging of every upper bound with two keys to visit is incomplete |
| `Paging.LeftBoundPagingGoesWrong` | drive/src/query/conditions.rs:847-857 | right-to-left paging of every excluded left bound with two keys to visit returns that bound |
| `Paging.PrefixPagingGoesWrong` | drive/src/query/conditions.rs:901 | paging a prefix whose last byte is 255 misses the prefix itself |
| `Paging.PagingExactlyWhenPageable` | drive/src/query/conditions.rs:607-932 | paging is complete for all key sets and page sizes if and only if the clause is pageable in that direction |
| `FieldQueries.KeysOrderValues` | dpp/src/data_contract/extra/document_field.rs:672-748 | on integer, number, string and byte array fields, key order and key equality are value order and equality for a pair of regular values if and only if the pair is not the empty text and the text of one zero byte, nor negative zero and another number that is not positive |
| `FieldQueries.KeyBytes` | dpp/src/data_contract/extra/document_field.rs:672-748 | the bytes of every key, by the kind of value |
| `FieldQueries.HasKey` | dpp/src/data_contract/extra/document_type.rs:81-93 | exactly which values of the modelled kinds have a key in a field: null, and those of its kind that fit 64 bits or 255 bytes |
| `FieldQueries.MatchesIsSatisfiesKeyed` | dpp/src/data_contract/extra/document_type.rs:63-95 | without negative zero, a stored value's key matches the serialized operands exactly when the value satisfies the clause, the empty text read as the text of one zero byte on both sides |
| `FieldQueries.MatchesIsSatisfies` | dpp/src/data_contract/extra/document_type.rs:63-95 | it matches exactly when the value satisfies the clause as it stands, unless it forms one of those two pairs with an operand |
| `FieldQueries.TypedQuery` | drive/src/query/conditions.rs:599-933 | on a typed field, conforming ranges select exactly the values that satisfy the clause and are past the start value, unless one of those two pairs is involved |
| `FieldQueries.IntegerQuery` | drive/src/query/conditions.rs:617-891 | on an integer field without a cursor, every clause selects exactly the 64-bit integers that satisfy it |
| `FieldQueries.MatchesEmpty` | dpp/src/data_contract/extra/document_field.rs:673-675 | the operators and operands that the empty key matches: upper bounds that are not empty, and empty single keys and lower bounds |
| `FieldQueries.StoredQuery` | drive/src/drive/document/insert.rs:577-584 | by the key under which a document is kept, the ranges find it exactly when it satisfies the clause, if and only if it is not the case that it has no value in the field and the clause admits the empty key; in that case it is found |
| `FieldQueries.UpperBoundsAdmitEmpty` | drive/src/query/conditions.rs:712-763 | with operands whose keys are not empty, exactly the two upper bounds find documents without a value |
| `FieldQueries.AgelessFound` | drive/src/drive/document/insert.rs:577-584 | a witness: a bound on an integer field finds the document that has no such field |
| `FieldQueries.NullOperand` | dpp/src/data_contract/extra/document_field.rs:673-675 | what a comparison with null finds: equality and the upper bound exactly what is kept under the empty key, the strict lower bound all else, the lower bound everything, the strict upper bound nothing |
| `QueryPipeline.SqlIsGroups` | drive/src/query/conditions.rs:365-1060 | a SQL condition holds of a document exactly when its groups and its Equal and In clauses on `$id` do, through compiling and grouping |
| `QueryPipeline.SqlIsKeyRanges` | drive/src/query/conditions.rs:365-1060 | a SQL condition holds of a document exactly when, field by field, the key ranges of every equality, of the range and of the in clause find the document under its stored key, none of them for want of a value, and the clauses on `$id` hold; so nothing is missed |
| `StorageFlags.MergeMaps` | drive/src/drive/flags.rs:103-127 | the loop over the second map gives the key-by-key u32 sum over the union of epochs |
| `StorageFlags.SubtractSections` | drive/src/drive/flags.rs:188-206 | whatever the order of the sections, succeeds exactly when every epoch holds its section, and then every section is subtracted; each of the two errors is reported only when there is such an epoch |
| `StorageFlags.SameEpochMerge` | drive/src/drive/flags.rs:129-142 | succeeds exactly for compatible owners; keeps base epoch and owner; epoch by epoch the sum of both |
| `StorageFlags.AddedMerge` | drive/src/drive/flags.rs:235-246 | succeeds exactly for a base epoch no older and compatible owners; keeps base epoch, a set owner, and epochs above the base; epoch by epoch the bytes of both flags, plus the added bytes in a later epoch |
| `StorageFlags.AddedEpochs` | drive/src/drive/flags.rs:103-161 | the epochs recorded by a growing merge are those of both flags and the later epoch, and whether the result has a map |
| `StorageFlags.AddedMergeErrors` | drive/src/drive/flags.rs:235-246 | an older base epoch is reported before different owners |
| `StorageFlags.RemovedMerge` | drive/src/drive/flags.rs:249-267 | a successful shrinking merge keeps the same, and each epoch gives up exactly its section |
| `StorageFlags.RemovedMergeSucceeds` | drive/src/drive/flags.rs:163-267 | succeeds exactly for a base epoch no older, compatible owners and, in a later epoch, a removal filed under the one owner of the merge that takes no more than both flags hold; otherwise the error says which |
| `StorageFlags.RemovedEpochs` | drive/src/drive/flags.rs:163-213 | the epochs recorded by a shrinking merge are those of both flags, and whether the result has a map |
| `StorageFlags.AddedMergeTotal` | drive/src/drive/flags.rs:144-161 | without u32 overflow the total is both totals plus the added bytes, the latter only for a later epoch |
| `StorageFlags.RemovedMergeTotal` | drive/src/drive/flags.rs:163-213 | without u32 overflow the total is both totals minus the sections taken |
| `RemovalSplit.SectionedRemovalLoop` | drive/src/drive/flags.rs:564-590 | the reverse iterator read from its back walks epochs upwards; the sections are those of `SplitFrom`, described by `SplitRecords` |
| `RemovalSplit.SplitRecords` | drive/src/drive/flags.rs:536-648 | no epoch outside the base gives more than it holds; no more is recorded than requested, and exactly the request if and only if it is zero or exceeds everything outside the base; only then the base gives, and exactly the rest |
| `RemovalSplit.SplitStorageRemovedBytes` | drive/src/drive/flags.rs:536-648 | computes the split that the next rows describe, for all four kinds of flags |
| `RemovalSplit.SplitFiled` | drive/src/drive/flags.rs:536-648 | both removals are filed under the owner, or the all-zero identifier without one, the first by the key bytes and the second by the value bytes, each epoch by the closed form and the base by what is left |
| `RemovalSplit.SectionAt` | drive/src/drive/flags.rs:564-590 | the closed form: an epoch outside the base has a section exactly when the older ones do not cover the request, and gives all it has if the request exceeds it and the older ones together, else nothing |
| `RemovalSplit.LifoAt` | drive/src/drive/flags.rs:535 | in the described split each epoch gives as much as it has of what the newer ones do not cover |
| `RemovalSplit.SplitIsLifo` | drive/src/drive/flags.rs:535-590 | the split is the described last in, first out split if and only if nothing is requested or more than all epochs outside the base hold |
| `RemovalSplit.SplitThenMerge` | drive/src/drive/flags.rs:163-213 | feeding the value part of a split to a later single-epoch merge of compatible owner succeeds if and only if the merge looks under the owner of the split, as it does for owned flags, and nothing landed on the base epoch, that is if and only if the request fits the other epochs; then each epoch gives up exactly its section |
| `RemovalSplit.OldestFirst` | drive/src/drive/flags.rs:571-582 | a witness: removing 12 from 10 bytes in epoch 2 and 10 in epoch 9 takes 10 from epoch 2 and records 0 for epoch 9 |
| `RemovalSplit.TakenTwiceExactly` | drive/src/drive/flags.rs:617-646 | key and value removals together take more of an epoch than it holds if and only if it holds something and both requests exceed the bytes of all epochs up to and including it |
| `RemovalSplit.TakenTwice` | drive/src/drive/flags.rs:617-631 | a witness: ten bytes taken twice |
| `FlagsCodec.VarintRoundTrip` | drive/src/drive/flags.rs:331-398 | a variable-length integer followed by anything is read back with its size |
| `FlagsCodec.VarintDigits` | drive/src/drive/flags.rs:331 | a variable-length integer is its base-128 digits, least significant first, with the top bit on all but the last |
| `FlagsCodec.U16BigEndian` | drive/src/drive/flags.rs:317-394 | two-byte numbers are written and read big-endian |
| `FlagsCodec.ReadEntriesLoop` | drive/src/drive/flags.rs:387-405 | the loop over `offset` reads what the recursive reader reads from there |
| `FlagsCodec.MapRoundTrip` | drive/src/drive/flags.rs:326-405 | every epoch map is read back from its entries |
| `FlagsCodec.OneEntry` | drive/src/drive/flags.rs:329-332 | the bytes of one entry: epoch, then amount |
| `FlagsCodec.EntriesAscend` | drive/src/drive/flags.rs:326-336 | entries are in ascending order of epoch: cut at any epoch, those before it come first |
| `FlagsCodec.TrailingIgnored` | drive/src/drive/flags.rs:389-405 | up to two bytes after the entries are ignored |
| `FlagsCodec.Layout` | drive/src/drive/flags.rs:317-354 | where owner, base epoch and map are in serialized flags |
| `FlagsCodec.KindAndEpoch` | drive/src/drive/flags.rs:308-354 | the first byte is the number of the kind, and the base epoch is in two bytes after it or after the owner |
| `FlagsCodec.DeserializedExactly` | drive/src/drive/flags.rs:357-493 | what every byte string decodes to by its first byte and its length, and the error it earns otherwise |
| `FlagsCodec.SerializeInjective` | drive/src/drive/flags.rs:317-354 | different flags, of any of the four kinds, have different bytes |
| `FlagsCodec.SingleRoundTrip` | drive/src/drive/flags.rs:357-431 | owned and unowned single-epoch flags are read back |
| `FlagsCodec.MultiRoundTrip` | drive/src/drive/flags.rs:373-408 | unowned multi-epoch flags are read back if and only if their map is not empty; otherwise decoding fails |
| `FlagsCodec.OwnedDecode` | drive/src/drive/flags.rs:434-474 | decoding serialized owned multi-epoch flags fails or gives owner, base epoch and exactly the map read from the misread owner bytes, the base epoch and the true map in a row |
| `FlagsCodec.MultiOwnedPartial` | drive/src/drive/flags.rs:434-474 | owned multi-epoch flags that decode at all come back with their owner and base epoch; an empty map never decodes |
| `FlagsCodec.MultiOwnedNotRecovered` | drive/src/drive/flags.rs:453-472 | they do not come back as they were unless bytes 2 and 3 of the owner spell a recorded epoch |
| `FlagsCodec.MultiOwnedTiled` | drive/src/drive/flags.rs:453-472 | when the misread owner bytes and base epoch are a row of whole entries, the flags come back if and only if their map is not empty and holds every epoch misread |
| `FlagUpdates.PendingElement.constructor` | drive/src/drive/grove_operations.rs:1040-1046 | an element is pending with the flags it is written with |
| `FlagUpdates.PendingElement.Update` | drive/src/drive/grove_operations.rs:1040-1088 | without old flags reports no change and keeps the new ones; otherwise overwrites them with the specified stored flags, reports whether they changed, and leaves them alone on every error |
| `FlagUpdates.StoredExactly` | drive/src/drive/grove_operations.rs:1043-1050 | an element without old flags stores its new ones; old or new flags that do not decode, and new ones that are empty, earn each its error |
| `FlagUpdates.EmptyOldFlags` | drive/src/drive/grove_operations.rs:1048-1068 | old flags that are empty count as none |
| `FlagUpdates.StoredCombined` | drive/src/drive/grove_operations.rs:1051-1087 | bigger updates combine by the added bytes, smaller ones by the removal, others not at all; what cannot be combined is an error |
| `FlagUpdates.SplitRemovedExactly` | drive/src/drive/grove_operations.rs:1089-1099 | the split closure: an error for flags that do not decode, whole amounts for empty ones, the split otherwise |
| `FlagUpdates.CreatedThenGrown` | drive/src/drive/grove_operations.rs:1040-1068 | a run from creation: an element written with single-epoch flags and then grown holds in each later epoch the bytes added in it |
| `FlagUpdates.GrowRefines` | drive/src/drive/grove_operations.rs:1052-1068 | a growing update on the stored bytes fails or succeeds as booking it in the account does, with exactly the account's bytes |
| `FlagUpdates.ShrinkRefines` | drive/src/drive/grove_operations.rs:1069-1099 | the same for a shrinking update whose removal went through the split closure |
| `FlagUpdates.DropRefines` | drive/src/drive/grove_operations.rs:1069-1085 | an unsplit removal changes nothing in an account with later epochs and leaves unreadable bytes in one without |
| `FlagUpdates.RunRefinesAccount` | drive/src/drive/grove_operations.rs:1040-1099 | over every run of growing updates and split or unsplit removals on an unowned element, the stored bytes end readable exactly when the account can be kept, and then are exactly its flags, with an unchanged base epoch |
| `FlagUpdates.ReadableExactlyWhenGrowsFirst` | drive/src/drive/grove_operations.rs:1052-1085 | a run of growth and unsplit removals ends readable if and only if the element has later epochs already or its first later-epoch update grows |
| `FlagUpdates.GrowthRun` | drive/src/drive/grove_operations.rs:1040-1068 | over every run of growing updates no older than the base, from any unowned flags that decode and record epochs above the base only, the stored bytes decode, the base epoch never changes, and each later epoch holds what it held plus the sum of bytes added in it, modulo 2^32 |
| `FlagUpdates.BookedTotal` | drive/src/drive/flags.rs:564-590 | a step leaves at least the total plus what it added minus what it removed, and exactly that if and only if it removed nothing after the base epoch; a split removal lowers it by exactly what the splitter recorded |
| `FlagUpdates.RunTotal` | drive/src/drive/flags.rs:564-590 | the same over every run without overflow: what is left is all added minus all removed if and only if nothing was removed after the base epoch, and more otherwise |
| `FlagUpdates.SameSizeForgets` | drive/src/drive/grove_operations.rs:1086 | an update of equal size stores the new flags whatever the account held, so the account survives if and only if it has that base epoch and no later ones |
| `FlagUpdates.UnreadableAfterShrink` | drive/src/drive/grove_operations.rs:1069-1085 | a removal not split by epoch turns single-epoch flags into bytes that every later update rejects |
| `FlagUpdates.OwnedGrowthNotRecovered` | drive/src/drive/grove_operations.rs:1052-1068 | an owned element that grows in a later epoch stores flags that are not read back, unless its owner spells that epoch |
| `RemovedBytes.CombineAmounts` | drive/src/fee/removed_bytes_from_epochs_by_identities.rs:20-32 | succeeds exactly when every epoch's sum fits 32 bits, with the sum over the union of epochs |
| `RemovedBytes.RemovedBytesFromEpochsByIdentities.constructor` | drive/src/fee/removed_bytes_from_epochs_by_identities.rs:11-12 | a new ledger is empty |
| `RemovedBytes.RemovedBytesFromEpochsByIdentities.AddIdentity` | drive/src/fee/removed_bytes_from_epochs_by_identities.rs:18-36 | one identity's entry becomes the sum, or is lost when the sum does not fit |
| `RemovedBytes.RemovedBytesFromEpochsByIdentities.CheckedAddAssign` | drive/src/fee/removed_bytes_from_epochs_by_identities.rs:16-40 | succeeds exactly when every sum fits, and then adds over the union of identities and epochs; a failure leaves the ledger without an identity whose sum did not fit |
| `RemovedBytes.AddLedgersCommutes` | drive/src/fee/removed_bytes_from_epochs_by_identities.rs:16-40 | ledger addition is commutative |
| `RemovedBytes.AddLedgersAt` | drive/src/fee/removed_bytes_from_epochs_by_identities.rs:16-40 | ledger addition is pointwise over the union of identities and, for each, of epochs |
| `RemovedBytes.AddLedgersAssociates` | drive/src/fee/removed_bytes_from_epochs_by_identities.rs:16-40 | ledger addition is associative |
| `RemovedBytes.TotalBytesOfSum` | drive/src/fee/removed_bytes_from_epochs_by_identities.rs:16-40 | the total of a sum is the sum of the totals |
| `FeeCalculation.EphemeralCostExact` | drive/src/fee/op.rs:556-590 | with 32-bit cost fields none of the checked steps overflows, and the cost is the exact linear combination |
| `FeeCalculation.FeeOfExact` | drive/src/fee/op.rs:394-453 | an operation has a fee exactly when it is not a grove operation, and a calculated cost has the exact fee |
| `FeeCalculation.RemovedFiled` | drive/src/fee/op.rs:406-427 | an identity's removed bytes stay with it epoch by epoch; those of the all-zero identifier, and unsplit amounts, go to the system |
| `FeeCalculation.BaseCosts` | drive/src/fee/op.rs:109-137 | the price of every base operation |
| `FeeCalculation.TotalRemovedBytes` | drive/src/fee/op.rs:571-574 | summing identity by identity gives the total modulo 2^32 |
| `FeeCalculation.OperationFee` | drive/src/fee/op.rs:400-430 | computes the fee that `FeeOfExact` describes |
| `FeeCalculation.FeeAggregate.constructor` | drive/src/fee/mod.rs:65 | fees start at nothing |
| `FeeCalculation.FeeAggregate.CheckedAddAssign` | drive/src/fee/mod.rs:88-110 | succeeds exactly when every exact sum fits its field, and then adds field by field; a failure keeps the fields added before the one that does not fit |
| `FeeCalculation.FeeAggregate.AddBaseFees` | drive/src/fee/mod.rs:66-76 | succeeds exactly when the exact base total fits 64 bits together with the fee so far; changes the processing fee only |
| `FeeCalculation.ConsumeToFees` | drive/src/fee/op.rs:394-431 | succeeds exactly when there is no grove operation, with each operation's fee in its place |
| `FeeCalculation.AddAll` | drive/src/fee/mod.rs:78-83 | the loop over the fees succeeds exactly when the exact sum fits, and then has added it |
| `FeeCalculation.CalculateFee` | drive/src/fee/mod.rs:60-86 | succeeds if and only if there is no grove operation and every exact total fits its width, and then returns exactly those totals; a grove operation is the error unless the base operations overflow first |
| `FeeCalculation.ChargesIgnoreOrder` | drive/src/fee/mod.rs:60-86 | any permutation of the operations is charged alike: same success, same totals |
| `FeeCalculation.RemovedConserved` | drive/src/fee/op.rs:406-427 | over every list, removed bytes equal identity bytes plus system bytes, given that each operation's system sum fits 32 bits |
| `ContractCache.DataContractCache.constructor` | drive/src/drive/cache.rs:24-31 | a new cache is empty |
| `ContractCache.DataContractCache.Insert` | drive/src/drive/cache.rs:35-103 | goes to the transaction's layer, made on demand, or to the global one; nothing else changes |
| `ContractCache.DataContractCache.Get` | drive/src/drive/cache.rs:47-55 | the transaction's layer first, then the global one |
| `ContractCache.DataContractCache.MergeTransactionalCache` | drive/src/drive/cache.rs:58-64 | the global layer is overwritten by the transaction's layer, which stays |
| `ContractCache.DataContractCache.ClearTransactionalCache` | drive/src/drive/cache.rs:67-120 | drops that transaction's layer and no other |
| `ContractCache.DataContractCache.ClearAllTransactionalCache` | drive/src/drive/cache.rs:72-125 | drops every transaction's layer and keeps the global one |
| `ContractCache.LookupAfterInsert` | drive/src/drive/cache.rs:35-55 | what every reader finds after an insert |
| `ContractCache.LookupAfterMerge` | drive/src/drive/cache.rs:58-64 | what every reader finds after a merge: outside, what the transaction's layer holds, or else what was there |
| `ContractCache.LookupAfterClear` | drive/src/drive/cache.rs:67-69 | what every reader finds after a transaction's layer is cleared |
| `CachedStore.ReadFills` | drive/src/drive/contract/mod.rs:645-701 | after a read its answer is in the cache for the same reader |
| `CachedStore.WriteFills` | drive/src/drive/contract/mod.rs:340-411 | after an update the contract is in the cache for its writer; what every reader sees in the store after a write |
| `CachedStore.Started` | node/src/lib.rs:161-172 | a started transaction is open, has written nothing and sees what is committed |
| `CachedStore.CommitPublishes` | node/src/lib.rs:173-198 | after a commit, readers outside find in store and cache what the transaction found; it is closed and its layer gone |
| `CachedStore.RollbackForgets` | node/src/lib.rs:199-242 | after a rollback or abort, readers outside find what they found before; the transaction is closed and its layer gone |
| `CachedStore.OthersKept` | node/src/lib.rs:173-242 | ending a transaction leaves the writes and layers of others alone; finalization drops layers only, eviction global entries only |
| `CachedStore.LookupAgrees` | drive/src/drive/cache.rs:47-55 | in a coherent state the cache returns nothing but what the reader's view of the store holds |
| `CachedStore.StepCoherent` | node/src/lib.rs:161-242 | every allowed start, write, read, commit, rollback, abort, finalization or eviction keeps cache and store coherent, with any number of transactions open |
| `CachedStore.CacheIsTransparent` | node/src/lib.rs:161-242 | over every allowed run, however the global layer evicts, all reads are answered as by the store alone |
| `CachedStore.CachedValuesAreCurrent` | drive/src/drive/contract/mod.rs:645-701 | from an empty cache over any store, after any allowed run, a cached contract is the one in that reader's view |
| `CachedStore.AloneIsAllowed` | node/src/lib.rs:161-242 | with one transaction open at most, new contracts only written without a cache insert, and neither writes beside the transaction nor finalization under it, every event is allowed |
| `CachedStore.UnnoticedExactlyWhenAllowed` | node/src/lib.rs:161-242 | from any coherent state, every allowed continuation of a possible event is answered as by the store if and only if the event is allowed: no condition can be dropped |
| `CachedStore.FinalizeUnnoticed` | dash-abci/src/abci/handlers.rs:168-177 | finalization goes unnoticed if and only if no open transaction has replaced a committed contract by another |
| `CachedStore.StaleAfterLoss` | dash-abci/src/abci/handlers.rs:168-177 | otherwise a transaction reads from the global layer what it had overwritten |
| `CachedStore.StaleAfterUnpairedWrite` | drive/src/drive/contract/mod.rs:806-834 | after a write without a cache insert, inside a transaction or outside, its reader gets something else than the store holds if and only if the cache held another contract for it |
| `CachedStore.UnpairedWriteUnnoticed` | drive/src/drive/contract/mod.rs:806-834 | such a write goes unnoticed if and only if the contract the cache shows its writer, if any, is the one written and, unless the transaction's layer holds it, so is the committed one, if any, and, outside a transaction, all open ones are indifferent |
| `CachedStore.DirectWriteUnnoticed` | drive/src/drive/contract/mod.rs:404-408 | a write beside open transactions goes unnoticed if and only if each of them has its own in its layer, or has read or written the same contract, or has done neither |
| `CachedStore.CommitUnnoticed` | node/src/lib.rs:173-198 | a commit goes unnoticed if and only if every other open transaction is so indifferent to everything it wrote |
| `CachedStore.MovedUnnoticedExactly` | node/src/lib.rs:164-242 | the commit, rollback or abort of the only open transaction under a changed identifier goes unnoticed if and only if its layer is empty |
| `CachedStore.StaleAfterMove` | drive/src/drive/cache.rs:138-145 | in particular a contract it overwrote stays in the global layer and is read at once |
| `CachedStore.PlatformLoop.constructor` | node/src/lib.rs:130-140 | the loop starts with no open transaction and an empty cache |
| `CachedStore.PlatformLoop.Handle` | node/src/lib.rs:161-242 | each transaction message is exactly the step that `UnnoticedExactlyWhenAllowed` and `MovedUnnoticedExactly` are about, with the identifier the transaction has when the cache is told; an unknown transaction is an error that changes nothing |
| `CachedStore.PlatformLoop.Callback` | drive/src/drive/contract/mod.rs:340-701 | the writes, reads and finalization a callback performs are exactly their steps, and a read returns the answer of `CacheIsTransparent` |
| `CanonicalCbor.SortBucket` | dpp/src/util/cbor_value.rs:221-234 | sorting keeps the entries under each key in their order: it is stable and loses nothing |
| `CanonicalCbor.SortedUnique` | dpp/src/util/cbor_value.rs:221-234 | a sorted list is determined by the entries under each key, so there is only one stable sort |
| `CanonicalCbor.RecursivelySortCanonicalCborMap` | dpp/src/util/cbor_value.rs:214-235 | the walk that sorts nested maps where they stand, then the entries, yields the canonical form of the following rows |
| `CanonicalCbor.CanonicalForm` | dpp/src/util/cbor_value.rs:214-235 | a permutation of the entries with canonical values, ordered by key length then bytes, at every nested map reached through map values |
| `CanonicalCbor.InCanonicalOrder` | dpp/src/util/cbor_value.rs:221-234 | of two entries the earlier has the shorter key, or one of equal length that is not greater |
| `CanonicalCbor.CanonicalIdempotent` | dpp/src/util/cbor_value.rs:214-235 | sorting twice is sorting once |
| `CanonicalCbor.LookupAfterSort` | dpp/src/util/cbor_value.rs:54-68 | first-match lookup finds the same entry before and after sorting, duplicate keys included |
| `CanonicalCbor.CanonicalDecidesContent` | dpp/src/util/cbor_value.rs:214-235 | maps with distinct keys have the same form if and only if they differ at most in the order of entries, at any depth |
| `CanonicalCbor.GetKeyFromCborMap` | dpp/src/util/cbor_value.rs:54-68 | the loop returns the value of the first entry with that text key, if any |
| `CanonicalCbor.FirstIndex` | dpp/src/util/cbor_value.rs:297-301 | the position of the first entry with an equal key, or none when there is none |
| `CanonicalCbor.CborCanonicalMap.constructor` | dpp/src/util/cbor_value.rs:272-274 | a new map is empty |
| `CanonicalCbor.CborCanonicalMap.Insert` | dpp/src/util/cbor_value.rs:291-293 | appends the entry and keeps the others |
| `CanonicalCbor.CborCanonicalMap.Remove` | dpp/src/util/cbor_value.rs:295-304 | drops the first entry with an equal key and no other |
| `CanonicalCbor.CborCanonicalMap.Set` | dpp/src/util/cbor_value.rs:351-362 | replaces the value of the first entry with an equal key and reports whether there is one |
| `CanonicalCbor.CborCanonicalMap.SortCanonical` | dpp/src/util/cbor_value.rs:398-400 | the content becomes its canonical form |
| `CanonicalCbor.CborCanonicalMap.ToValueSorted` | dpp/src/util/cbor_value.rs:418-422 | the value is the canonical form of the content |
| `PublicKeyCodec.ToCborValue` | dpp/src/identity/identity_public_key.rs:396-414 | builds the canonical map of the fields, the optional ones only when present and not empty |
| `PublicKeyCodec.EncodedFields` | dpp/src/identity/identity_public_key.rs:396-414 | what is found under each name in an encoded key, and how many entries it has |
| `PublicKeyCodec.FieldNamesSpelled` | dpp/src/identity/identity_public_key.rs:370-411 | the bytes of the eight names |
| `PublicKeyCodec.Codes` | dpp/src/identity/identity_public_key.rs:26-110 | the numbers of types, purposes and security levels |
| `PublicKeyCodec.CodesRead` | dpp/src/identity/identity_public_key.rs:45-142 | which numbers are read, each as what it stands for; 3 is no purpose |
| `PublicKeyCodec.BytesRead` | dpp/src/util/cbor_value.rs:172-193 | a byte string field is read from bytes or from an array of numbers below 256 |
| `PublicKeyCodec.DecodedExactly` | dpp/src/identity/identity_public_key.rs:363-394 | a value is decoded if and only if it is a map with the six required fields of their types and known codes; every field of the result, with integers cut to their widths |
| `PublicKeyCodec.DecodeEncoded` | dpp/src/identity/identity_public_key.rs:363-414 | decoding an encoded key fails exactly for WITHDRAW keys and otherwise gives the key with its id cut to 16 bits |
| `PublicKeyCodec.RoundTrip` | dpp/src/identity/identity_public_key.rs:363-414 | a key survives encoding and decoding if and only if its id is below 65536 and its purpose is not WITHDRAW |
| `PublicKeyCodec.EncodeInjective` | dpp/src/identity/identity_public_key.rs:396-414 | different keys are never encoded alike |

## Left out

- The Neon and JavaScript bindings, callbacks and argument conversion: plumbing.
- GroveDB, RocksDB and moka: a query is the set of items inserted into it (GroveDB's merging of overlapping
  items keeps that set), a store is a map, a cache layer is a map, and the global one may lose entries at any time.
- The SQL parser and the number parsers: expressions and the outcomes of parsing a number literal are inputs.
  Escapes in LIKE patterns are not modelled.
- Error messages: an error is its kind, and the errors of serializing a value are one kind.
- `from_components`, `from_string` and the other constructors of clauses: flat case lists.
- Date and boolean fields, integers stored in number fields, base64 texts and integer arrays in byte array
  fields, and the system fields `$id` and `$ownerId`: `FieldQueries` models integers, doubles, texts, bytes and null.
- FieldQueries.KeysOrderValues: leaves out NaN, which is equal and comparable to nothing and whose keys lie among
  those of the numbers. Null is left to `StoredQuery` and `NullOperand`.
- Document `serialize` and `from_bytes`, JSON schema validators, data triggers, signatures, hashes, BLS,
  base58 and base64.
- ABCI fee distribution, epochs and withdrawal queues.
- `combine_cost_operations` and the size estimates of operations that only calculate costs, which cost nothing here.
- The fee carried by a cached contract: a cached entry is the contract alone.
- The serialization of removed bytes: a library call.
- Variable-length integers come from a library that is not part of this model; they are taken to be seven bits
  a byte, least significant first, at most ten bytes, and rejected when they do not fit 32 bits. Likewise
  `sort_by` is taken to be a stable sort, and `total_removed_bytes` and `sum` to wrap as they do in builds
  without overflow checks. In builds with them the wrapping cases panic instead.
- Transactions have abstract identifiers, where the code uses the address of a reference. That the identifier is
  unused at the start and unchanged at the end is a hypothesis (`CachedStore.Possible`); `MovedUnnoticedExactly` is
  about an end at which it has changed, but not about changes between two reads or writes. A transaction's layer
  does not evict; `FinalizeUnnoticed` shows what depends on that.
- StorageFlags.SubtractSections: leaves open which of the two errors is reported when both kinds of failure are
  there, because that depends on the iteration order of a hash map. The merge functions have one error for both.
  Section keys are epochs, where the code narrows 64-bit keys.
- FlagUpdates.ShrinkRefines: takes the removal split from the stored flags to be the one that the update closure
  receives, because the call order of the two closures is GroveDB's and not part of this model.
  `DropRefines` is the case of a removal that arrives unsplit.
- CachedStore.PlatformLoop.Handle: the flush message, which changes neither store nor cache, and the close message,
  which ends the loop, are not modelled. What callbacks do is `Callback`.
- FlagsCodec.MultiOwnedNotRecovered: gives one direction only, since in general the outcome depends on how the
  owner's bytes parse as entries; `MultiOwnedTiled` has both directions for the owners that parse into whole
  entries before the map begins.
- FlagUpdates.GrowthRun: sums modulo 2^32, because the code does not check the addition; below 2^32 this is the sum.
- CanonicalCbor.CborCanonicalMap.SortCanonical: requires text keys in every map of two or more entries, where
  the code panics. Nested maps are values, so their update in place is modelled as replacement.
