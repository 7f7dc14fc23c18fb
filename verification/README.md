# rustyant: a verified model of its core

rustyant serves Redis commands from S3 or DynamoDB. This project models the parts where its
correctness is decided and proves what they promise: the optimistic-locking loop every mutating
command runs through, the DynamoDB table layout underneath, the DUMP/RESTORE codec, streams with
consumer groups, and the algorithms behind LCS, HyperLogLog, sorted sets and the Python client's
RESP2 splitter.

`dafny verify dfyconfig.toml` checks everything.

## How the model is built

- **Protocols are step relations.** `Cas` (any number of clients against one versioned store),
  `ListMove` and `ListMoveCas` (two-step moves, atomic and over the retry loop) and `Dynamo` (seven
  tables, multi-table transactions) take one atomic backend call per step; theorems range over every
  interleaving. `Cas` assumes a backend whose load is one step, which enforces its conditions, refuses a
  save only when its condition is false, and whose tokens identify content. S3 ETags are content hashes;
  `Dynamo.TokensIdentifyContent` gives the last point for DynamoDB given fresh versions. A DynamoDB load
  is two reads, so `DynamoCas` proves the loop again over the tables themselves. Backend failures may or
  may not have landed.
- **Code that changes things in place stays imperative.** `RdbIo` (growing buffer, advancing
  reader), `StreamOps` (a private copy of a stream), `HllSketch` (a byte array), `Lcs` (a table and
  two backtracking loops), `Crc64`, `Lzf`, `Listpack`, `ZSet` and `Resp` have methods with loops, each
  proved against functions about which the laws are then stated.
- **Streams.** `Stream.Execute` is one command's update run alone. `StreamLog`, `ConsumerGroup` and
  `AutoClaim` quantify over all command sequences, and `StreamClients` shows through `Cas` that every
  interleaving of concurrent clients is such a sequence.
- **Meaning is stated apart from computation.** `StreamEffects` says what each stream command does in
  terms of entries, rows and the clock, without the functions that compute it; `Wire` and `CrcWords`
  fix the formats byte by byte, down to payloads that Redis itself writes; `ListMove` and `ZSet` spell
  out ends, windows and orders.
- Clocks, the hash function, the HyperLogLog estimator, the text of doubles and fresh version tokens are
  parameters.
  Integers are unbounded with 64-bit limits, saturation and wrap-around written out where they matter.

Modules: `Bytes`, `Values`, `Decimal`, `Ordered` (shared); `Cas`, `Counter`, `ListMove`,
`ListMoveCas`, `Dynamo`, `DynamoCas`;
`Crc64`, `CrcWords`, `Lzf`, `Listpack`, `Rdb`, `RdbIo`, `Wire`; `StreamTypes`, `Stream`, `StreamLog`, `ConsumerGroup`,
`AutoClaim`, `StreamOps`, `StreamEffects`, `StreamClients`; `Lcs`; `Hll`, `HllSketch`, `HllStore`; `ZSet`; `Resp`.

## Where the code and its documentation part

- src/dynamodb.rs:29 says there are no leaked rows and lines 401-407 that a racing writer makes an
  unconditional delete fail; the delete carries no condition, so it succeeds and leaves an orphan.
  `Dynamo.OrphansExactlyFromStaleDeletes` gives the exact condition, `Dynamo.OrphanReachable` a run.
- A DynamoDB load reads the index and then the row. It reports a key missing that never was exactly when
  the kind changed and the old row went in between (`Dynamo.LoadMissesExactlyWhenKindMoved`;
  `Dynamo.LoadCanMissLiveKey` has a run). What it does return was live. A command that writes is not
  affected, one that answers without writing is (`DynamoCas.EveryReplyIsAtomic`).
- src/storage.rs:741-745 describes an unconditional write. On DynamoDB it can be refused with Contention,
  exactly when the key's kind changed between its index read and its transaction
  (`Dynamo.SaveRefines`).
- An IfMatch save of an entry of another kind is always refused on DynamoDB (`Dynamo.SaveRefines`),
  which affects RENAME and COPY onto a key of another kind.
- A listpack of 2^32 bytes or more is written with a truncated length and cannot be restored
  (`Rdb.RestoreAfterDump` states the exact bound).
- The comment on `append_backlen` says the last byte has its top bit clear; in the code it is the first
  one. The code is modelled, and read backwards it works (`Listpack.BacklenReadsBack`).
- `StreamId::next` wraps at the largest id, so XADD there breaks the order of the stream
  (`StreamLog.SoundExactlyBelowMax`, `StreamLog.WrapBreaksOrder`).
- `resolve_range` clamps a start past the end to the last element and a stop before the beginning to
  the first, so LRANGE, ZRANGE and ZREMRANGEBYRANK act on one element where LTRIM keeps none
  (`ZSet.RangeAgreesWithTrim`).
- src/storage.rs:2492-2494 calls CREATE without MKSTREAM the one path on a missing key that writes
  nothing. SETID, CREATECONSUMER and DELCONSUMER fail there too, and DESTROY stores an empty stream
  (`StreamEffects.GroupStartsWhereAsked`, `StreamEffects.GroupsComeAndGo`).
- XAUTOCLAIM accepts COUNT 0 and then never advances (`AutoClaim.EmptyPagesStall`).

## Model

| member | source | states |
|---|---|---|
| `Cas.Linearizable` | src/storage.rs:1659-1691 | Over a backend that loads in one step: for every interleaving of any number of calls, unconditional writers and failing backend calls, replaying the log of effects one at a time gives the store, every logged reply is the sequential one, every commit writes or removes something, and every call that got a reply is logged exactly once |
| `Cas.ReplyIsExplained` | src/storage.rs:1659-1691 | No lost update: a call that got a reply acted as one atomic application of its closure to the content current at its position in the log, at or after its start |
| `Cas.RealTimeOrder` | src/storage.rs:1659-1691 | A call that ended before another began precedes it in the log |
| `Cas.SnapshotIsCurrent` | src/storage.rs:1663-1690 | A save or delete whose token still matches applies the closure to the content current at that moment, though computed from an earlier load; a value that changed and changed back is harmless |
| `Cas.ContentionNeedsFiveForeignCommits` | src/storage.rs:1663-1690 | Contention is reported only if five commits by other callers hit the key during the call, one inside each of five disjoint load-to-save windows, each writing an entry or removing an existing one |
| `Cas.EqualEntryRefuses` | src/storage.rs:1683-1687 | Rewriting an equal entry under a new token refuses a pending save, although the content is as loaded |
| `Cas.ExplainedThroughout` | src/storage.rs:813-877 | The invariant tying store, tokens, calls and log is kept by every step of every run |
| `Counter.IncrByAdds` | src/storage.rs:1821-1839 | INCRBY on a readable counter succeeds if and only if the sum fits 64 bits; it then replies the sum and stores its decimal text with the expiry the entry had, none for a new key, and otherwise changes nothing |
| `Counter.NoIntegerIsRefused` | src/storage.rs:1821-1839 | INCRBY refuses text that is no 64-bit integer and keys of another kind, and leaves them alone |
| `Counter.NoIncrementIsLost` | src/storage.rs:1821-1839 | A counter touched only by INCRBY ends at its start plus the deltas of all calls that got a reply and of those told of a backend failure whose write had landed, and of no others |
| `ListMove.PopTakesItsEnd` | src/storage.rs:3213-3231 | A pop answers the first element when taken from the left and the last when from the right, leaves the others in order with the same expiry, and removes the key with its last element |
| `ListMove.PushAddsAtItsEnd` | src/storage.rs:3237-3248 | A push puts the element in front or behind, keeping the list's expiry; a missing key becomes a list of one without expiry |
| `ListMove.RotateTurns` | src/storage.rs:3181-3202 | Within one key all four directions: the list turned by one either way, or left as it is when both ends are the same |
| `ListMove.NothingToTake` | src/storage.rs:3184-3191 | A missing key or an empty list answers nothing, another kind is refused, and neither changes |
| `ListMove.WrongDestinationPopsNothing` | src/storage.rs:3181-3212 | A move goes on to its pop only if the destination is missing or a list, or is the source itself; otherwise it stops with nothing popped |
| `ListMove.PopMovesItsEnd` | src/storage.rs:3181-3231 | A mover's pop takes the element at its named end, which it goes on with, and touches no other key |
| `ListMove.PushMovesToItsEnd` | src/storage.rs:3232-3250 | A mover's push adds its element at the named end of the destination, or is refused there and keeps the element in hand |
| `ListMove.PopBalance` | src/storage.rs:3181-3231 | What a pop (or a rotation within one key) takes out of a list is, as a bag, what the mover then holds |
| `ListMove.PushBalance` | src/storage.rs:3232-3250 | What a push adds to the destination is what the mover gives up; a refused push leaves it in hand |
| `ListMove.MovesConserve` | src/storage.rs:3174-3251 | Over every interleaving of atomic pops and pushes, including refused and unanswered ones, the bag of listed elements plus those popped and not pushed is constant |
| `ListMove.NothingLost` | src/storage.rs:3174-3251 | When no mover is in flight or stopped between pop and push, the bag of listed elements is the initial one |
| `ListMoveCas.CallStepEffect` | src/storage.rs:1659-1691 | Each load, save or failure of a call applies its closure to the content current at that step and tells the caller so, or leaves the lists alone |
| `ListMoveCas.StepSimulates` | src/storage.rs:3174-3251 | Every step of movers running on the retry loop is one atomic move of the list model or none |
| `ListMoveCas.RetriesConserve` | src/storage.rs:3174-3251 | Over every interleaving of the loop's own loads, saves, retries and failures, listed elements plus those popped and not pushed stay the same bag, and with none in hand the lists hold what they held at the start |
| `ListMoveCas.MovesGoEndToEnd` | src/storage.rs:3174-3251 | Over every interleaving of loads, saves, retries and failures: a mover that answered an element took it in one step from the named end of its source and, unless that is the same key, added it in a later step at the named end of its destination |
| `Dynamo.TokenRoundTrip` | src/dynamodb.rs:485-494 | A version token parses back to exactly its kind and version |
| `Wire.TokenText` | src/dynamodb.rs:485-494 | A token is the kind's name, a colon and the version |
| `Dynamo.SaveRefines` | src/dynamodb.rs:271-373 | A save transaction is one abstract conditional save on the key's register, cross-kind overwrites included; an unconditional save is refused if and only if the key's kind at commit differs from the one it read, an IfMatch save of another kind always |
| `Dynamo.DeleteRefines` | src/dynamodb.rs:375-450 | A delete transaction is one abstract conditional delete on the key's register |
| `Dynamo.StepRefines` | src/dynamodb.rs:262-450 | In every run every step of every operation changes the registers only as the abstract conditional operations do, and its reply is theirs, except that an unconditional save is refused exactly when the kind it read has changed |
| `Dynamo.IndexHasRow` | src/dynamodb.rs:333-360 | In every run an index row of kind k has its data row, holding a value of kind k, in table k |
| `Dynamo.LoadReturnsLiveValue` | src/dynamodb.rs:262-269 | A load that returns an entry returns one the register held at some moment of the load, even when its two reads race writers |
| `Dynamo.LoadMissesExactlyWhenKindMoved` | src/dynamodb.rs:262-269 | In every run a load misses a key that was live all along if and only if between its two reads the index moved to another kind and the old kind's row went; where no orphans exist, if and only if the index moved |
| `Dynamo.TokensIdentifyContent` | src/dynamodb.rs:275-285 | Equal version tokens always stood for equal entries, which is what optimistic locking relies on |
| `Dynamo.OrphansExactlyFromStaleDeletes` | src/dynamodb.rs:377-398 | Starting without orphans, a step leaves one if and only if it is an unconditional delete committing after the index moved to another kind |
| `Dynamo.NoOrphansThroughout` | src/dynamodb.rs:286-295 | In every run without such stale deletes each key has at most one data row, in the table its index row names |
| `Dynamo.OrphanReachable` | src/dynamodb.rs:377-398 | A concrete reachable run ends with a data row that no index row names |
| `Dynamo.LoadCanMissLiveKey` | src/dynamodb.rs:262-269 | A concrete reachable run has a load answering "missing" although the key held a value throughout |
| `DynamoCas.EveryReplyIsAtomic` | src/storage.rs:1659-1691 | For the retry loop over the tables themselves, with loads of two reads: every reply that does not rest on a missed load is one atomic application of the closure to the register current at a moment of the call, where an entry found expired reads as none |
| `DynamoCas.WritesDoNotCollide` | src/storage.rs:1679-1687 | Two calls that replied after a write took effect at different moments |
| `DynamoCas.CommitIsEffect` | src/dynamodb.rs:302-372 | A transaction that goes through applies the closure to the register of that moment and touches no other key, whatever the load had found |
| `DynamoCas.NothingMissedUnlessKindMoves` | src/dynamodb.rs:262-269 | In every run in which no load reads its row after the key's kind has moved on, no reply rests on a missed load |
| `DynamoCas.ContentionIsFiveRefusals` | src/storage.rs:1663-1690 | Over the tables, in every run, a call gives up with contention if and only if five of its transactions were refused, and none is refused more often |
| `Crc64.BuildTable` | src/rdb.rs:741-755 | The table holds, for each byte, eight reductions of it by the reflected generator |
| `Crc64.Compute` | src/rdb.rs:764-772 | The table-driven byte loop equals bit-at-a-time reduction on every input and seed |
| `Crc64.BytesAreBits` | src/rdb.rs:764-772 | Reduction byte by byte equals feeding the message's bits one at a time into the shift register |
| `Crc64.CrcIsRemainder` | src/rdb.rs:739-772 | For any generator the checksum is the remainder of the message polynomial times x^64 divided by it, modulo 2 |
| `CrcWords.PolyIsJones` | src/rdb.rs:733-741 | The generator in use is the Jones polynomial: its bits reversed are those of 0xad93d23594c935a9 |
| `CrcWords.ChecksumIsJonesRemainder` | src/rdb.rs:733-772 | The DUMP checksum is the remainder of the message polynomial times x^64 by x^64 plus the terms of 0xad93d23594c935a9 |
| `CrcWords.ChecksumOfDigits` | src/rdb.rs:737-741 | The checksum of the text 123456789 is 0xe9c6d914c4b8d9ca |
| `CrcWords.StepsAreBitSteps` | src/rdb.rs:747-755 | Shifting and xoring 64-bit machine words, as the code does, is the register step on numbers |
| `Crc64.BurstDetected` | src/rdb.rs:739-772 | Two messages that differ only inside a window of at most eight bytes have different checksums |
| `Decimal.ParseToDec` | src/rdb.rs:441-449 | Parsing the decimal text of a 64-bit integer gives the integer back |
| `Decimal.DecimalText` | src/rdb.rs:441-449 | Decimal text is a minus sign if negative and digits by place value without leading zeros |
| `Decimal.ParseReads` | src/rdb.rs:441-449 | Text parses exactly when it is one or more digits, perhaps behind a sign, of a value that fits 64 bits, and to that value by place |
| `Decimal.TryParseExact` | src/rdb.rs:441-449 | A string is integer-compressed as n if and only if it is exactly n's decimal text and n fits 64 bits |
| `Lzf.Extend` | src/rdb.rs:811-822 | A back reference appends bytes that each equal the one offset + 1 positions before, overlap included |
| `Lzf.ExtendUnique` | src/rdb.rs:811-822 | That equation determines the output, so no other copy satisfies it |
| `Lzf.Decompress` | src/rdb.rs:784-828 | The decoder loop terminates on every input without out-of-range access and returns what the token specification says |
| `Lzf.DecodesExactly` | src/rdb.rs:784-828 | Input is accepted with output of the declared length if and only if it encodes a token list that expands to that output |
| `Listpack.Backlen` | src/rdb.rs:566-595 | A back length has the number of bytes the size function announces |
| `Listpack.BacklenReadsBack` | src/rdb.rs:566-595 | Read backwards, the written bytes give the entry length |
| `Listpack.EntryReadsBack` | src/rdb.rs:488-564 | Each of the integer and string encodings reads back to the item and reports its full size |
| `Listpack.EntryTraversesBackwards` | src/rdb.rs:488-595 | From the end of an entry, reading its back length leads to its start |
| `Listpack.RoundTrip` | src/rdb.rs:470-622 | Decoding an encoded listpack gives the items back if and only if it is shorter than 2^32 bytes; a longer one is refused |
| `Listpack.DecodeLoop` | src/rdb.rs:598-622 | The decoding loop terminates on every byte string, and an accepted listpack is tiled exactly by its entries with the cursor never past the terminator |
| `Rdb.LengthReadsBack` | src/rdb.rs:301-348 | Every length below 2^64 reads back from its 6-bit, 14-bit, 32-bit or 64-bit form, leaving the rest of the input |
| `Rdb.StringReadsBack` | src/rdb.rs:396-437 | Every string reads back, whether written plainly or compressed as an 8-, 16- or 32-bit integer |
| `Rdb.ScoreReadsBack` | src/rdb.rs:836-862 | Every score, whole, fractional or infinite, reads back from its text, given that the platform's doubles read back from the text they show |
| `Rdb.CollectionRebuilt` | src/rdb.rs:154-259 | Hash, set and sorted-set items, flattened in order, rebuild the same collection |
| `Rdb.RestoreAfterDump` | src/rdb.rs:64-292 | RESTORE of DUMP gives the value back if and only if it is a string or its listpack is shorter than 2^32 bytes; sorted-set scores may be any double but NaN |
| `Rdb.DamageIsRejected` | src/rdb.rs:133-151 | A payload whose trailer is valid is refused after any change confined to eight consecutive bytes of body and version |
| `Rdb.IntsetReadsBack` | src/rdb.rs:210-243 | An intset of signed 2-, 4- or 8-byte integers is read as the set of their decimal texts |
| `Rdb.ClassicSetReadsBack` | src/rdb.rs:199-209 | A set in the classic form, a count and one string per member, is restored as that set |
| `RdbIo.Buffer.WriteLength` | src/rdb.rs:301-318 | Appends exactly the length encoding |
| `RdbIo.Buffer.WriteString` | src/rdb.rs:396-423 | Appends exactly the string encoding, integer forms included |
| `RdbIo.Buffer.ListpackAppend` | src/rdb.rs:488-564 | Appends exactly the entry encoding |
| `RdbIo.Buffer.ListpackFinish` | src/rdb.rs:478-483 | Adds the terminator and patches the total length in place |
| `RdbIo.PackItems` | src/rdb.rs:470-564 | Begin, append each item and finish give the listpack encoding of the items |
| `RdbIo.DumpValue` | src/rdb.rs:64-127 | The writer's output is the specified dump, whose bytes the Wire rows state, or a refusal for streams |
| `RdbIo.Reader.ReadSlice` | src/rdb.rs:881-888 | Advances by exactly the bytes returned, or reports truncation without moving |
| `RdbIo.Reader.ReadLength` | src/rdb.rs:320-348 | The position-advancing reader computes the specified length decoding |
| `RdbIo.Reader.ReadString` | src/rdb.rs:425-437 | The position-advancing reader computes the specified string decoding, LZF included |
| `RdbIo.RestoreList` | src/rdb.rs:170-188 | The loop over quicklist nodes, packed and plain, collects the specified items |
| `RdbIo.RestoreForeign` | src/rdb.rs:199-282 | The readers of classic sets, intsets and binary-score sorted sets compute the specified values |
| `RdbIo.RestoreValue` | src/rdb.rs:132-292 | The reader computes the specified restore for every type byte, with trailer, version and type checks as the Wire rows state them |
| `Wire.DumpOfHello` | src/rdb.rs:1123-1131 | DUMP of the string "hello world" is byte for byte the payload captured from Redis 7.2, checksum included |
| `Wire.RestoreOfHello` | src/rdb.rs:1113-1121 | RESTORE of that captured payload gives the string |
| `Wire.DumpOfList` | src/rdb.rs:1146-1156 | The body of the DUMP of a, bb, ccc is the one captured from Redis |
| `Wire.DumpOfHash` | src/rdb.rs:1132-1145 | The body of the DUMP of a hash with 1 under a and hello under b is the one captured from Redis |
| `Wire.RestoreOfSet` | src/rdb.rs:1158-1171 | The captured body of a set, members in Redis's own order, restores to that set |
| `Wire.RdbLengthBytes` | src/rdb.rs:301-318 | Lengths as bytes: which of the four forms is used, its tag, and the value most significant byte first |
| `Wire.RdbIntegerBytes` | src/rdb.rs:396-417 | Decimal text of a 32-bit integer is stored behind 0xc0, 0xc1 or 0xc2 in the smallest width, least significant byte first |
| `Wire.RdbTextBytes` | src/rdb.rs:418-423 | Any other string is its length and itself |
| `Wire.ListpackIntegerBytes` | src/rdb.rs:488-539 | Integers in listpacks: 7-bit, 13-bit, 16-, 24-, 32- and 64-bit forms with their tags, the smallest that fits |
| `Wire.ListpackTextBytes` | src/rdb.rs:541-563 | Text in listpacks: 6-bit, 12-bit and 32-bit lengths with their tags |
| `Wire.BackLengthBytes` | src/rdb.rs:566-595 | Back lengths are 7-bit groups, highest first, all but the first byte marked, with the code's size limits |
| `Wire.ListpackBytes` | src/rdb.rs:470-483 | A listpack is its size in four bytes, its count in two held at 65535, the entries and 0xff |
| `Wire.TokenBytes` | src/rdb.rs:784-822 | The control bits of LZF literal runs and of short and long back references |
| `Wire.RunOfOneByte` | src/rdb.rs:784-828 | A literal byte and a short back reference expand to four copies of it |
| `Wire.ReadableTags` | src/rdb.rs:152-292 | Which type byte restores to which kind of value, that 21 is not supported and that all others are bad |
| `Wire.BodyTags` | src/rdb.rs:64-127 | The type byte DUMP writes for each kind |
| `Wire.TrailerBytes` | src/rdb.rs:115-127 | Behind the body stand version 11 in two bytes and the checksum of all that in eight |
| `Wire.TrailerIsChecked` | src/rdb.rs:132-151 | A payload is read exactly when its version is at most 12 and its checksum is right |
| `Wire.ScalarIsChar` | src/rdb.rs:165-205 | The shortest UTF-8 form of every Unicode scalar value is accepted in names |
| `Wire.CharIsScalar` | src/rdb.rs:165-205 | Nothing else is: overlong forms, surrogates and stray bytes are refused |
| `Wire.ScoreText` | src/rdb.rs:836-848 | Infinite scores print as inf and -inf whole ones below 2^53 as integers, and all others as the platform shows them |
| `Stream.NextIsSuccessor` | src/stream.rs:54-60 | The next id is the immediate successor if and only if the id is not the largest |
| `Stream.NewIdIsAbove` | src/stream.rs:377-405 | A resolved XADD id is above the last one if and only if the last one is not the largest; exactly which requests are refused |
| `StreamEffects.BeforeIsNumeric` | src/stream.rs:69-84 | Ids are ordered as 128-bit numbers, milliseconds on top |
| `StreamEffects.AddTakesLeastId` | src/stream.rs:377-405 | XADD takes the least id above the last one that meets the request (the clock, a millisecond, or the id given), refuses exactly when the request is not late enough, and at the largest id wraps to 0-0 |
| `StreamEffects.AddAppends` | src/storage.rs:2347-2367 | XADD leaves the entries it found and, at the end, one with the new id and exactly the given fields, less what MAXLEN or MINID with LIMIT cut off the front; last id and counter follow, groups stay |
| `StreamEffects.AddOrNothing` | src/storage.rs:2347-2358 | An XADD that adds nothing changes nothing; NOMKSTREAM on a missing key creates nothing |
| `StreamEffects.RemovalsAreExact` | src/storage.rs:2403-2447 | XDEL removes exactly the listed entries, counted once each, and XTRIM exactly what its bound and LIMIT say, counted |
| `StreamEffects.EntriesWereAdded` | src/storage.rs:2338-2369 | In every run from a missing key each entry has the id and fields of an XADD of that run that replied that id |
| `StreamEffects.AddedOnce` | src/storage.rs:2338-2369 | No two XADDs of a run reply the same id unless one meets the largest id, so an id stands for one set of fields |
| `StreamEffects.HandedOutWasAdded` | src/storage.rs:2500-2795 | In every run whatever XREADGROUP, XCLAIM or XAUTOCLAIM hands out has the id and fields of an earlier XADD that replied that id |
| `Stream.Below` | src/stream.rs:470-474 | The partition point: everything in front is below the bound and the next entry is not |
| `Stream.SortedAlready` | src/storage.rs:2575-2575 | Sorting an ascending batch by id changes nothing |
| `StreamLog.StreamStaysSound` | src/storage.rs:2338-2447 | In every run in which no XADD meets the largest id: entries and added ids ascend, none is above the last id, present ids are added minus removed, the remembered deleted id is the largest removed, and entries_added minus length is the number removed until the counter saturates |
| `StreamLog.SoundExactlyBelowMax` | src/storage.rs:2358-2364 | An XADD that adds an entry keeps that invariant if and only if the last id was not the largest |
| `StreamLog.WrapBreaksOrder` | src/stream.rs:54-60 | Adding the largest id and then asking for the next files 0-0 behind it |
| `StreamLog.TrimByIdIsExact` | src/stream.rs:470-489 | MINID removes exactly the entries below the bound, oldest first, up to LIMIT |
| `StreamLog.TrimByLengthIsExact` | src/stream.rs:470-489 | MAXLEN removes exactly the excess, oldest first, as much of it as LIMIT allows |
| `StreamLog.DropShrinks` | src/storage.rs:2403-2431 | XDEL keeps exactly the entries whose ids are not listed, in order, and remembers the largest id removed |
| `ConsumerGroup.DeliveredInOrder` | src/storage.rs:2500-2585 | In every run without SETID or DESTROY of the group, ids handed out across consumers strictly ascend from the start id and no entry up to the cursor was passed over, whatever COUNTs were used |
| `ConsumerGroup.PendingIsConserved` | src/storage.rs:2532-2670 | In every run also without NOACK and forced claims, delivered ids are the disjoint union of pending, acknowledged, dropped and purged ids, and XACK and DELCONSUMER replies add up to those sets |
| `ConsumerGroup.ReadIsNextBatch` | src/storage.rs:2524-2549 | A read hands out the oldest entries above the cursor, all of them up to the new cursor |
| `StreamEffects.ReadHandsOutNext` | src/storage.rs:2524-2530 | A read of new entries returns the oldest above the cursor, exactly COUNT or all there are, in order |
| `StreamEffects.ReadRecordsBatch` | src/storage.rs:2531-2548 | It moves the cursor to the last one returned, makes each a row of the consumer delivered now and once unless NOACK, notes the consumer as seen now, and changes nothing else |
| `StreamEffects.RereadHandsOutOwnRows` | src/storage.rs:2550-2574 | Re-reading delivers the consumer's own oldest rows above the id once more, exactly COUNT or all, and returns those whose entry exists; everything else stays |
| `StreamEffects.AckTakesListedRows` | src/storage.rs:2587-2612 | XACK takes out exactly the rows of the listed ids and counts each once |
| `StreamEffects.GroupStartsWhereAsked` | src/storage.rs:245-268 | XGROUP CREATE and SETID put the cursor at the id given, or with $ at the last generated id; exactly when they are refused, and that nothing else changes |
| `StreamEffects.GroupsComeAndGo` | src/storage.rs:269-277 | DESTROY and CREATECONSUMER remove or add exactly what is named and count it |
| `StreamEffects.DelConsumerTakesOwnRows` | src/storage.rs:278-287 | DELCONSUMER takes out the consumer and exactly its rows and answers their number |
| `StreamEffects.NoGroupNoEffect` | src/storage.rs:2587-2634 | Without the group reads, claims and DELCONSUMER fail, XACK answers zero, and nothing changes |
| `ConsumerGroup.AckSettles` | src/storage.rs:2587-2612 | XACK removes exactly the listed pending ids and its reply is their number, repeated ids counted once |
| `ConsumerGroup.GroupOpSettles` | src/storage.rs:243-287 | Group operations other than SETID and DESTROY keep the cursor; DELCONSUMER drops exactly the consumer's pending ids and reports their number |
| `ConsumerGroup.ClaimKeeps` | src/storage.rs:2614-2670 | XCLAIM keeps the cursor and, unless forced, the set of pending ids |
| `ConsumerGroup.ClaimTakesIdleIds` | src/storage.rs:2634-2664 | XCLAIM takes exactly the listed ids that are pending for at least the given time by the clock, or when forced not pending; those rows get the caller, the requested time and count, and all others are untouched |
| `StreamEffects.ClaimTakesIdleRows` | src/storage.rs:2634-2664 | The reply lists, in the order asked for, exactly the ids with now minus delivery time at least the minimum (any, for a minimum of zero or less), or unknown and forced, with the fields of the entry of that id |
| `StreamEffects.ClaimRewritesTakenRows` | src/storage.rs:2633-2657 | Taken rows belong to the caller, delivered at TIME, else IDLE before now, else now, with RETRYCOUNT or one more delivery; the rest of the stream stays |
| `ConsumerGroup.RereadIsExact` | src/storage.rs:2550-2574 | Re-reading hands a consumer its own oldest pending entries above the id, at most COUNT rows, that still exist, in order, and bumps exactly those rows |
| `ConsumerGroup.AutoClaimKeeps` | src/storage.rs:2742-2795 | XAUTOCLAIM keeps the cursor and removes exactly the ids it reports deleted |
| `AutoClaim.SweepIsComplete` | src/storage.rs:2762-2792 | A sweep from 0-0 following the cursor with COUNT at least 1 terminates, claims every pending id idle by the clock for the given time whose entry exists and drops every such id without one, each once and in order, and changes nothing else |
| `AutoClaim.PageCursor` | src/storage.rs:2764-2775 | The cursor is zero exactly when every candidate was handled, else the first one left |
| `AutoClaim.PageLeavesRest` | src/storage.rs:2762-2775 | The next page's candidates are precisely those this page left |
| `AutoClaim.PageIsCapped` | src/storage.rs:2770-2775 | A page claims at most COUNT ids, exactly COUNT if candidates remain, and then stops right behind the last it claims |
| `StreamEffects.PageHandlesOldest` | src/storage.rs:2762-2790 | XAUTOCLAIM handles the oldest pending ids from START on whose delivery lies at least the minimum back, claims those with an entry, with its fields, and reports the others deleted, both ascending |
| `StreamEffects.PageStopsAtCount` | src/storage.rs:2770-2775 | It claims at most COUNT; with ids left over exactly COUNT, and the cursor is the first of them, else 0-0 |
| `StreamEffects.PageRewritesHandledRows` | src/storage.rs:2776-2794 | Reported rows go, claimed ones belong to the caller now with one more delivery, and all others stay |
| `AutoClaim.EmptyPagesStall` | src/storage.rs:2770-2775 | With COUNT 0 nothing is claimed or dropped and the next page has the same candidates; the cursor reads as the end if and only if there was no candidate or the first is 0-0 |
| `StreamClients.UpdateIsExecute` | src/storage.rs:2338-2795 | A stream command's closure run by the locking loop does to the key exactly what the command does to the stream, replies alike and keeps the key's expiry |
| `StreamClients.OtherKindIsRefused` | src/storage.rs:2347-2350 | A key of another kind is refused and left alone |
| `StreamClients.QuietCommands` | src/storage.rs:2403-2612 | A stream closure asks for no write exactly when NOMKSTREAM met a missing key or XDEL, XTRIM or XACK counted nothing |
| `StreamClients.ConcurrentStreamIsSound` | src/storage.rs:1659-1691 | In every interleaving of clients sending stream commands to one key, the key holds what some sequence of those commands leaves, and the stream invariant holds unless one of them adds at the largest id |
| `StreamClients.ReplyIsSequential` | src/storage.rs:1659-1691 | In every run each client's reply is the one its command gives at its place in that sequence, after the call began |
| `StreamClients.ReadersGetWhatWritersAdded` | src/storage.rs:2338-2795 | In every interleaving whatever a client is handed by a read or a claim was put there by an XADD that took effect earlier, was answered that id and brought those fields |
| `StreamClients.ConcurrentGroupIsOrdered` | src/storage.rs:2500-2585 | Consumers and writers racing each other still receive ascending ids with none skipped, and every delivered id is in exactly one place at the end |
| `StreamOps.PartitionPoint` | src/stream.rs:472-474 | Bisection finds a place where the entries step over the bound, on any entries; on divided ones it is the number of entries below the bound |
| `StreamOps.StreamCell.TrimInPlace` | src/stream.rs:470-489 | Draining the front removes the excess, or up to such a place, as LIMIT allows, on any stream; on divided entries it is the specified trim |
| `StreamOps.StreamCell.Retain` | src/storage.rs:2411-2425 | The retain loop leaves the specified stream, and removing nothing changes nothing |
| `StreamOps.StreamCell.DeliverNew` | src/storage.rs:2524-2549 | The filter and bookkeeping loops compute the specified delivery |
| `StreamOps.StreamCell.DeliverAgain` | src/storage.rs:2551-2574 | Re-reading visits the consumer's own rows in id order, bumps each once and returns those still in the stream |
| `StreamOps.StreamCell.Acknowledge` | src/storage.rs:2599-2604 | The removal loop removes the listed ids and counts each once |
| `StreamOps.StreamCell.TakeOver` | src/storage.rs:2634-2664 | The claim loop computes the specified group and claims |
| `StreamOps.StreamCell.SweepPage` | src/storage.rs:2762-2790 | The sweep loop computes the specified page |
| `StreamOps.AddCommand` | src/storage.rs:2338-2369 | The XADD closure computes the reply and state of the command, for which see the StreamEffects rows; on entries a wrapped id left disordered its MINID trim may stop at another place where they step over the bound |
| `StreamOps.AddIsExecute` | src/storage.rs:2338-2369 | On ascending entries XADD with a trim is exactly the specified command |
| `StreamOps.DelCommand` | src/storage.rs:2403-2430 | The XDEL closure computes the specified state and reply, and writes nothing when nothing was removed |
| `StreamOps.TrimCommand` | src/storage.rs:2432-2447 | The XTRIM closure removes and counts a specified number of oldest entries on any stream, exactly the specified trim on divided entries |
| `StreamOps.ReadCommand` | src/storage.rs:2500-2585 | The XREADGROUP closure computes the specified state and reply |
| `StreamOps.AckCommand` | src/storage.rs:2587-2612 | The XACK closure computes the specified state and reply, and writes nothing when nothing was acknowledged |
| `StreamOps.ClaimCommand` | src/storage.rs:2614-2795 | The XCLAIM and XAUTOCLAIM closures compute the specified state and reply |
| `Lcs.Table` | src/commands.rs:1209-1221 | The nested loops fill every cell with the recurrence's value |
| `Lcs.BestIsBound` | src/commands.rs:1206-1221 | No common subsequence of two prefixes is longer than their cell |
| `Lcs.Sequence` | src/commands.rs:1224-1241 | Backtracking returns a common subsequence no other exceeds in length, as long as the corner cell |
| `Lcs.Matches` | src/commands.rs:1246-1270 | The runs match, are disjoint and descending, cannot be extended leftwards, and with minimum length at most one their lengths sum to the corner cell; a larger minimum drops exactly the shorter ones |
| `Hll.ReadAfterWrite` | src/hll.rs:73-97 | After a write the register has the new value and every other register its old one, although registers straddle bytes |
| `Wire.RegisterBits` | src/hll.rs:73-83 | Bit j of register k is bit 6k + j of the body, counted from the lowest bit of each byte |
| `Wire.SketchHeader` | src/hll.rs:30-48 | A blob is taken for a sketch exactly when it has 12304 bytes, starts with HYLL and is densely encoded |
| `Wire.HeaderBytes` | src/hll.rs:42-48 | The empty sketch: HYLL and twelve zero bytes in front of 12288 |
| `Hll.PatchInGroup` | src/hll.rs:85-97 | Within the three bytes of four registers a write changes one register only |
| `HllSketch.WriteRegister` | src/hll.rs:85-97 | The in-place write updates one entry of the register sequence and leaves the header alone |
| `HllSketch.Add` | src/hll.rs:109-123 | Adding raises one register, marks the cached count stale exactly when something changed, and reports that; anything but a sketch is refused untouched |
| `HllSketch.MergeInto` | src/hll.rs:135-153 | Merging leaves the register-wise maximum and marks the cache stale exactly when something changed |
| `HllSketch.AddAllIsSketch` | src/hll.rs:109-123 | Adding elements to the sketch of a set gives the sketch of the set with those elements, defined without any order |
| `HllSketch.SketchUnique` | src/hll.rs:109-123 | A set has only one sketch |
| `HllSketch.AddingIsOrderIndependent` | src/hll.rs:109-123 | Additions with the same set of elements give the same registers from any start |
| `HllSketch.JoinIsSketchOfUnion` | src/hll.rs:135-153 | Merging sketches of two sets gives the sketch of their union |
| `HllSketch.EmptyDenseIsEmpty` | src/hll.rs:42-48 | The empty blob is a valid sketch with all registers zero |
| `HllStore.PfAdd` | src/storage.rs:2879-2913 | PFADD raises all elements' registers, reports a change exactly when the key is new or a register grew, and otherwise writes nothing; errors leave the value alone |
| `HllStore.Union` | src/storage.rs:2931-2946 | The in-memory union holds the register-wise maximum over what the loads returned, or the first error |
| `HllStore.PfCount` | src/storage.rs:2915-2947 | PFCOUNT is the estimate of the union of what its loads returned one after the other, zero for a single missing key |
| `HllStore.PfMerge` | src/storage.rs:2949-2986 | PFMERGE stores the union of what its loads returned and what the destination holds when its own update runs, or fails and changes nothing |
| `HllStore.CountIsCountOfMerge` | src/storage.rs:2915-2986 | Counting keys equals counting the fresh key that PFMERGE of the same loads creates; for a single missing key if and only if the estimator gives zero on empty registers |
| `HllStore.UnionSketchesUnion` | src/storage.rs:2931-2946 | If the loaded values sketch sets, their union sketches the union of the sets |
| `ZSet.RangeAgreesWithTrim` | src/storage.rs:198-210 | LRANGE shows what LTRIM would keep if and only if neither a start past the end meets a stop at the last element nor a stop before the beginning meets a start at the first |
| `ZSet.OrderFacts` | src/storage.rs:370-374 | The sorted list ascends by score and member and holds exactly the set's items |
| `ZSet.RankIsCount` | src/storage.rs:214-222 | ZRANK is the number of items below the member's, ZREVRANK the number above, absent for a missing member |
| `ZSet.RankIffRange` | src/commands.rs:840-872 | A one-element rank range is an item if and only if the item's rank (from the top, its reverse rank) is the clamped index |
| `ZSet.RangeIsWindow` | src/commands.rs:840-872 | ZRANGE and ZREVRANGE by any indices: how many items the clamped window holds, and that its k-th is the item with start + k items below it, or above it when reversed |
| `ZSet.RangeInOrder` | src/commands.rs:848-851 | Ranges ascend, reversed ones descend: by the scores' numbers and among equal scores by member |
| `ZSet.LighterIsNumeric` | src/storage.rs:370-374 | Scores are ordered as numbers between the infinities |
| `ZSet.TiesGoByBytes` | src/storage.rs:370-374 | Members with one score are ordered by their first differing byte, a prefix first |
| `ZSet.PartitionByRank` | src/storage.rs:483-501 | ZREMRANGEBYRANK removes exactly what the rank range with the same indices returns, and counts it |
| `ZSet.PopEdge` | src/storage.rs:523-546 | A pop returns the front of the order from its end and keeps exactly the other members |
| `ZSet.PopTakesExtremes` | src/storage.rs:523-546 | The k-th item popped has exactly k items beyond it, as many are popped as asked for or there are, and the others keep their scores |
| `ZSet.PopsFollowOrder` | src/storage.rs:523-546 | Any run of pops from one end yields the order from that end up to the total asked for, and conserves members |
| `Resp.ParseIntToDec` | clients/python/rustyant/connection.py:302-310 | The decimal text of an integer, signed or not, parses back and holds no carriage return |
| `Resp.FrameLen` | clients/python/rustyant/connection.py:292-322 | The recursive scanner with its loop returns the frame's length, zero if incomplete, and fails exactly on a malformed number |
| `Resp.Split` | clients/python/rustyant/connection.py:270-289 | The splitting loop computes the specified cut or the specified error |
| `Resp.FrameLocal` | clients/python/rustyant/connection.py:292-322 | A complete frame is recognised wherever its bytes stand and whatever follows |
| `Resp.SplitIsTheDecomposition` | clients/python/rustyant/connection.py:270-289 | A split succeeds with given frames if and only if each is exactly one frame and they concatenate to the input |
| `Resp.EncodeIsFrame` | clients/python/rustyant/connection.py:292-322 | Every encoded value with single-lined simple strings, however nested, is exactly one frame |
| `Resp.LineIsFrame` | clients/python/rustyant/connection.py:296-298 | A simple string, error or integer line is one frame if and only if its text holds no line end |
| `Resp.SplitOfEncodings` | clients/python/rustyant/connection.py:270-289 | Splitting concatenated encodings returns exactly those encodings in order |
| `Resp.UnfinishedFrame` | clients/python/rustyant/connection.py:292-322 | Every proper prefix of a frame scans as incomplete, never as a frame or an error |
| `Resp.OtherPrefix` | clients/python/rustyant/connection.py:316-322 | Any other first byte scans as incomplete |
| `Resp.NegativeLength` | clients/python/rustyant/connection.py:302-316 | A bulk or array with any negative length is a frame of its own |
| `Resp.NoInts` | clients/python/rustyant/connection.py:302-310 | No integer without digits right behind the sign |
| `Resp.SpaceAroundInts` | clients/python/rustyant/connection.py:302-310 | Exactly the six ASCII white-space characters may surround a length |
| `Resp.PythonInts` | clients/python/rustyant/connection.py:302-310 | Lengths may carry spaces, a sign and single underscores as Python's int allows |
| `Wire.RespBytes` | clients/python/rustyant/connection.py:292-322 | The bytes of each kind of reply |

## Left out

- AWS calls, HTTP, WebSocket and Lambda plumbing, settings, metrics, the RESP parser of src/resp.rs
  and command option parsing: input and output, or easy branches.
- Wall clock and expiry: time is a parameter, and `Cas` has no expiry. S3 loads delete expired entries
  unconditionally, which is outside its guarantees; DynamoDB's conditional removal of an expired row is
  a step of `Dynamo`. Native TTL reaping is not modelled.
- DEL of a stream key during a run: it ends one history and starts another, so `StreamLog` and
  `ConsumerGroup` follow one key from creation.
- Other list commands racing LMOVE: `ListMove` and `ListMoveCas` let other commands touch only keys that
  hold no list, because a pushed or popped element would change the bag that the theorem keeps constant.
- Dynamo.TokensIdentifyContent: versions are taken to be fresh; the time-seeded generator behind them is
  not modelled. Nor is the item size limit of a save.
- Cas.Linearizable: a load is one atomic step, and a save under a matching token succeeds. On DynamoDB
  the first needs that no load reads its row after the kind moved, which `DynamoCas` states and works
  out; the second needs the closure to keep the entry's kind, as the modelled ones do.
- Cas.ContentionNeedsFiveForeignCommits: a save is refused only when its condition is false.
  src/dynamodb.rs:361-372 maps every cancelled transaction to Contention, so one that DynamoDB cancels for
  another reason, such as a conflict with a transaction in flight, is not covered.
- Dynamo.SaveRefines: transactions are cancelled only when one of their conditions is false.
- Rdb.RestoreAfterDump: scores are doubles without NaN and without the sign of zero, and the platform's
  printing and parsing of doubles is taken at its word (`Rdb.Lawful`); names are valid UTF-8; strings are
  shorter than 2^64 bytes.
- RdbIo.RestoreValue: a NaN score, in text or binary, is refused by the model and accepted by the code.
- RdbIo.Reader.ReadSlice: does not model the unchecked addition for lengths near 2^64.
- ZSet.PopsFollowOrder: scores are reals or infinities, so NaN and the sign of zero do not occur.
- StreamOps.AddCommand: on entries not divided by a MINID bound the library's search is unspecified; the
  model promises a place where the entries step over the bound and not which.
- XGROUP subcommands run as one function, `Stream.ApplyGroupOp`, without an in-place counterpart: they
  have no loop of their own. XRANGE, XREAD, XPENDING and XINFO are left out because they neither change
  a stream nor take part in any invariant.
- MurmurHash, register bit patterns of the hash, and the estimator's floating point: any hash with
  buckets below 16384 and ranks up to 51, any estimator.
- Resp.FrameLen: Python's limits on recursion depth and on the digits of an integer are not modelled.
- RENAME, COPY, MSETNX, SMOVE, SCAN paging and FLUSH: best effort by their own documentation.
- INCRBYFLOAT, geo commands, random sampling, glob matching and JSON serialisation.
