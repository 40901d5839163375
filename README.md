# kvstruct collections on an ordered bucket store, in Dafny

kvstruct builds data structures on one boltdb transaction: a hash per named bucket (`HashMap`,
answering through `Reply` records, and `HSet`, answering with plain values), a sorted set
(`ZSet`) kept in two buckets that must stay in step, and the base-254 byte codec `B254`. This
project models those operations and proves what they do to the store.

- **Store** (`store.dfy`): the transaction is a class `Tx` whose field `buckets` maps a bucket name
  to its entries and its sequence counter. `CreateBucket`, `DeleteBucket`, `Put`, `Delete`,
  `SetSequence` and `NextSequence` change that field. Pure functions of the bucket map
  (`PutEntry`, `DeleteEntry`, `Lookup`, `WithSequence`, ...) state what each call leaves behind.
- **Cursors** (`cursor.dfy`): a bucket cursor walks the keys sorted by `bytes.Compare`
  (`Bytes.Compare`, lexicographic). `ScanUp`/`ScanDown` are the loops `for k := Seek(..); k != nil;
  k = Next()/Prev()` with their `count == limit` break. `ScanUpIsForwardScan` and
  `ScanDownIsBackwardScan` prove what such a walk yields, without reference to the loop:
  - the keys it returns are ordered;
  - each returned key passes the filter;
  - there are at most `limit` of them;
  - a key it leaves out lies beyond a full result.
- **Hashes** (`hashbucket.dfy`, `hashmap.dfy`, `hset.dfy`): `HashMap` and `HSet` are classes over a
  `Tx`. Each mutating method ensures that the new bucket map is a state function of the old one
  (`SetState`, `IncrState`, `DelState`, `DelManyState`, `MsetState`). Lemmas beside those functions
  state what a later read sees. The scans are loops proved equal to `EntryScan`/`EntryScanDown`.
- **Sorted set** (`zsetindex.dfy`, `zset.dfy`): the score bucket `sname` maps a member to its 8-byte
  score. The index bucket `kname` holds `score‖member → []`. `Paired` states the invariant
  between them: one index entry per member and no stale ones. The lemmas prove which operations
  keep it.
- **B254** (`b254.dfy`): `Encode`/`Decode` are the source's loops. Each is proved equal to a pure
  function (`Encoding`/`Decoding`), and `RoundTrip` proves that `Decode` undoes `Encode` on every
  byte string.

`bytes.dfy`, `utils.dfy` and `results.dfy` hold the shared pieces:
- byte-string order;
- the 8-byte big-endian `I2b`/`B2i`;
- the checked increment `Incremented`;
- the bucket-name prefixes;
- the error values.

A Go panic becomes a precondition. The panics are:
- a negative `limit` passed to `make` as a capacity;
- a nil bucket dereferenced;
- a stored value shorter than the 8 bytes `B2i` reads.

Where the specification of the system and the code disagree, the model follows the code:
- `ZdelBucket` stops with an error after deleting `kname` when `sname` is missing. The
  specification describes both buckets being removed.
- Overflow and underflow of an increment are one error, "overflow number", as in the code.

## Model

| member | source | states |
|---|---|---|
| Store.Tx.CreateBucket | zset/zset.go:27-37 | a new bucket named `name` is empty with sequence 0; no other bucket changes |
| Store.Tx.DeleteBucket | zset/zset.go:166-169 | an existing bucket is removed with no error; an absent one gives `BucketNotFound` and nothing changes |
| Store.Tx.Put | hashmap/hashmap.go:31-33 | the bucket maps `key` to `value`; every other entry and bucket is kept |
| Store.Tx.Delete | hashmap/hashmap.go:96-101 | `key` leaves the bucket; every other entry and bucket is kept |
| Store.Tx.SetSequence | hset/hset.go:115-130 | only the bucket's sequence counter changes, to `value` |
| Store.Tx.NextSequence | hset/hset.go:132-147 | the counter advances by one (uint64 wrap-around) and the new value is returned |
| Store.Lookup | hset/hset.go:93-104 | `Ok` exactly when bucket and key exist, with the stored value; `BucketNotFound` exactly when the bucket is absent |
| Store.SequenceRoundTrip | hset/hset.go:106-147 | a sequence value written is read back; the next-sequence value is the old one plus one below the maximum |
| Bytes.CompareAbove | hashmap/hashmap.go:211 | `bytes.Compare(k, lo) == 1` holds exactly when `lo` is below `k` |
| Bytes.BelowTransitive | hashmap/hashmap.go:210-219 | byte-string order is transitive (with `BelowAsymmetric`/`BelowTotal`: a strict total order) |
| Bytes.CompareConcat | zset/zset.go:287-293 | comparing two composite keys with equal-length prefixes compares the prefixes first, then the rests |
| Utils.I2b | hashmap/hashmap.go:282-287 | `i2b` yields exactly 8 bytes |
| Utils.B2i | hashmap/hashmap.go:278-280 | `b2i` reads the number whose 8-byte big-endian form is the first 8 bytes of its input: `i2b(b2i(raw)) == raw[:8]`; with `B2iI2b`/`I2bB2i` the two are inverse |
| Utils.B2iI2b | hashmap/hashmap.go:278-287 | `b2i(i2b(n)) == n` for every uint64 |
| Utils.I2bB2i | hashmap/hashmap.go:278-287 | `i2b(b2i(raw)) == raw` for every 8-byte `raw` |
| Utils.I2bOrder | zset/zset.go:241-248 | 8-byte big-endian encodings order as the numbers do, and are equal exactly when the numbers are |
| Utils.Incremented | hashmap/hashmap.go:77-88 | the checked step succeeds exactly when `current + step` lies in 0..2^64-1, and then returns it |
| Utils.BucketNamesDistinct | hashmap/hashmap.go:260-262 | two prefixed bucket names are equal exactly when prefix and name are |
| Cursor.SortedKeys | hashmap/hashmap.go:206-210 | the cursor order: strictly ascending, and exactly the bucket's keys |
| Cursor.SeekIndex | hashmap/hashmap.go:210 | `Seek(k)` lands on the first key not below `k`; every earlier key is below `k` |
| Cursor.SeekKey | hset/hset.go:187 | `Seek(k)` gives the least key not below `k`, or nil when every key is below `k` |
| Cursor.LastKey | hset/hset.go:189 | `Last()` gives the greatest key, or nil exactly when the bucket is empty |
| Cursor.ForwardScanUnique | hashmap/hashmap.go:210-219 | the forward-scan description admits one result only |
| Cursor.BackwardScanUnique | hashmap/hashmap.go:237-256 | the backward-scan description admits one result only |
| Cursor.ScanUp | hashmap/hashmap.go:210-219 | the `Seek`/`Next` loop with its `count == limit` break as a walk over the entries in key order; every entry it yields has a key above `lo` (order, size and completeness in `ScanUpIsForwardScan`) |
| Cursor.ScanDown | hashmap/hashmap.go:246-255 | the `Prev` loop with its `count == limit` break; every entry it yields has a key below `hi` (order, size and completeness in `ScanDownIsBackwardScan`) |
| Cursor.ScanUpIsForwardScan | hashmap/hashmap.go:210-219 | the upward loop from `Seek(lo)` yields ascending keys, each above `lo`, at most `limit`, and any key above `lo` it leaves out lies beyond a full result |
| Cursor.ScanDownIsBackwardScan | hashmap/hashmap.go:237-256 | the downward loop from the start key yields descending keys below `hi`, at or below the start, at most `limit`, and any such key it leaves out lies beyond a full result |
| Cursor.ScanUpOrdered | hashmap/hashmap.go:210-219 | an upward walk yields entries in ascending key order |
| Cursor.ScanUpSize | hashmap/hashmap.go:214-216 | a walk with a positive budget yields at most that many entries |
| Cursor.ScanUpComplete | hashmap/hashmap.go:210-219 | an entry above `lo` that the walk passes over lies beyond a full result |
| Cursor.ScanDownOrdered | hashmap/hashmap.go:246-255 | a downward walk yields entries in descending key order |
| Cursor.ScanDownSize | hashmap/hashmap.go:250-252 | a downward walk with a positive budget yields at most that many entries |
| Cursor.ScanDownComplete | hashmap/hashmap.go:246-255 | an entry below `hi` that the downward walk passes over lies beyond a full result |
| HashBucket.SetThenGet | hashmap/hashmap.go:21-35 | after `Hset`, `key` reads `value`; any other key reads as before (a created bucket reads `KeyNotFound`) |
| HashBucket.IncrOutcome | hashmap/hashmap.go:60-94 | an absent counter counts as 0; on overflow only the bucket may appear; otherwise the new value is old plus step, stored as its 8 bytes, and no other entry changes |
| HashBucket.IncrTwice | hset/hset.go:39-73 | two successful increments add up: the second succeeds exactly when the sum of both steps stays in range |
| HashBucket.DelOutcome | hset/hset.go:75-82 | after `Hdel` the key is gone (`KeyNotFound`, or `BucketNotFound` without a bucket); every other key reads as before |
| HashBucket.DelManyOutcome | hashmap/hashmap.go:104-116 | after `Hmdel` the listed keys are gone, the others read as before, and other buckets are untouched |
| HashBucket.DelManySingle | hashmap/hashmap.go:96-116 | `Hmdel` of one key is `Hdel` of it |
| HashBucket.AssignedKeys | hashmap/hashmap.go:51-56 | after `Hmset` the bucket holds its old keys and exactly the keys at even positions |
| HashBucket.AssignedLastWins | hashmap/hashmap.go:51-56 | a key written at several positions ends with the value of its last pair |
| HashBucket.AssignedElsewhere | hashmap/hashmap.go:51-56 | a key not listed keeps its entry |
| HashBucket.FoundValues | hashmap/hashmap.go:183-197 | `Hmget` pushes at most one value per key, each the value of a requested present key, and exactly the values in order when all keys are present |
| HashBucket.UnflattenFlatten | hashmap/hashmap.go:212-213 | the flat `k, v` items of a scan regroup into the scanned pairs |
| HashBucket.EntryScanMeetsSpec | hashmap/hashmap.go:200-221 | the forward scan lists entries of the bucket with their values, ascending, above `keystart`, at most `limit`, leaving out only keys past a full result |
| HashBucket.EntryScanDownMeetsSpec | hashmap/hashmap.go:233-256 | the reverse scan lists entries with their values, descending, below the bound, from `Seek(keystart)` or `Last()`, at most `limit`, leaving out only keys past a full result |
| HashBucket.EntryScanUnique | hashmap/hashmap.go:200-221 | the forward-scan description determines the result |
| HashBucket.EntryScanDownUnique | hashmap/hashmap.go:223-258 | the reverse-scan description determines the result |
| HashBucket.ReverseStartIndex | hashmap/hashmap.go:234-241 | the reverse scan starts at the position of `Seek(keystart)` (or `Last()` for an empty `keystart`), -1 for nil |
| Hashmap.Reply.constructor | hashmap/reply.go:9-13 | `NewReply`: no error, empty message, no items |
| Hashmap.Reply.SetErr | hashmap/reply.go:15-18 | only `err` changes; the same reply is returned |
| Hashmap.Reply.SetMsg | hashmap/reply.go:20-23 | only `msg` changes; the same reply is returned |
| Hashmap.Reply.Push | hashmap/reply.go:25-28 | `items` gains `item` at the end; `err` and `msg` are kept |
| Hashmap.Reply.Error | hashmap/reply.go:30-32 | returns the current `err` |
| Hashmap.ConcatPair | hashmap/hashmap.go:264-276 | `connect(a, b)` is `a` followed by `b` |
| Hashmap.WalkUp | hashmap/hashmap.go:210-219 | the `Hscan` loop pushes the flattened pairs of the upward walk and keeps `err`/`msg` |
| Hashmap.WalkDown | hashmap/hashmap.go:246-255 | the `Hrscan` loop pushes the flattened pairs of the downward walk and keeps `err`/`msg` |
| Hashmap.HashMap.constructor | hashmap/hashmap.go:15-19 | `NewHashMap`: the hash map works on the given transaction |
| Hashmap.HashMap.Connect | hashmap/hashmap.go:264-276 | the slices joined in order |
| Hashmap.HashMap.Bname | hashmap/hashmap.go:260-262 | `0x30` followed by the name |
| Hashmap.HashMap.Hset | hashmap/hashmap.go:21-35 | no error; the store becomes `SetState` (bucket created when absent, `key` set) |
| Hashmap.HashMap.Hmset | hashmap/hashmap.go:38-58 | empty or odd `kvs` is rejected before the store is touched; otherwise the pairs are put left to right into the existing bucket |
| Hashmap.HashMap.HmsetCorrected | hashmap/hashmap.go:38-58 | as `Hmset`, with a missing bucket created first |
| Hashmap.HashMap.PutPairs | hashmap/hashmap.go:51-56 | the `Put` loop leaves `MsetState`: the pairs put left to right |
| Hashmap.HashMap.Hincr | hashmap/hashmap.go:60-94 | `overflow number` with 0 exactly when the checked step fails; otherwise the new value, stored; the store becomes `IncrState` |
| Hashmap.HashMap.Hdel | hashmap/hashmap.go:96-102 | no error; `key` removed when the bucket exists, nothing otherwise |
| Hashmap.HashMap.Hmdel | hashmap/hashmap.go:104-116 | no error; the listed keys removed when the bucket exists |
| Hashmap.HashMap.HdelBucket | hashmap/hashmap.go:118-125 | the bucket removed, or `BucketNotFound` with nothing changed |
| Hashmap.HashMap.Hget | hashmap/hashmap.go:127-138 | `BucketNotFound`, then `KeyNotFound`, else message "ok" and the one value |
| Hashmap.HashMap.Hsequence | hashmap/hashmap.go:140-147 | the bucket's counter, 0 without a bucket |
| Hashmap.HashMap.HsetSequence | hashmap/hashmap.go:149-164 | bucket created when absent; counter set to `value` |
| Hashmap.HashMap.HnextSequence | hashmap/hashmap.go:166-181 | bucket created when absent; counter advanced and returned |
| Hashmap.HashMap.Hmget | hashmap/hashmap.go:183-197 | `BucketNotFound` without a bucket; else "ok" and the values of the present keys in request order |
| Hashmap.HashMap.Hscan | hashmap/hashmap.go:200-221 | `BucketNotFound` without a bucket; else "ok" and the flattened `EntryScan` pairs |
| Hashmap.HashMap.Hrscan | hashmap/hashmap.go:223-258 | as written: on an existing bucket the answer is always `BucketNotFound` with no items |
| Hashmap.HashMap.HrscanCorrected | hashmap/hashmap.go:223-258 | guard corrected: `BucketNotFound` without a bucket; else "ok" and the flattened `EntryScanDown` pairs below `keystart` (or `[255]`) |
| Hset.HName | hset/hset.go:209-211 | the bucket name is the HSet prefix byte followed by the name |
| Hset.CollectUp | hset/hset.go:159-169 | the `Hscan` loop's items are the upward walk |
| Hset.CollectDown | hset/hset.go:195-205 | the `Hrscan` loop's items are the downward walk |
| Hset.HSet.constructor | hset/hset.go:16-20 | `NewHSet`: the hash works on the given transaction |
| Hset.HSet.Hname | hset/hset.go:209-211 | equals `HName` |
| Hset.HSet.Hset | hset/hset.go:22-37 | no error; the store becomes `SetState` |
| Hset.HSet.Hincr | hset/hset.go:39-73 | overflow exactly when the checked step fails, else the new value stored and returned; the store becomes `IncrState` |
| Hset.HSet.Hdel | hset/hset.go:75-82 | no error; `key` removed when the bucket exists |
| Hset.HSet.HdelBucket | hset/hset.go:84-91 | the bucket removed, or `BucketNotFound` with nothing changed |
| Hset.HSet.Hget | hset/hset.go:93-104 | the stored value; `BucketNotFound` without the bucket, `KeyNotFound` without the key |
| Hset.HSet.Hsequence | hset/hset.go:106-113 | the counter, 0 without a bucket |
| Hset.HSet.HsetSequence | hset/hset.go:115-130 | bucket created when absent; counter set |
| Hset.HSet.HnextSequence | hset/hset.go:132-147 | bucket created when absent; counter advanced and returned |
| Hset.HSet.Hscan | hset/hset.go:149-171 | `BucketNotFound` without a bucket; else the `EntryScan` items `[k, v]` |
| Hset.HSet.Hrscan | hset/hset.go:173-207 | as written: on an existing bucket the result is always `BucketNotFound` |
| Hset.HSet.HrscanCorrected | hset/hset.go:173-207 | guard corrected: `BucketNotFound` without a bucket; else the `EntryScanDown` items below `keystart` (or `[255]`) |
| ZsetIndex.KName | zset/zset.go:307-309 | the index bucket's name: prefix 31 followed by the name |
| ZsetIndex.SName | zset/zset.go:311-313 | the score bucket's name: prefix 29 followed by the name |
| ZsetIndex.NamesApart | zset/zset.go:307-313 | an index bucket never has a score bucket's name, and different sets have different buckets |
| ZsetIndex.BothOpened | zset/zset.go:23-37 | both buckets exist afterwards; no entry of either changes and no other bucket changes |
| ZsetIndex.OneEntryPerMember | zset/zset.go:22-69 | in agreeing buckets the only index entry of a member is `score‖member` |
| ZsetIndex.PairedMove | zset/zset.go:50-66 | moving a member to a new 8-byte score (old entry removed, new one written) keeps the buckets agreeing |
| ZsetIndex.PairedRemove | zset/zset.go:147-157 | removing a member and its index entry keeps the buckets agreeing |
| ZsetIndex.MoveOrderIrrelevant | zset/zset.go:50-66 | when the score changes, put-then-delete and delete-then-put give the same index |
| ZsetIndex.PutThenDeleteLoses | zset/zset.go:114-128 | put-then-delete with an unchanged score leaves no index entry for the member |
| ZsetIndex.MovedBuckets | zset/zset.go:50-66 | the `Put`/`Put`/`Delete` steps change the index by put-then-delete, the scores by `m := s`, and nothing else |
| ZsetIndex.MovedCorrectedBuckets | zset/zset.go:111-128 | the reordered steps change the index by delete-then-put, the scores by `m := s`, and nothing else |
| ZsetIndex.ZsetOutcome | zset/zset.go:22-69 | `Zset` keeps the buckets agreeing, sets the member's score, leaves the index alone when the score is unchanged, only adds the two buckets, and leaves other buckets alone |
| ZsetIndex.ZsetThenZget | zset/zset.go:22-69 | after `Zset(m, v)`, `Zget(m)` returns `v` |
| ZsetIndex.ZincrOutcome | zset/zset.go:71-131 | an absent member counts as 0; on overflow neither bucket's entries change; with a non-zero step `Zincr` is `Zset` of the new score |
| ZsetIndex.ZincrKeeps | zset/zset.go:71-131 | `Zincr` with a non-zero step keeps the buckets agreeing |
| ZsetIndex.ZincrZeroOrphans | zset/zset.go:111-128 | `Zincr` with step 0 on a scored member keeps its score but drops its index entry, so the buckets no longer agree |
| ZsetIndex.ZincrCorrectedKeeps | zset/zset.go:71-131 | with delete-before-put, every step keeps the buckets agreeing, and the score becomes the new value (unchanged on overflow) |
| ZsetIndex.ZdelOutcome | zset/zset.go:133-160 | `Zdel` is a no-op without both buckets or a score; otherwise the member and all its index entries are gone, the buckets still agree, and other buckets are untouched |
| ZsetIndex.CompositeOrder | zset/zset.go:247-248 | composite keys order by numeric score first, then by member |
| ZsetIndex.ZscanOrder | zset/zset.go:235-259 | each item is a member with its stored score; items ascend by score then member; at most `limit`; a member above the minimum composite key is missing only from a full result, and then sorts after its last item |
| ZsetIndex.ZscanLeftOut | zset/zset.go:244-257 | one member left out of a scan above the minimum composite key: the result is full and the member sorts after its last item |
| ZsetIndex.ZrscanOrder | zset/zset.go:261-305 | each item is a member with its score, its composite key below `maxscore‖startkey`, items descending by score then member, at most `limit` |
| ZsetIndex.ScansSplit | zset/zset.go:250 | on agreeing buckets every scanned index key has the 8 score bytes `k[:8]` needs |
| Zset.CollectUp | zset/zset.go:247-257 | the `Zscan` loop's items are the split upward walk |
| Zset.CollectDown | zset/zset.go:292-302 | the `Zrscan` loop's items are the split downward walk |
| Zset.ZSet.constructor | zset/zset.go:16-20 | `NewZSet`: the sorted set works on the given transaction |
| Zset.ZSet.Kname | zset/zset.go:307-309 | equals `KName` |
| Zset.ZSet.Sname | zset/zset.go:311-313 | equals `SName` |
| Zset.ZSet.OpenBoth | zset/zset.go:23-37 | both buckets created when absent, `kname` first |
| Zset.ZSet.MoveTo | zset/zset.go:50-66 | the writes leave `Moved`: `score‖key` and the score put, then the old index entry deleted |
| Zset.ZSet.MoveToCorrected | zset/zset.go:111-128 | the writes leave `MovedCorrected`: the old index entry deleted first |
| Zset.ZSet.Zset | zset/zset.go:22-69 | no error; the store becomes `ZsetState` |
| Zset.ZSet.Zincr | zset/zset.go:71-131 | overflow exactly when the checked step fails, else the new score; the store becomes `ZincrState` |
| Zset.ZSet.ZincrCorrected | zset/zset.go:71-131 | as `Zincr`, with the old index entry deleted before the new one is written |
| Zset.ZSet.Zdel | zset/zset.go:133-160 | no error; the store becomes `ZdelState` |
| Zset.ZSet.ZdelBucket | zset/zset.go:162-176 | index missing: error, nothing changes; score bucket missing: error after the index is deleted; else both deleted |
| Zset.ZSet.Zget | zset/zset.go:178-189 | `BucketNotFound`, `KeyNotFound`, or the decoded score |
| Zset.ZSet.Zsequence | zset/zset.go:191-198 | the score bucket's counter, 0 without it |
| Zset.ZSet.ZsetSequence | zset/zset.go:200-215 | score bucket created when absent; counter set |
| Zset.ZSet.ZnextSequence | zset/zset.go:217-233 | score bucket created when absent; counter advanced and returned |
| Zset.ZSet.Zscan | zset/zset.go:235-259 | `BucketNotFound` without the index; else the split upward walk from 8 zero bytes |
| Zset.ZSet.Zrscan | zset/zset.go:261-305 | `BucketNotFound` without the index; else the split downward walk from `Seek(scorestart)` or `Last()` below `maxscore‖startkey` |
| B254.Connect | rset/b254.go:74-83 | `connect(a, b) == a + b` |
| B254.Reverse | rset/b254.go:85-91 | `reverse(s)[i] == s[|s|-1-i]` |
| B254.DigitsLeastFirst | rset/b254.go:34-39 | the `DivMod` loop yields the base-254 digit bytes, least significant first |
| B254.Encode | rset/b254.go:16-43 | the output is `Encoding(src)` |
| B254.Decode | rset/b254.go:45-72 | the output is `Decoding(src)` |
| B254.Digits254 | rset/b254.go:34-39 | every digit byte lies in 2..255, the first is at least 3, and there are none exactly for 0 |
| B254.MinimalBytes | rset/b254.go:70 | `big.Int.Bytes`: big-endian bytes of `n` with no leading zero |
| B254.EncodingShape | rset/b254.go:20-42 | one `0x01` per leading zero byte, then digit bytes only, the first at least 3 |
| B254.EmptyRoundTrip | rset/b254.go:17-19 | empty input encodes and decodes to empty |
| B254.RoundTrip | rset/b254.go:16-72 | `Decode(Encode(x)) == x` for every byte string |
| B254.Value254Digits | rset/b254.go:34-39 | the digits of `n` read back as `n` |
| B254.MinimalBytesOfValue | rset/b254.go:30 | a byte string without a leading zero is the minimal bytes of its value |
| B254.ReversedTwice | rset/b254.go:85-91 | reversing twice gives the input |
| B254.EncodeAllZeros | rset/b254.go:22-34 | an all-zero input encodes to as many `0x01` bytes |
| B254.DecodeRejectsZero | rset/b254.go:50-64 | any input holding a `0x00` byte fails to decode |
| B254.DecodeNotInjective | rset/b254.go:59-71 | `[2, 5]` and `[5]` both decode to `[3]` |
| B254.DecodeDigits | rset/b254.go:45-72 | a `0x01` run followed by well-formed digits decodes to as many zeros and the digits' minimal bytes |

## Left out

- db.go, tx.go and kvstruct.go (opening the file-backed database, `bolt.Update`, lazy accessors) are not part of this model. They do I/O, and kvstruct.go does not compile.
- boltdb internals (pages, commit, rollback, concurrent readers): the store is the in-memory map of buckets in `Store.Tx`.
- Store failures other than a missing bucket are modelled as never happening. A failure part-way through `Zset`/`Zincr`/`Zdel` would leave the two buckets out of step until the transaction rolls back.
- hashmap/errmsg.go is replaced by the `Results.Error` datatype.
- boltdb's own `ErrBucketNotFound` (from `DeleteBucket`, in `Store.Tx.DeleteBucket`, `HdelBucket` and `ZdelBucket`) and kvstruct's "bucket_not_found" (hashmap/errmsg.go:7) are different error values in Go. Both are the one `BucketNotFound` here, so the model does not tell a caller which layer reported it.
- Go's nil slice and empty slice are both the empty `Bytes`. `Hget` reports "key_not_found" whenever bolt's `Get` returns nil. Whether bolt returns nil for a key stored with a nil or empty value is not modelled: `Store.Lookup` returns `Ok([])` for such a key.
- Go panics are preconditions, not modelled crashes:
  - a negative `limit` used as a `make` capacity (`Hset.HSet.Hscan`, `Zset.ZSet.Zscan`, `Zset.ZSet.Zrscan`, `Hset.HSet.HrscanCorrected`);
  - a nil bucket dereferenced (`Hashmap.HashMap.Hmset`, `Hashmap.HashMap.Hrscan`, `Hset.HSet.Hrscan`);
  - a stored value shorter than the 8 bytes `B2i` reads (the `Hincr`/`Zincr`/`Zget` members);
  - an index key shorter than 8 bytes split by a scan (`Zset.ZSet.Zscan`, `Zset.ZSet.Zrscan`; `ZsetIndex.ScansSplit` shows agreeing buckets never have one).
- `utils.I2b`, `utils.B2i`, `utils.BConnect` and the score bounds are not part of the sources here. They are modelled as hashmap/hashmap.go:264-287 writes them, with `SCORE_MAX_SIZE` = 2^64-1 and `SCORE_MIN_SIZE` = 0.
- The zset prefixes are 31 and 29, the values kvstruct.go gives. The HSet prefix value is not shown, so the model uses the distinct byte `0x28`. Only its distinctness matters.
- Go `string` collection names are modelled as their bytes.
- `Zset.ZSet.Zscan`: `keystart` and `scorestart` are accepted but not read, as in the code. The composite key of score 0 with the empty member equals the start bound, so it is never listed. `ZsetIndex.ZscanOrder` states completeness only for keys above that bound.
- `ZsetIndex.ZrscanOrder` does not state completeness. The walk starts at `Seek(scorestart)`, and what it passes over depends on that start as well as on the bound, as `HashBucket.EntryScanDownMeetsSpec` states for the underlying walk.
- The tests (db_test.go, graph/b254_test.go) are not modelled. The B254 test input is covered by `B254.RoundTrip`, which holds for every byte string.

## Findings

| source | as written | input that shows it | evidently intended | confidence | as-written member | corrected member |
|---|---|---|---|---|---|---|
| zset/zset.go:111-128 | `Zincr` puts `newscore‖key` and then deletes `oldscore‖key`; with step 0 both are the same key | a member with a score and `Zincr(name, member, 0)`: its score stays but its index entry is deleted, so scans no longer list it | delete the old index entry before writing the new one | not executed | `ZsetIndex.ZincrZeroOrphans` (about `Zset.ZSet.Zincr`) | `Zset.ZSet.ZincrCorrected`, `ZsetIndex.ZincrCorrectedKeeps` |
| hashmap/hashmap.go:225-229 | `Hrscan` answers `ErrBucketNotFound` when the bucket exists and goes on to use a nil bucket when it does not | any existing hash: `Hrscan` gives `ErrBucketNotFound` | fail only when the bucket is absent, as `Hscan` does | not executed | `Hashmap.HashMap.Hrscan` | `Hashmap.HashMap.HrscanCorrected` |
| hset/hset.go:175-179 | `Hrscan` fails with "bucket_not_found" when the bucket exists and uses a nil bucket when it does not | any existing hash: `Hrscan` fails | fail only when the bucket is absent | not executed | `Hset.HSet.Hrscan` | `Hset.HSet.HrscanCorrected` |
| hashmap/hashmap.go:43-50 | the guard that should create a missing bucket tests `bname`, which is never nil | `Hmset` on a new name with `kvs = [k, v]`: the nil bucket is dereferenced | test `bucket == nil` and create the bucket | not executed | `Hashmap.HashMap.Hmset` | `Hashmap.HashMap.HmsetCorrected` |
