/** The two buckets of a sorted set and what each `ZSet` operation makes of them. The `sname`
    bucket maps each member to its 8-byte big-endian score; the `kname` bucket is the index,
    holding `score‖member` with an empty value, so that the index's key order is score order. */
module ZsetIndex {
  import opened Bytes
  import opened Results
  import opened Utils
  import opened Store
  import opened Cursor
  import opened HashBucket

  /** `kname`: the index bucket. */
  function KName(name: Bytes): (bn: Bytes)
    ensures bn == [ZsetKeyPrefix] + name
  {
    BucketName(ZsetKeyPrefix, name)
  }

  /** `sname`: the score bucket. */
  function SName(name: Bytes): (bn: Bytes)
    ensures bn == [ZsetScorePrefix] + name
  {
    BucketName(ZsetScorePrefix, name)
  }

  /** The index and the score bucket of one sorted set are two different buckets, and two sets
      with different names share neither. */
  lemma NamesApart(a: Bytes, b: Bytes)
    ensures KName(a) != SName(b)
    ensures KName(a) == KName(b) || SName(a) == SName(b) ==> a == b
  {
    BucketNamesDistinct(ZsetKeyPrefix, a, ZsetScorePrefix, b);
    BucketNamesDistinct(ZsetKeyPrefix, a, ZsetKeyPrefix, b);
    BucketNamesDistinct(ZsetScorePrefix, a, ZsetScorePrefix, b);
  }

  function Index(st: Buckets, name: Bytes): map<Bytes, Bytes> {
    Entries(st, KName(name))
  }

  function Scores(st: Buckets, name: Bytes): map<Bytes, Bytes> {
    Entries(st, SName(name))
  }

  /** The two buckets agree: every member has an 8-byte score and the index entry
      `score‖member`, and every index entry is such an entry, with an empty value. */
  predicate Paired(index: map<Bytes, Bytes>, scores: map<Bytes, Bytes>) {
    && (forall m :: m in scores ==> |scores[m]| == 8 && scores[m] + m in index)
    && (forall c :: c in index ==> |c| >= 8 && c[8..] in scores && scores[c[8..]] == c[..8] && index[c] == [])
  }

  predicate Consistent(st: Buckets, name: Bytes) {
    Paired(Index(st, name), Scores(st, name))
  }

  /** The index entry that records the current score of `m`, if `m` has one. */
  function Stale(scores: map<Bytes, Bytes>, m: Bytes): set<Bytes> {
    if m in scores then {scores[m] + m} else {}
  }

  /** The index after writing `s‖m` and then deleting the entry of the old score. */
  function PutThenDelete(index: map<Bytes, Bytes>, scores: map<Bytes, Bytes>, m: Bytes, s: Bytes): map<Bytes, Bytes> {
    index[s + m := []] - Stale(scores, m)
  }

  /** The index after deleting the entry of the old score and then writing `s‖m`. */
  function DeleteThenPut(index: map<Bytes, Bytes>, scores: map<Bytes, Bytes>, m: Bytes, s: Bytes): map<Bytes, Bytes> {
    (index - Stale(scores, m))[s + m := []]
  }

  /** Both buckets, created when absent (`kname` first). */
  function BothOpened(st: Buckets, name: Bytes): (r: Buckets)
    ensures KName(name) in r && SName(name) in r && r.Keys == st.Keys + {KName(name), SName(name)}
    ensures Index(r, name) == Index(st, name) && Scores(r, name) == Scores(st, name)
    ensures forall n :: n in st ==> n in r && r[n] == st[n]
  {
    Opened(Opened(st, KName(name)), SName(name))
  }

  /** Moving `m` to score `s` in the order `Zset` and `Zincr` use: write `s‖m` into the index and
      `s` into the score bucket, then delete the index entry of the old score. */
  function Moved(st: Buckets, name: Bytes, m: Bytes, s: Bytes): Buckets
    requires KName(name) in st && SName(name) in st
  {
    NamesApart(name, name);
    var sc := st[SName(name)].kv;
    var st1 := PutEntry(PutEntry(st, KName(name), s + m, []), SName(name), m, s);
    if m in sc then DeleteEntry(st1, KName(name), sc[m] + m) else st1
  }

  /** Moving `m` to score `s` with the old index entry deleted first. */
  function MovedCorrected(st: Buckets, name: Bytes, m: Bytes, s: Bytes): Buckets
    requires KName(name) in st && SName(name) in st
  {
    NamesApart(name, name);
    var sc := st[SName(name)].kv;
    var st1 := if m in sc then DeleteEntry(st, KName(name), sc[m] + m) else st;
    PutEntry(PutEntry(st1, KName(name), s + m, []), SName(name), m, s)
  }

  /** `Zset`: both buckets are created; unless the stored score already equals `I2b(value)`, the
      member moves to it. */
  function ZsetState(st: Buckets, name: Bytes, m: Bytes, value: u64): Buckets {
    var st1 := BothOpened(st, name);
    var sc := st1[SName(name)].kv;
    if m in sc && sc[m] == I2b(value) then st1 else Moved(st1, name, m, I2b(value))
  }

  /** `Zincr` as written: both buckets are created; without overflow the member moves to the new
      score by the same put-then-delete steps, even when the score does not change. */
  function ZincrState(st: Buckets, name: Bytes, m: Bytes, step: i64): Buckets
    requires CounterReadable(st, SName(name), m)
  {
    var r := IncrResult(st, SName(name), m, step);
    if r.None? then BothOpened(st, name) else Moved(BothOpened(st, name), name, m, I2b(r.value))
  }

  /** `Zincr` with the old index entry deleted before the new one is written. */
  function ZincrCorrectedState(st: Buckets, name: Bytes, m: Bytes, step: i64): Buckets
    requires CounterReadable(st, SName(name), m)
  {
    var r := IncrResult(st, SName(name), m, step);
    if r.None? then BothOpened(st, name) else MovedCorrected(BothOpened(st, name), name, m, I2b(r.value))
  }

  /** `Zdel`: nothing happens unless both buckets exist and the member has a score; then its
      index entry and its score are deleted. */
  function ZdelState(st: Buckets, name: Bytes, m: Bytes): Buckets {
    if KName(name) in st && SName(name) in st && m in st[SName(name)].kv then
      NamesApart(name, name);
      DeleteEntry(DeleteEntry(st, KName(name), st[SName(name)].kv[m] + m), SName(name), m)
    else st
  }

  /** `Zget`: the decoded score, or "bucket_not_found" / "key_not_found". */
  function ZgetResult(st: Buckets, name: Bytes, m: Bytes): Result<u64>
    requires CounterReadable(st, SName(name), m)
  {
    if SName(name) !in st then Err(BucketNotFound)
    else if m !in st[SName(name)].kv then Err(KeyNotFound)
    else Ok(B2i(st[SName(name)].kv[m]))
  }

  // ----- Scans -----

  /** Every index key can be split at byte 8. */
  predicate LongKeys(ps: seq<Pair>) {
    forall n :: 0 <= n < |ps| ==> |ps[n].first| >= 8
  }

  /** The `[k[8:], k[:8]]` items of index entries: the member, then its score. */
  function Split(ps: seq<Pair>): (r: seq<Pair>)
    requires LongKeys(ps)
    ensures |r| == |ps|
    ensures forall n :: 0 <= n < |ps| ==> r[n] == Pair(ps[n].first[8..], ps[n].first[..8])
  {
    seq(|ps|, n requires 0 <= n < |ps| => Pair(ps[n].first[8..], ps[n].first[..8]))
  }

  /** The upper bound of `Zrscan`: `scorestart` (or the maximum score) followed by `keystart` (or
      `[255]`). */
  function ZrscanBound(keystart: Bytes, scorestart: Bytes): Bytes {
    (if |scorestart| > 0 then scorestart else I2b(ScoreMax)) + ReverseBound(keystart)
  }

  // ----- Properties -----

  /** In agreeing buckets a member has exactly one index entry. */
  lemma OneEntryPerMember(index: map<Bytes, Bytes>, scores: map<Bytes, Bytes>, m: Bytes, c: Bytes)
    requires Paired(index, scores) && m in scores
    requires c in index && c[8..] == m
    ensures c == scores[m] + m
  {
    assert c == c[..8] + c[8..];
  }

  /** Deleting the old entry and writing the new one keeps the buckets agreeing. */
  lemma PairedMove(index: map<Bytes, Bytes>, scores: map<Bytes, Bytes>, m: Bytes, s: Bytes)
    requires Paired(index, scores) && |s| == 8
    ensures Paired(DeleteThenPut(index, scores, m, s), scores[m := s])
  {
    var index' := DeleteThenPut(index, scores, m, s);
    var scores' := scores[m := s];
    assert (s + m)[8..] == m && (s + m)[..8] == s;
    forall c | c in index'
      ensures |c| >= 8 && c[8..] in scores' && scores'[c[8..]] == c[..8] && index'[c] == []
    {
      if c != s + m {
        assert c in index && c !in Stale(scores, m);
        if c[8..] == m {
          OneEntryPerMember(index, scores, m, c);
        }
      }
    }
    forall k | k in scores' ensures |scores'[k]| == 8 && scores'[k] + k in index' {
      if k != m {
        assert scores[k] + k in index;
        assert (scores[k] + k)[8..] == k;
      }
    }
  }

  /** Deleting a member's entry and score keeps the buckets agreeing. */
  lemma PairedRemove(index: map<Bytes, Bytes>, scores: map<Bytes, Bytes>, m: Bytes)
    requires Paired(index, scores)
    ensures Paired(index - Stale(scores, m), scores - {m})
  {
    var index' := index - Stale(scores, m);
    forall c | c in index' ensures c[8..] != m {
      if c[8..] == m {
        OneEntryPerMember(index, scores, m, c);
      }
    }
    forall k | k in scores - {m} ensures scores[k] + k in index' {
      assert (scores[k] + k)[8..] == k;
    }
  }

  /** When the score changes, the two orders of the index steps agree. */
  lemma MoveOrderIrrelevant(index: map<Bytes, Bytes>, scores: map<Bytes, Bytes>, m: Bytes, s: Bytes)
    requires m in scores ==> scores[m] != s
    ensures PutThenDelete(index, scores, m, s) == DeleteThenPut(index, scores, m, s)
  {
    if m in scores {
      assert (scores[m] + m)[..|scores[m]|] == scores[m];
    }
  }

  /** When the score does not change, writing first and deleting after loses the entry. */
  lemma PutThenDeleteLoses(index: map<Bytes, Bytes>, scores: map<Bytes, Bytes>, m: Bytes)
    requires m in scores
    ensures scores[m] + m !in PutThenDelete(index, scores, m, scores[m])
  {
  }

  /** What `Moved` does to the two buckets, and to no other. */
  lemma MovedBuckets(st: Buckets, name: Bytes, m: Bytes, s: Bytes)
    requires KName(name) in st && SName(name) in st
    ensures Index(Moved(st, name, m, s), name) == PutThenDelete(Index(st, name), Scores(st, name), m, s)
    ensures Scores(Moved(st, name, m, s), name) == Scores(st, name)[m := s]
    ensures Moved(st, name, m, s).Keys == st.Keys
    ensures forall n :: n in st && n != KName(name) && n != SName(name) ==> Moved(st, name, m, s)[n] == st[n]
  {
    NamesApart(name, name);
  }

  lemma MovedCorrectedBuckets(st: Buckets, name: Bytes, m: Bytes, s: Bytes)
    requires KName(name) in st && SName(name) in st
    ensures Index(MovedCorrected(st, name, m, s), name) == DeleteThenPut(Index(st, name), Scores(st, name), m, s)
    ensures Scores(MovedCorrected(st, name, m, s), name) == Scores(st, name)[m := s]
    ensures MovedCorrected(st, name, m, s).Keys == st.Keys
    ensures forall n :: n in st && n != KName(name) && n != SName(name) ==> MovedCorrected(st, name, m, s)[n] == st[n]
  {
    NamesApart(name, name);
  }

  /** `Zset` gives the member the new score, keeps the buckets agreeing (so the member has exactly
      the one index entry `I2b(value)‖m`), and leaves every other member and bucket alone; a score
      equal to the stored one changes no entry. */
  lemma ZsetOutcome(st: Buckets, name: Bytes, m: Bytes, value: u64)
    requires Consistent(st, name)
    ensures Consistent(ZsetState(st, name, m, value), name)
    ensures Scores(ZsetState(st, name, m, value), name) == Scores(st, name)[m := I2b(value)]
    ensures m in Scores(st, name) && Scores(st, name)[m] == I2b(value) ==>
              Index(ZsetState(st, name, m, value), name) == Index(st, name)
    ensures ZsetState(st, name, m, value).Keys == st.Keys + {KName(name), SName(name)}
    ensures forall n :: n in st && n != KName(name) && n != SName(name) ==> ZsetState(st, name, m, value)[n] == st[n]
  {
    var st1 := BothOpened(st, name);
    var s := I2b(value);
    if !(m in Scores(st, name) && Scores(st, name)[m] == s) {
      MovedBuckets(st1, name, m, s);
      MoveOrderIrrelevant(Index(st, name), Scores(st, name), m, s);
      PairedMove(Index(st, name), Scores(st, name), m, s);
    }
  }

  /** After `Zset`, `Zget` reads the value back. */
  lemma ZsetThenZget(st: Buckets, name: Bytes, m: Bytes, value: u64)
    requires Consistent(st, name)
    ensures CounterReadable(ZsetState(st, name, m, value), SName(name), m)
    ensures ZgetResult(ZsetState(st, name, m, value), name, m) == Ok(value)
  {
    ZsetOutcome(st, name, m, value);
    B2iI2b(value);
  }

  /** `Zincr`: an absent member counts as score 0; on overflow no entry changes (only the
      buckets may appear); otherwise the result is the old score plus `step`, and with a non-zero
      step `Zincr` is `Zset` of that result, so the buckets keep agreeing. */
  lemma ZincrOutcome(st: Buckets, name: Bytes, m: Bytes, step: i64)
    requires CounterReadable(st, SName(name), m)
    ensures m !in Scores(st, name) ==> IncrResult(st, SName(name), m, step) == Incremented(0, step)
    ensures IncrResult(st, SName(name), m, step).None? ==>
              && Index(ZincrState(st, name, m, step), name) == Index(st, name)
              && Scores(ZincrState(st, name, m, step), name) == Scores(st, name)
    ensures IncrResult(st, SName(name), m, step).Some? && step != 0 ==>
              ZincrState(st, name, m, step) == ZsetState(st, name, m, IncrResult(st, SName(name), m, step).value)
  {
    var r := IncrResult(st, SName(name), m, step);
    var st1 := BothOpened(st, name);
    if r.Some? && step != 0 {
      var sc := st1[SName(name)].kv;
      if m in sc && sc[m] == I2b(r.value) {
        B2iI2b(r.value);
        assert false;
      }
    }
  }

  /** `Zincr` keeps the buckets agreeing whenever `step` is not 0. */
  lemma ZincrKeeps(st: Buckets, name: Bytes, m: Bytes, step: i64)
    requires Consistent(st, name) && step != 0
    ensures CounterReadable(st, SName(name), m)
    ensures Consistent(ZincrState(st, name, m, step), name)
  {
    ZincrOutcome(st, name, m, step);
    var r := IncrResult(st, SName(name), m, step);
    if r.Some? {
      ZsetOutcome(st, name, m, r.value);
    }
  }

  /** As written, `Zincr` by 0 on a member that has a score writes the member's index entry and
      then deletes it: the member keeps its score but leaves the index, and the buckets no longer
      agree. */
  lemma ZincrZeroOrphans(st: Buckets, name: Bytes, m: Bytes)
    requires Consistent(st, name) && m in Scores(st, name)
    ensures CounterReadable(st, SName(name), m)
    ensures m in Scores(ZincrState(st, name, m, 0), name)
    ensures Scores(ZincrState(st, name, m, 0), name)[m] + m !in Index(ZincrState(st, name, m, 0), name)
    ensures !Consistent(ZincrState(st, name, m, 0), name)
  {
    var s := Scores(st, name)[m];
    I2bB2i(s);
    assert IncrResult(st, SName(name), m, 0) == Some(B2i(s));
    MovedBuckets(BothOpened(st, name), name, m, s);
    PutThenDeleteLoses(Index(st, name), Scores(st, name), m);
  }

  /** The corrected `Zincr` keeps the buckets agreeing for every step, gives the member the new
      score, and on overflow changes no entry. */
  lemma ZincrCorrectedKeeps(st: Buckets, name: Bytes, m: Bytes, step: i64)
    requires Consistent(st, name)
    ensures CounterReadable(st, SName(name), m)
    ensures Consistent(ZincrCorrectedState(st, name, m, step), name)
    ensures IncrResult(st, SName(name), m, step).Some? ==>
              Scores(ZincrCorrectedState(st, name, m, step), name)
              == Scores(st, name)[m := I2b(IncrResult(st, SName(name), m, step).value)]
    ensures IncrResult(st, SName(name), m, step).None? ==>
              Scores(ZincrCorrectedState(st, name, m, step), name) == Scores(st, name)
  {
    var r := IncrResult(st, SName(name), m, step);
    if r.Some? {
      MovedCorrectedBuckets(BothOpened(st, name), name, m, I2b(r.value));
      PairedMove(Index(st, name), Scores(st, name), m, I2b(r.value));
    }
  }

  /** `Zdel` is a no-op when a bucket or the member's score is missing; otherwise it removes the
      member's score and its one index entry and nothing else, keeping the buckets agreeing. */
  lemma ZdelOutcome(st: Buckets, name: Bytes, m: Bytes)
    requires Consistent(st, name)
    ensures KName(name) !in st || SName(name) !in st || m !in Scores(st, name) ==> ZdelState(st, name, m) == st
    ensures Consistent(ZdelState(st, name, m), name)
    ensures Scores(ZdelState(st, name, m), name) == Scores(st, name) - {m}
    ensures forall c :: c in Index(ZdelState(st, name, m), name) ==> c[8..] != m
    ensures forall n :: n != KName(name) && n != SName(name) ==> Entries(ZdelState(st, name, m), n) == Entries(st, n)
  {
    NamesApart(name, name);
    PairedRemove(Index(st, name), Scores(st, name), m);
    if KName(name) in st && SName(name) in st && m in Scores(st, name) {
      assert Index(ZdelState(st, name, m), name) == Index(st, name) - Stale(Scores(st, name), m);
    } else {
      assert Scores(st, name) - {m} == Scores(st, name);
    }
  }

  /** The order of the index is score order: two index keys compare by their 8-byte score prefix
      read as numbers, and then by member. */
  lemma CompositeOrder(c: Bytes, d: Bytes)
    requires |c| >= 8 && |d| >= 8 && Below(c, d)
    ensures B2i(c[..8]) < B2i(d[..8]) || (c[..8] == d[..8] && Below(c[8..], d[8..]))
  {
    assert c == c[..8] + c[8..] && d == d[..8] + d[8..];
    CompareConcat(c[..8], d[..8], c[8..], d[8..]);
    if c[..8] != d[..8] {
      I2bB2i(c[..8]);
      I2bB2i(d[..8]);
      I2bOrder(B2i(c[..8]), B2i(d[..8]));
    }
  }

  /** Scans of agreeing buckets meet only index keys that can be split, and split into a member
      and its score. */
  lemma SplitMembers(index: map<Bytes, Bytes>, scores: map<Bytes, Bytes>, ps: seq<Pair>)
    requires Paired(index, scores) && AreEntries(index, ps)
    ensures LongKeys(ps)
    ensures forall n :: 0 <= n < |ps| ==> Split(ps)[n].first in scores && scores[Split(ps)[n].first] == Split(ps)[n].second
  {
  }

  /** Index keys in ascending order split into items in ascending score order, and by member
      among equal scores. */
  lemma SplitAscending(ps: seq<Pair>)
    requires LongKeys(ps) && Ascending(Firsts(ps))
    ensures forall a, b :: 0 <= a < b < |ps| ==>
              || B2i(Split(ps)[a].second) < B2i(Split(ps)[b].second)
              || (Split(ps)[a].second == Split(ps)[b].second && Below(Split(ps)[a].first, Split(ps)[b].first))
  {
    forall a, b | 0 <= a < b < |ps|
      ensures || B2i(Split(ps)[a].second) < B2i(Split(ps)[b].second)
              || (Split(ps)[a].second == Split(ps)[b].second && Below(Split(ps)[a].first, Split(ps)[b].first))
    {
      assert Firsts(ps)[a] == ps[a].first && Firsts(ps)[b] == ps[b].first;
      CompositeOrder(ps[a].first, ps[b].first);
    }
  }

  /** Index keys in descending order split into items in descending score order, and by
      descending member among equal scores. */
  lemma SplitDescending(ps: seq<Pair>)
    requires LongKeys(ps) && Descending(Firsts(ps))
    ensures forall a, b :: 0 <= a < b < |ps| ==>
              || B2i(Split(ps)[b].second) < B2i(Split(ps)[a].second)
              || (Split(ps)[a].second == Split(ps)[b].second && Below(Split(ps)[b].first, Split(ps)[a].first))
  {
    forall a, b | 0 <= a < b < |ps|
      ensures || B2i(Split(ps)[b].second) < B2i(Split(ps)[a].second)
              || (Split(ps)[a].second == Split(ps)[b].second && Below(Split(ps)[b].first, Split(ps)[a].first))
    {
      assert Firsts(ps)[a] == ps[a].first && Firsts(ps)[b] == ps[b].first;
      CompositeOrder(ps[b].first, ps[a].first);
    }
  }

  /** `Zscan` on agreeing buckets lists members with their scores, in ascending score order and
      by member among equal scores, starting after the composite key of 8 zero bytes, at most
      `limit` of them, and leaves a member out only once `limit` items are listed, all sorting before it. */
  lemma ZscanOrder(index: map<Bytes, Bytes>, scores: map<Bytes, Bytes>, limit: int, ps: seq<Pair>)
    requires Paired(index, scores) && ps == EntryScan(index, I2b(ScoreMin), limit) && LongKeys(ps)
    ensures forall n :: 0 <= n < |ps| ==> Split(ps)[n].first in scores && scores[Split(ps)[n].first] == Split(ps)[n].second
    ensures forall a, b :: 0 <= a < b < |ps| ==>
              || B2i(Split(ps)[a].second) < B2i(Split(ps)[b].second)
              || (Split(ps)[a].second == Split(ps)[b].second && Below(Split(ps)[a].first, Split(ps)[b].first))
    ensures limit > 0 ==> |ps| <= limit
    ensures forall m :: m in scores && Below(I2b(ScoreMin), scores[m] + m) && Pair(m, scores[m]) !in Split(ps) ==>
              && limit > 0 && |ps| == limit
              && Below(Split(ps)[|ps| - 1].second + Split(ps)[|ps| - 1].first, scores[m] + m)
  {
    EntryScanMeetsSpec(index, I2b(ScoreMin), limit);
    SplitMembers(index, scores, ps);
    SplitAscending(ps);
    ZscanComplete(index, scores, limit, ps);
  }

  /** A member whose index key lies above the lowest score and that `Zscan` leaves out lies
      beyond a full result. */
  lemma ZscanComplete(index: map<Bytes, Bytes>, scores: map<Bytes, Bytes>, limit: int, ps: seq<Pair>)
    requires Paired(index, scores) && ps == EntryScan(index, I2b(ScoreMin), limit) && LongKeys(ps)
    ensures forall m :: m in scores && Below(I2b(ScoreMin), scores[m] + m) && Pair(m, scores[m]) !in Split(ps) ==>
              && limit > 0 && |ps| == limit
              && Below(Split(ps)[|ps| - 1].second + Split(ps)[|ps| - 1].first, scores[m] + m)
  {
    EntryScanMeetsSpec(index, I2b(ScoreMin), limit);
    forall m | m in scores && Below(I2b(ScoreMin), scores[m] + m) && Pair(m, scores[m]) !in Split(ps)
      ensures limit > 0 && |ps| == limit
      ensures Below(Split(ps)[|ps| - 1].second + Split(ps)[|ps| - 1].first, scores[m] + m)
    {
      ZscanLeftOut(index, scores, limit, ps, m);
    }
  }

  /** One member left out of a `Zscan`: its index key is not among the scanned keys, so it lies
      beyond a full result. */
  lemma ZscanLeftOut(index: map<Bytes, Bytes>, scores: map<Bytes, Bytes>, limit: int, ps: seq<Pair>, m: Bytes)
    requires Paired(index, scores) && IsEntryScan(index, I2b(ScoreMin), limit, ps) && LongKeys(ps)
    requires m in scores && Below(I2b(ScoreMin), scores[m] + m) && Pair(m, scores[m]) !in Split(ps)
    ensures limit > 0 && |ps| == limit
    ensures Below(Split(ps)[|ps| - 1].second + Split(ps)[|ps| - 1].first, scores[m] + m)
  {
    var c := scores[m] + m;
    assert c[8..] == m && c[..8] == scores[m];
    forall k | 0 <= k < |ps| ensures Firsts(ps)[k] != c {
      assert Split(ps)[k] in Split(ps);
    }
    var k := |ps| - 1;
    assert ps[k].first == ps[k].first[..8] + ps[k].first[8..];
  }

  /** `Zrscan` on agreeing buckets lists members with their scores, in descending score order and
      by descending member among equal scores, every composite key strictly below the bound, at
      most `limit` of them. */
  lemma ZrscanOrder(index: map<Bytes, Bytes>, scores: map<Bytes, Bytes>, keystart: Bytes, scorestart: Bytes, limit: int, ps: seq<Pair>)
    requires Paired(index, scores)
    requires ps == EntryScanDown(index, ZrscanBound(keystart, scorestart), scorestart, limit) && LongKeys(ps)
    ensures forall n :: 0 <= n < |ps| ==> Split(ps)[n].first in scores && scores[Split(ps)[n].first] == Split(ps)[n].second
    ensures forall n :: 0 <= n < |ps| ==> Below(Split(ps)[n].second + Split(ps)[n].first, ZrscanBound(keystart, scorestart))
    ensures forall a, b :: 0 <= a < b < |ps| ==>
              || B2i(Split(ps)[b].second) < B2i(Split(ps)[a].second)
              || (Split(ps)[a].second == Split(ps)[b].second && Below(Split(ps)[b].first, Split(ps)[a].first))
    ensures limit > 0 ==> |ps| <= limit
  {
    EntryScanDownMeetsSpec(index, ZrscanBound(keystart, scorestart), scorestart, limit);
    SplitMembers(index, scores, ps);
    SplitDescending(ps);
    SplitBelow(ps, ZrscanBound(keystart, scorestart));
  }

  /** Splitting keeps each key's place: score and member joined again give the index key. */
  lemma SplitBelow(ps: seq<Pair>, hi: Bytes)
    requires LongKeys(ps) && forall n :: 0 <= n < |ps| ==> Below(Firsts(ps)[n], hi)
    ensures forall n :: 0 <= n < |ps| ==> Below(Split(ps)[n].second + Split(ps)[n].first, hi)
  {
    forall n | 0 <= n < |ps| ensures Below(Split(ps)[n].second + Split(ps)[n].first, hi) {
      assert Firsts(ps)[n] == ps[n].first;
      assert Split(ps)[n].second + Split(ps)[n].first == ps[n].first;
    }
  }

  /** Agreeing buckets never make a scan split a short key. */
  lemma ScansSplit(index: map<Bytes, Bytes>, scores: map<Bytes, Bytes>, keystart: Bytes, scorestart: Bytes, limit: int)
    requires Paired(index, scores)
    ensures LongKeys(EntryScan(index, I2b(ScoreMin), limit))
    ensures LongKeys(EntryScanDown(index, ZrscanBound(keystart, scorestart), scorestart, limit))
  {
    EntryScanMeetsSpec(index, I2b(ScoreMin), limit);
    EntryScanDownMeetsSpec(index, ZrscanBound(keystart, scorestart), scorestart, limit);
  }
}
