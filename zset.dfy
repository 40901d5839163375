/** `zset.ZSet`: a sorted set kept in two buckets of one store transaction, the score bucket
    `sname` (member to score) and the index `kname` (`score‖member`), as `ZsetIndex` describes. */
module Zset {
  import opened Bytes
  import opened Results
  import opened Utils
  import opened Store
  import opened Cursor
  import opened HashBucket
  import opened ZsetIndex

  /** `[k[8:], k[:8]]` for one index key. */
  lemma SplitCons(p: Pair, ps: seq<Pair>)
    requires |p.first| >= 8 && LongKeys(ps)
    ensures LongKeys([p] + ps)
    ensures Split([p] + ps) == [Pair(p.first[8..], p.first[..8])] + Split(ps)
  {
  }

  /** One step of the `Zscan` loop that takes the index key at `i`. */
  lemma SplitScanUp(items: seq<Pair>, es: seq<Pair>, lo: Bytes, i: nat, budget: int)
    requires i < |es| && Below(lo, es[i].first) && LongKeys(ScanUp(es, lo, i, budget))
    ensures |es[i].first| >= 8
    ensures budget == 1 ==> items + [Pair(es[i].first[8..], es[i].first[..8])] == items + Split(ScanUp(es, lo, i, budget))
    ensures budget != 1 ==>
              && LongKeys(ScanUp(es, lo, i + 1, budget - 1))
              && items + [Pair(es[i].first[8..], es[i].first[..8])] + Split(ScanUp(es, lo, i + 1, budget - 1))
                 == items + Split(ScanUp(es, lo, i, budget))
  {
    ScanUpKept(es, lo, i, budget);
    var rest := if budget == 1 then [] else ScanUp(es, lo, i + 1, budget - 1);
    assert ScanUp(es, lo, i, budget) == [es[i]] + rest;
    forall n | 0 <= n < |rest| ensures |rest[n].first| >= 8 {
      assert rest[n] == ScanUp(es, lo, i, budget)[n + 1];
    }
    assert ScanUp(es, lo, i, budget)[0] == es[i];
    SplitCons(es[i], rest);
    assert items + [Pair(es[i].first[8..], es[i].first[..8])] + Split(rest) == items + ([Pair(es[i].first[8..], es[i].first[..8])] + Split(rest));
  }

  /** One step of the `Zrscan` loop that takes the index key at `i`. */
  lemma SplitScanDown(items: seq<Pair>, es: seq<Pair>, hi: Bytes, i: nat, budget: int)
    requires i < |es| && Below(es[i].first, hi) && LongKeys(ScanDown(es, hi, i, budget))
    ensures |es[i].first| >= 8
    ensures budget == 1 ==> items + [Pair(es[i].first[8..], es[i].first[..8])] == items + Split(ScanDown(es, hi, i, budget))
    ensures budget != 1 ==>
              && LongKeys(ScanDown(es, hi, i - 1, budget - 1))
              && items + [Pair(es[i].first[8..], es[i].first[..8])] + Split(ScanDown(es, hi, i - 1, budget - 1))
                 == items + Split(ScanDown(es, hi, i, budget))
  {
    ScanDownKept(es, hi, i, budget);
    var rest := if budget == 1 then [] else ScanDown(es, hi, i - 1, budget - 1);
    assert ScanDown(es, hi, i, budget) == [es[i]] + rest;
    forall n | 0 <= n < |rest| ensures |rest[n].first| >= 8 {
      assert rest[n] == ScanDown(es, hi, i, budget)[n + 1];
    }
    assert ScanDown(es, hi, i, budget)[0] == es[i];
    SplitCons(es[i], rest);
    assert items + [Pair(es[i].first[8..], es[i].first[..8])] + Split(rest) == items + ([Pair(es[i].first[8..], es[i].first[..8])] + Split(rest));
  }

  /** The cursor loop of `Zscan`: from position `start` upward, collect `[k[8:], k[:8]]` for each
      index key above `lo`, stopping once `limit` items are collected. */
  method CollectUp(es: seq<Pair>, lo: Bytes, start: nat, limit: int) returns (items: seq<Pair>)
    requires LongKeys(ScanUp(es, lo, start, limit))
    ensures items == Split(ScanUp(es, lo, start, limit))
  {
    items := [];
    var count := 0;
    var i := start;
    ghost var budget := limit;
    while i < |es|
      invariant budget == limit - count
      invariant LongKeys(ScanUp(es, lo, i, budget))
      invariant items + Split(ScanUp(es, lo, i, budget)) == Split(ScanUp(es, lo, start, limit))
    {
      var k := es[i].first;
      // `bytes.Compare(k, minscore) == 1`
      if Below(lo, k) {
        SplitScanUp(items, es, lo, i, budget);
        items := items + [Pair(k[8..], k[..8])];
        count := count + 1;
        budget := budget - 1;
        i := i + 1;
        if count == limit {
          break;
        }
      } else {
        i := i + 1;
      }
    }
  }

  /** The cursor loop of `Zrscan`: from position `start` downward, collect `[k[8:], k[:8]]` for
      each index key below `hi`, stopping once `limit` items are collected. */
  method CollectDown(es: seq<Pair>, hi: Bytes, start: int, limit: int) returns (items: seq<Pair>)
    requires start < |es| && LongKeys(ScanDown(es, hi, start, limit))
    ensures items == Split(ScanDown(es, hi, start, limit))
  {
    items := [];
    var count := 0;
    var i := start;
    ghost var budget := limit;
    while i >= 0
      invariant i <= start && budget == limit - count
      invariant LongKeys(ScanDown(es, hi, i, budget))
      invariant items + Split(ScanDown(es, hi, i, budget)) == Split(ScanDown(es, hi, start, limit))
    {
      var k := es[i].first;
      // `bytes.Compare(k, maxkey) == -1`
      if Below(k, hi) {
        SplitScanDown(items, es, hi, i, budget);
        items := items + [Pair(k[8..], k[..8])];
        count := count + 1;
        budget := budget - 1;
        i := i - 1;
        if count == limit {
          break;
        }
      } else {
        i := i - 1;
      }
    }
  }

  class ZSet {
    const dbtx: Tx

    /** `NewZSet`. */
    constructor (dbtx: Tx)
      ensures this.dbtx == dbtx
    {
      this.dbtx := dbtx;
    }

    /** `kname`: the index bucket's name. */
    method Kname(name: Bytes) returns (bn: Bytes)
      ensures bn == KName(name)
    {
      bn := [ZsetKeyPrefix] + name;
    }

    /** `sname`: the score bucket's name. */
    method Sname(name: Bytes) returns (bn: Bytes)
      ensures bn == SName(name)
    {
      bn := [ZsetScorePrefix] + name;
    }

    /** Both buckets, created when absent, `kname` first. */
    method OpenBoth(name: Bytes) returns (kname: Bytes, sname: Bytes)
      modifies dbtx
      ensures kname == KName(name) && sname == SName(name)
      ensures dbtx.buckets == BothOpened(old(dbtx.buckets), name)
    {
      kname := Kname(name);
      sname := Sname(name);
      NamesApart(name, name);
      if kname !in dbtx.buckets {
        dbtx.CreateBucket(kname);
      }
      if sname !in dbtx.buckets {
        dbtx.CreateBucket(sname);
      }
    }

    /** The writes `Zset` and `Zincr` end with: `score‖key` into the index, `score` into the
        score bucket, then the index entry of the old score deleted. */
    method MoveTo(name: Bytes, key: Bytes, oldscore: Option<Bytes>, score: Bytes)
      requires KName(name) in dbtx.buckets && SName(name) in dbtx.buckets
      requires oldscore == (if key in dbtx.buckets[SName(name)].kv then Some(dbtx.buckets[SName(name)].kv[key]) else None)
      modifies dbtx
      ensures dbtx.buckets == Moved(old(dbtx.buckets), name, key, score)
    {
      NamesApart(name, name);
      dbtx.Put(KName(name), score + key, []);  // `utils.BConnect(score, key)`
      dbtx.Put(SName(name), key, score);
      if oldscore.Some? {
        dbtx.Delete(KName(name), oldscore.value + key);
      }
    }

    /** The same writes with the old index entry deleted first. */
    method MoveToCorrected(name: Bytes, key: Bytes, oldscore: Option<Bytes>, score: Bytes)
      requires KName(name) in dbtx.buckets && SName(name) in dbtx.buckets
      requires oldscore == (if key in dbtx.buckets[SName(name)].kv then Some(dbtx.buckets[SName(name)].kv[key]) else None)
      modifies dbtx
      ensures dbtx.buckets == MovedCorrected(old(dbtx.buckets), name, key, score)
    {
      NamesApart(name, name);
      if oldscore.Some? {
        dbtx.Delete(KName(name), oldscore.value + key);
      }
      dbtx.Put(KName(name), score + key, []);
      dbtx.Put(SName(name), key, score);
    }

    method Zset(name: Bytes, key: Bytes, value: u64) returns (err: Option<Error>)
      modifies dbtx
      ensures err == None && dbtx.buckets == ZsetState(old(dbtx.buckets), name, key, value)
    {
      var score := I2b(value);
      var kname, sname := OpenBoth(name);
      NamesApart(name, name);
      var oldscore: Option<Bytes> := None;
      if key in dbtx.buckets[sname].kv {
        oldscore := Some(dbtx.buckets[sname].kv[key]);
      }
      if oldscore == Some(score) {
        return None;
      }
      MoveTo(name, key, oldscore, score);
      err := None;
    }

    method Zincr(name: Bytes, key: Bytes, step: i64) returns (n: u64, err: Option<Error>)
      requires CounterReadable(dbtx.buckets, SName(name), key)
      modifies dbtx
      ensures var r := IncrResult(old(dbtx.buckets), SName(name), key, step);
              && (r.None? ==> n == 0 && err == Some(Overflow))
              && (r.Some? ==> n == r.value && err == None)
      ensures dbtx.buckets == ZincrState(old(dbtx.buckets), name, key, step)
    {
      var kname, sname := OpenBoth(name);
      NamesApart(name, name);
      var score: u64 := 0;
      var oldscore: Option<Bytes> := None;
      if key in dbtx.buckets[sname].kv {
        oldscore := Some(dbtx.buckets[sname].kv[key]);
        score := B2i(oldscore.value);
      }
      assert Incremented(score, step) == IncrResult(old(dbtx.buckets), sname, key, step);
      if step > 0 {
        if ScoreMax - step < score {
          return 0, Some(Overflow);
        }
        score := score + step;
      } else {
        var magnitude: int := -(step as int);
        if magnitude > score {
          return 0, Some(Overflow);
        }
        score := score - magnitude;
      }
      MoveTo(name, key, oldscore, I2b(score));
      return score, None;
    }

    /** `Zincr` with the old index entry deleted before the new one is written, so that a step of
        0 keeps the member in the index. */
    method ZincrCorrected(name: Bytes, key: Bytes, step: i64) returns (n: u64, err: Option<Error>)
      requires CounterReadable(dbtx.buckets, SName(name), key)
      modifies dbtx
      ensures var r := IncrResult(old(dbtx.buckets), SName(name), key, step);
              && (r.None? ==> n == 0 && err == Some(Overflow))
              && (r.Some? ==> n == r.value && err == None)
      ensures dbtx.buckets == ZincrCorrectedState(old(dbtx.buckets), name, key, step)
    {
      var kname, sname := OpenBoth(name);
      NamesApart(name, name);
      var score: u64 := 0;
      var oldscore: Option<Bytes> := None;
      if key in dbtx.buckets[sname].kv {
        oldscore := Some(dbtx.buckets[sname].kv[key]);
        score := B2i(oldscore.value);
      }
      assert Incremented(score, step) == IncrResult(old(dbtx.buckets), sname, key, step);
      if step > 0 {
        if ScoreMax - step < score {
          return 0, Some(Overflow);
        }
        score := score + step;
      } else {
        var magnitude: int := -(step as int);
        if magnitude > score {
          return 0, Some(Overflow);
        }
        score := score - magnitude;
      }
      MoveToCorrected(name, key, oldscore, I2b(score));
      return score, None;
    }

    method Zdel(name: Bytes, key: Bytes) returns (err: Option<Error>)
      modifies dbtx
      ensures err == None && dbtx.buckets == ZdelState(old(dbtx.buckets), name, key)
    {
      var kname := Kname(name);
      var sname := Sname(name);
      NamesApart(name, name);
      if kname !in dbtx.buckets {
        return None;
      }
      if sname !in dbtx.buckets {
        return None;
      }
      if key !in dbtx.buckets[sname].kv {
        return None;
      }
      var oldscore := dbtx.buckets[sname].kv[key];
      dbtx.Delete(kname, oldscore + key);
      dbtx.Delete(sname, key);
      err := None;
    }

    /** Deletes the index, then the score bucket; a missing index stops it before the score
        bucket is touched. */
    method ZdelBucket(name: Bytes) returns (err: Option<Error>)
      modifies dbtx
      ensures KName(name) !in old(dbtx.buckets) ==> err == Some(BucketNotFound) && dbtx.buckets == old(dbtx.buckets)
      ensures KName(name) in old(dbtx.buckets) && SName(name) !in old(dbtx.buckets) ==>
                err == Some(BucketNotFound) && dbtx.buckets == old(dbtx.buckets) - {KName(name)}
      ensures KName(name) in old(dbtx.buckets) && SName(name) in old(dbtx.buckets) ==>
                err == None && dbtx.buckets == old(dbtx.buckets) - {KName(name), SName(name)}
    {
      var kname := Kname(name);
      var sname := Sname(name);
      NamesApart(name, name);
      err := dbtx.DeleteBucket(kname);
      if err.Some? {
        return;
      }
      err := dbtx.DeleteBucket(sname);
    }

    method Zget(name: Bytes, key: Bytes) returns (r: Result<u64>)
      requires CounterReadable(dbtx.buckets, SName(name), key)
      ensures r == ZgetResult(dbtx.buckets, name, key)
    {
      var sname := Sname(name);
      if sname !in dbtx.buckets {
        return Err(BucketNotFound);
      }
      if key !in dbtx.buckets[sname].kv {
        return Err(KeyNotFound);
      }
      r := Ok(B2i(dbtx.buckets[sname].kv[key]));
    }

    method Zsequence(name: Bytes) returns (s: u64)
      ensures s == SequenceOf(dbtx.buckets, SName(name))
      ensures SName(name) !in dbtx.buckets ==> s == 0
    {
      var sname := Sname(name);
      if sname !in dbtx.buckets {
        return 0;
      }
      s := dbtx.buckets[sname].sequence;
    }

    method ZsetSequence(name: Bytes, value: u64) returns (err: Option<Error>)
      modifies dbtx
      ensures err == None && dbtx.buckets == WithSequence(old(dbtx.buckets), SName(name), value)
    {
      var sname := Sname(name);
      if sname !in dbtx.buckets {
        dbtx.CreateBucket(sname);
      }
      dbtx.SetSequence(sname, value);
      err := None;
    }

    method ZnextSequence(name: Bytes) returns (n: u64, err: Option<Error>)
      modifies dbtx
      ensures err == None && n == NextSequenceValue(old(dbtx.buckets), SName(name))
      ensures dbtx.buckets == WithSequence(old(dbtx.buckets), SName(name), n)
    {
      var sname := Sname(name);
      if sname !in dbtx.buckets {
        dbtx.CreateBucket(sname);
      }
      n := dbtx.NextSequence(sname);
      err := None;
    }

    /** Members with their scores, walking the index upward from the 8 zero bytes of score 0;
        `keystart` and `scorestart` are not read. A negative `limit` is a capacity `make` rejects,
        and an index key shorter than 8 bytes cannot be split. */
    method Zscan(name: Bytes, keystart: Bytes, scorestart: Bytes, limit: int) returns (r: Result<seq<Pair>>)
      requires KName(name) in dbtx.buckets ==>
                 limit >= 0 && LongKeys(EntryScan(dbtx.buckets[KName(name)].kv, I2b(ScoreMin), limit))
      ensures KName(name) !in dbtx.buckets ==> r == Err(BucketNotFound)
      ensures KName(name) in dbtx.buckets ==> r == Ok(Split(EntryScan(dbtx.buckets[KName(name)].kv, I2b(ScoreMin), limit)))
    {
      var kname := Kname(name);
      if kname !in dbtx.buckets {
        return Err(BucketNotFound);
      }
      var minscore := I2b(ScoreMin);
      var kv := dbtx.buckets[kname].kv;
      var es := CursorOrder(kv);
      var items := CollectUp(es, minscore, SeekIndex(SortedKeys(kv.Keys), minscore), limit);
      r := Ok(items);
    }

    /** Members with their scores, walking the index downward from `Seek(scorestart)` (or
        `Last()`), keeping the index keys strictly below `ZrscanBound(keystart, scorestart)`. */
    method Zrscan(name: Bytes, keystart: Bytes, scorestart: Bytes, limit: int) returns (r: Result<seq<Pair>>)
      requires KName(name) in dbtx.buckets ==>
                 && limit >= 0
                 && LongKeys(EntryScanDown(dbtx.buckets[KName(name)].kv, ZrscanBound(keystart, scorestart), scorestart, limit))
      ensures KName(name) !in dbtx.buckets ==> r == Err(BucketNotFound)
      ensures KName(name) in dbtx.buckets ==>
                r == Ok(Split(EntryScanDown(dbtx.buckets[KName(name)].kv, ZrscanBound(keystart, scorestart), scorestart, limit)))
    {
      var kname := Kname(name);
      if kname !in dbtx.buckets {
        return Err(BucketNotFound);
      }
      var maxscore := I2b(ScoreMax);
      if |scorestart| > 0 {
        maxscore := scorestart;
      }
      var kv := dbtx.buckets[kname].kv;
      var es := CursorOrder(kv);
      var s: int;
      if |scorestart| > 0 {
        var j := SeekIndex(SortedKeys(kv.Keys), maxscore);
        s := if j < |es| then j else -1;
      } else {
        s := |es| - 1;
      }
      var startkey: Bytes := [255];
      if |keystart| > 0 {
        startkey := keystart;
      }
      var maxkey := maxscore + startkey;  // `utils.BConnect(maxscore, startkey)`
      assert s == ReverseStartIndex(kv.Keys, scorestart) && maxkey == ZrscanBound(keystart, scorestart);
      var items := CollectDown(es, maxkey, s, limit);
      r := Ok(items);
    }
  }
}
