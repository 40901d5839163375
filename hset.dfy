/** `hset.HSet`: a named hash held in one bucket `HsetBucketPrefix‖name`. Unlike `HashMap` it
    answers with plain values and errors, and its scans return `[k, v]` items. */
module Hset {
  import opened Bytes
  import opened Results
  import opened Utils
  import opened Store
  import opened Cursor
  import opened HashBucket

  /** The bucket of the hash called `name`. */
  function HName(name: Bytes): (bn: Bytes)
    ensures |bn| == |name| + 1 && bn[0] == HsetBucketPrefix && bn[1..] == name
  {
    BucketName(HsetBucketPrefix, name)
  }

  /** The cursor loop of `Hscan`: from position `start` upward, collect each entry whose key is
      above `lo`, stopping once `limit` items are collected. */
  method CollectUp(es: seq<Pair>, lo: Bytes, start: nat, limit: int) returns (items: seq<Pair>)
    ensures items == ScanUp(es, lo, start, limit)
  {
    items := [];
    var count := 0;
    var i := start;
    ghost var budget := limit;
    while i < |es|
      invariant budget == limit - count
      invariant items + ScanUp(es, lo, i, budget) == ScanUp(es, lo, start, limit)
    {
      var e := es[i];
      // `bytes.Compare(k, keystart) == 1`
      if Below(lo, e.first) {
        ScanUpKept(es, lo, i, budget);
        items := items + [e];  // the item `[k, v]`
        count := count + 1;
        budget := budget - 1;
        i := i + 1;
        if count == limit {
          break;
        }
      } else {
        i := i + 1;
      }
    }
  }

  /** The cursor loop of `Hrscan`: from position `start` downward, collect each entry whose key
      is below `hi`, stopping once `limit` items are collected. */
  method CollectDown(es: seq<Pair>, hi: Bytes, start: int, limit: int) returns (items: seq<Pair>)
    requires start < |es|
    ensures items == ScanDown(es, hi, start, limit)
  {
    items := [];
    var count := 0;
    var i := start;
    ghost var budget := limit;
    while i >= 0
      invariant i <= start && budget == limit - count
      invariant items + ScanDown(es, hi, i, budget) == ScanDown(es, hi, start, limit)
    {
      var e := es[i];
      // `bytes.Compare(k, startkey) == -1`
      if Below(e.first, hi) {
        ScanDownKept(es, hi, i, budget);
        items := items + [e];  // the item `[k, v]`
        count := count + 1;
        budget := budget - 1;
        i := i - 1;
        if count == limit {
          break;
        }
      } else {
        i := i - 1;
      }
    }
  }

  class HSet {
    const dbtx: Tx

    /** `NewHSet`. */
    constructor (dbtx: Tx)
      ensures this.dbtx == dbtx
    {
      this.dbtx := dbtx;
    }

    /** `hname`: the prefix byte followed by the name. */
    method Hname(name: Bytes) returns (bn: Bytes)
      ensures bn == HName(name)
    {
      bn := [HsetBucketPrefix] + name;
    }

    method Hset(name: Bytes, key: Bytes, value: Bytes) returns (err: Option<Error>)
      modifies dbtx
      ensures err == None
      ensures dbtx.buckets == SetState(old(dbtx.buckets), HName(name), key, value)
    {
      var hname := Hname(name);
      if hname !in dbtx.buckets {
        dbtx.CreateBucket(hname);
      }
      dbtx.Put(hname, key, value);
      err := None;
    }

    method Hincr(name: Bytes, key: Bytes, step: i64) returns (n: u64, err: Option<Error>)
      requires CounterReadable(dbtx.buckets, HName(name), key)
      modifies dbtx
      ensures var r := IncrResult(old(dbtx.buckets), HName(name), key, step);
              && (r.None? ==> n == 0 && err == Some(Overflow))
              && (r.Some? ==> n == r.value && err == None)
      ensures dbtx.buckets == IncrState(old(dbtx.buckets), HName(name), key, step)
    {
      var hname := Hname(name);
      if hname !in dbtx.buckets {
        dbtx.CreateBucket(hname);
      }
      assert dbtx.buckets == Opened(old(dbtx.buckets), hname);
      var oldnum: u64 := 0;
      if key in dbtx.buckets[hname].kv {
        oldnum := B2i(dbtx.buckets[hname].kv[key]);
      }
      assert Incremented(oldnum, step) == IncrResult(old(dbtx.buckets), hname, key, step);
      if step > 0 {
        if ScoreMax - step < oldnum {
          return 0, Some(Overflow);
        }
        oldnum := oldnum + step;
      } else {
        var magnitude: int := -(step as int);
        if magnitude > oldnum {
          return 0, Some(Overflow);
        }
        oldnum := oldnum - magnitude;
      }
      dbtx.Put(hname, key, I2b(oldnum));
      return oldnum, None;
    }

    method Hdel(name: Bytes, key: Bytes) returns (err: Option<Error>)
      modifies dbtx
      ensures err == None && dbtx.buckets == DelState(old(dbtx.buckets), HName(name), key)
    {
      var hname := Hname(name);
      if hname in dbtx.buckets {
        dbtx.Delete(hname, key);
      }
      err := None;
    }

    method HdelBucket(name: Bytes) returns (err: Option<Error>)
      modifies dbtx
      ensures HName(name) in old(dbtx.buckets) ==> err == None && dbtx.buckets == old(dbtx.buckets) - {HName(name)}
      ensures HName(name) !in old(dbtx.buckets) ==> err == Some(BucketNotFound) && dbtx.buckets == old(dbtx.buckets)
    {
      var hname := Hname(name);
      err := dbtx.DeleteBucket(hname);
    }

    /** The value, or "bucket_not_found" / "key_not_found". */
    method Hget(name: Bytes, key: Bytes) returns (r: Result<Bytes>)
      ensures r == Lookup(dbtx.buckets, HName(name), key)
      ensures r.Err? ==> r.error == (if HName(name) in dbtx.buckets then KeyNotFound else BucketNotFound)
    {
      var hname := Hname(name);
      if hname !in dbtx.buckets {
        return Err(BucketNotFound);
      }
      if key !in dbtx.buckets[hname].kv {
        return Err(KeyNotFound);
      }
      r := Ok(dbtx.buckets[hname].kv[key]);
    }

    method Hsequence(name: Bytes) returns (s: u64)
      ensures s == SequenceOf(dbtx.buckets, HName(name))
      ensures HName(name) !in dbtx.buckets ==> s == 0
    {
      var hname := Hname(name);
      if hname !in dbtx.buckets {
        return 0;
      }
      s := dbtx.buckets[hname].sequence;
    }

    method HsetSequence(name: Bytes, value: u64) returns (err: Option<Error>)
      modifies dbtx
      ensures err == None && dbtx.buckets == WithSequence(old(dbtx.buckets), HName(name), value)
    {
      var hname := Hname(name);
      if hname !in dbtx.buckets {
        dbtx.CreateBucket(hname);
      }
      dbtx.SetSequence(hname, value);
      err := None;
    }

    method HnextSequence(name: Bytes) returns (n: u64, err: Option<Error>)
      modifies dbtx
      ensures err == None && n == NextSequenceValue(old(dbtx.buckets), HName(name))
      ensures dbtx.buckets == WithSequence(old(dbtx.buckets), HName(name), n)
    {
      var hname := Hname(name);
      if hname !in dbtx.buckets {
        dbtx.CreateBucket(hname);
      }
      n := dbtx.NextSequence(hname);
      err := None;
    }

    /** `[k, v]` items for the keys strictly above `keystart`, ascending, at most `limit` of them
        (no bound when `limit == 0`); a negative `limit` is a capacity `make` rejects. */
    method Hscan(name: Bytes, keystart: Bytes, limit: int) returns (r: Result<seq<Pair>>)
      requires HName(name) in dbtx.buckets ==> limit >= 0
      ensures HName(name) !in dbtx.buckets ==> r == Err(BucketNotFound)
      ensures HName(name) in dbtx.buckets ==> r == Ok(EntryScan(dbtx.buckets[HName(name)].kv, keystart, limit))
    {
      var hname := Hname(name);
      if hname !in dbtx.buckets {
        return Err(BucketNotFound);
      }
      var kv := dbtx.buckets[hname].kv;
      var es := CursorOrder(kv);
      var start := SeekIndex(SortedKeys(kv.Keys), keystart);
      var items := CollectUp(es, keystart, start, limit);
      r := Ok(items);
    }

    /** As written: the guard answers "bucket_not_found" when the bucket exists, and goes on to
        open a cursor on a nil bucket (a crash) when it does not, so every call that returns fails. */
    method Hrscan(name: Bytes, keystart: Bytes, limit: int) returns (r: Result<seq<Pair>>)
      requires HName(name) in dbtx.buckets
      ensures r == Err(BucketNotFound)
    {
      var hname := Hname(name);
      if hname in dbtx.buckets {
        return Err(BucketNotFound);
      }
    }

    /** `Hrscan` with the guard the right way round: `[k, v]` items for the keys strictly below
        `keystart` (or `[255]`), walking down from `Seek(keystart)` (or `Last()`). */
    method HrscanCorrected(name: Bytes, keystart: Bytes, limit: int) returns (r: Result<seq<Pair>>)
      requires HName(name) in dbtx.buckets ==> limit >= 0
      ensures HName(name) !in dbtx.buckets ==> r == Err(BucketNotFound)
      ensures HName(name) in dbtx.buckets ==>
                r == Ok(EntryScanDown(dbtx.buckets[HName(name)].kv, ReverseBound(keystart), keystart, limit))
    {
      var hname := Hname(name);
      if hname !in dbtx.buckets {
        return Err(BucketNotFound);
      }
      var kv := dbtx.buckets[hname].kv;
      var es := CursorOrder(kv);
      var startkey: Bytes := [255];
      var s: int;
      if |keystart| > 0 {
        startkey := keystart;
        var j := SeekIndex(SortedKeys(kv.Keys), startkey);
        s := if j < |es| then j else -1;
      } else {
        s := |es| - 1;
      }
      assert s == ReverseStartIndex(kv.Keys, keystart) && startkey == ReverseBound(keystart);
      var items := CollectDown(es, startkey, s, limit);
      r := Ok(items);
    }
  }
}
