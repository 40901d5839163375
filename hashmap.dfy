/** `hashmap.HashMap`: a named hash held in one bucket `0x30‖name`, answering through `Reply`
    records. Every operation runs inside one store transaction `dbtx`. */
module Hashmap {
  import opened Bytes
  import opened Results
  import opened Utils
  import opened Store
  import opened Cursor
  import opened HashBucket

  /** The outcome record of the hashmap's read operations: an error, a message and byte items. */
  class Reply {
    var err: Option<Error>
    var msg: string
    var items: seq<Bytes>

    /** `NewReply`: no error, no message, no items. */
    constructor ()
      ensures err == None && msg == "" && items == []
    {
      err := None;
      msg := "";
      items := [];
    }

    method SetErr(e: Option<Error>) returns (r: Reply)
      modifies this
      ensures r == this && err == e && msg == old(msg) && items == old(items)
    {
      err := e;
      r := this;
    }

    method SetMsg(m: string) returns (r: Reply)
      modifies this
      ensures r == this && msg == m && err == old(err) && items == old(items)
    {
      msg := m;
      r := this;
    }

    method Push(item: Bytes) returns (r: Reply)
      modifies this
      ensures r == this && items == old(items) + [item] && err == old(err) && msg == old(msg)
    {
      items := items + [item];
      r := this;
    }

    function Error(): (e: Option<Error>)
      reads this
      ensures e == err
    {
      err
    }
  }

  /** Everything a variadic `connect` is given, one slice after another. */
  function Concat(slices: seq<Bytes>): Bytes
    decreases |slices|
  {
    if slices == [] then [] else Concat(slices[..|slices| - 1]) + slices[|slices| - 1]
  }

  lemma ConcatPair(a: Bytes, b: Bytes)
    ensures Concat([a, b]) == a + b
    ensures |Concat([a, b])| == |a| + |b|
  {
    assert [a, b][..1] == [a] && [a][..0] == [];
    assert Concat([a]) == a;
  }

  /** The bucket of the hash called `name`. */
  function HashName(name: Bytes): Bytes {
    BucketName(HashMapPrefix, name)
  }

  /** The cursor loop of `Hscan`: from position `start` upward, push `k, v` for each entry whose
      key is above `lo`, stopping once `limit` pairs are pushed. */
  method WalkUp(reply: Reply, es: seq<Pair>, lo: Bytes, start: nat, limit: int)
    modifies reply
    ensures reply.items == old(reply.items) + Flatten(ScanUp(es, lo, start, limit))
    ensures reply.err == old(reply.err) && reply.msg == old(reply.msg)
  {
    var n := 0;
    var i := start;
    ghost var budget := limit;
    while i < |es|
      invariant budget == limit - n
      invariant reply.err == old(reply.err) && reply.msg == old(reply.msg)
      invariant reply.items + Flatten(ScanUp(es, lo, i, budget)) == old(reply.items) + Flatten(ScanUp(es, lo, start, limit))
    {
      var e := es[i];
      // `bytes.Compare(k, keystart) == 1` (see `CompareAbove`)
      if Below(lo, e.first) {
        FlattenScanUp(es, lo, i, budget);
        var _ := reply.Push(e.first);
        var _ := reply.Push(e.second);
        n := n + 1;
        budget := budget - 1;
        i := i + 1;
        if n == limit {
          break;
        }
      } else {
        i := i + 1;
      }
    }
  }

  /** The cursor loop of `Hrscan`: from position `start` downward, push `k, v` for each entry whose
      key is below `hi`, stopping once `limit` pairs are pushed. */
  method WalkDown(reply: Reply, es: seq<Pair>, hi: Bytes, start: int, limit: int)
    requires start < |es|
    modifies reply
    ensures reply.items == old(reply.items) + Flatten(ScanDown(es, hi, start, limit))
    ensures reply.err == old(reply.err) && reply.msg == old(reply.msg)
  {
    var n := 0;
    var i := start;
    ghost var budget := limit;
    while i >= 0
      invariant i <= start && budget == limit - n
      invariant reply.err == old(reply.err) && reply.msg == old(reply.msg)
      invariant reply.items + Flatten(ScanDown(es, hi, i, budget)) == old(reply.items) + Flatten(ScanDown(es, hi, start, limit))
    {
      var e := es[i];
      // `bytes.Compare(k, startkey) == -1`
      if Below(e.first, hi) {
        FlattenScanDown(es, hi, i, budget);
        var _ := reply.Push(e.first);
        var _ := reply.Push(e.second);
        n := n + 1;
        budget := budget - 1;
        i := i - 1;
        if n == limit {
          break;
        }
      } else {
        i := i - 1;
      }
    }
  }

  class HashMap {
    const dbtx: Tx

    /** `NewHashMap`. */
    constructor (dbtx: Tx)
      ensures this.dbtx == dbtx
    {
      this.dbtx := dbtx;
    }

    /** `connect`: the slices joined in order. */
    method Connect(slices: seq<Bytes>) returns (dst: Bytes)
      ensures dst == Concat(slices)
    {
      dst := [];
      var i := 0;
      while i < |slices|
        invariant 0 <= i <= |slices| && dst == Concat(slices[..i])
      {
        assert slices[..i + 1][..i] == slices[..i];
        var s := slices[i];
        var j := 0;
        while j < |s|
          invariant 0 <= j <= |s| && dst == Concat(slices[..i]) + s[..j]
        {
          dst := dst + [s[j]];
          j := j + 1;
        }
        i := i + 1;
      }
      assert slices[..i] == slices;
    }

    /** `bname`: `0x30` followed by the name. */
    method Bname(name: Bytes) returns (bn: Bytes)
      ensures bn == HashName(name)
    {
      bn := Connect([[HashMapPrefix], name]);
      ConcatPair([HashMapPrefix], name);
    }

    method Hset(name: Bytes, key: Bytes, value: Bytes) returns (err: Option<Error>)
      modifies dbtx
      ensures err == None
      ensures dbtx.buckets == SetState(old(dbtx.buckets), HashName(name), key, value)
    {
      var bname := Connect([[HashMapPrefix], name]);
      ConcatPair([HashMapPrefix], name);
      if bname !in dbtx.buckets {
        dbtx.CreateBucket(bname);
      }
      dbtx.Put(bname, key, value);
      err := None;
    }

    /** As written: the guard that should create a missing bucket tests the name, which is never
        nil, so the bucket must already exist when the arguments are well formed. */
    method Hmset(name: Bytes, kvs: seq<Bytes>) returns (err: Option<Error>)
      requires |kvs| > 0 && |kvs| % 2 == 0 ==> HashName(name) in dbtx.buckets
      modifies dbtx
      ensures |kvs| == 0 || |kvs| % 2 != 0 ==> err == Some(OddArguments) && dbtx.buckets == old(dbtx.buckets)
      ensures |kvs| > 0 && |kvs| % 2 == 0 ==>
                err == None && dbtx.buckets == MsetState(old(dbtx.buckets), HashName(name), kvs)
    {
      if |kvs| == 0 || |kvs| % 2 != 0 {
        return Some(OddArguments);
      }
      var bname := Connect([[HashMapPrefix], name]);
      ConcatPair([HashMapPrefix], name);
      err := PutPairs(bname, kvs);
    }

    /** `Hmset` with the guard testing the bucket, as evidently intended: a missing bucket is created. */
    method HmsetCorrected(name: Bytes, kvs: seq<Bytes>) returns (err: Option<Error>)
      modifies dbtx
      ensures |kvs| == 0 || |kvs| % 2 != 0 ==> err == Some(OddArguments) && dbtx.buckets == old(dbtx.buckets)
      ensures |kvs| > 0 && |kvs| % 2 == 0 ==>
                err == None && dbtx.buckets == MsetState(Opened(old(dbtx.buckets), HashName(name)), HashName(name), kvs)
    {
      if |kvs| == 0 || |kvs| % 2 != 0 {
        return Some(OddArguments);
      }
      var bname := Connect([[HashMapPrefix], name]);
      ConcatPair([HashMapPrefix], name);
      if bname !in dbtx.buckets {
        dbtx.CreateBucket(bname);
      }
      err := PutPairs(bname, kvs);
    }

    /** The `Put` loop of `Hmset`: the pairs of `kvs`, left to right. */
    method PutPairs(bname: Bytes, kvs: seq<Bytes>) returns (err: Option<Error>)
      requires bname in dbtx.buckets && |kvs| % 2 == 0
      modifies dbtx
      ensures err == None && dbtx.buckets == MsetState(old(dbtx.buckets), bname, kvs)
    {
      var i := 0;
      while i < |kvs| - 1
        invariant 0 <= i <= |kvs| && i % 2 == 0
        invariant dbtx.buckets == MsetState(old(dbtx.buckets), bname, kvs[..i])
      {
        assert kvs[..i + 2][..i] == kvs[..i];
        dbtx.Put(bname, kvs[i], kvs[i + 1]);
        i := i + 2;
      }
      assert kvs[..i] == kvs;
      err := None;
    }

    method Hincr(name: Bytes, key: Bytes, step: i64) returns (n: u64, err: Option<Error>)
      requires CounterReadable(dbtx.buckets, HashName(name), key)
      modifies dbtx
      ensures var r := IncrResult(old(dbtx.buckets), HashName(name), key, step);
              && (r.None? ==> n == 0 && err == Some(Overflow))
              && (r.Some? ==> n == r.value && err == None)
      ensures dbtx.buckets == IncrState(old(dbtx.buckets), HashName(name), key, step)
    {
      var bname := Connect([[HashMapPrefix], name]);
      ConcatPair([HashMapPrefix], name);
      if bname !in dbtx.buckets {
        dbtx.CreateBucket(bname);
      }
      assert dbtx.buckets == Opened(old(dbtx.buckets), bname);
      var oldnum: u64 := 0;
      if key in dbtx.buckets[bname].kv {
        oldnum := B2i(dbtx.buckets[bname].kv[key]);
      }
      assert Incremented(oldnum, step) == IncrResult(old(dbtx.buckets), bname, key, step);
      if step > 0 {
        if ScoreMax - step < oldnum {
          return 0, Some(Overflow);
        }
        oldnum := oldnum + step;
      } else {
        var magnitude: int := -(step as int);
        if magnitude > oldnum {
          return 0, Some(Overflow);
        }
        oldnum := oldnum - magnitude;
      }
      dbtx.Put(bname, key, I2b(oldnum));
      return oldnum, None;
    }

    method Hdel(name: Bytes, key: Bytes) returns (err: Option<Error>)
      modifies dbtx
      ensures err == None && dbtx.buckets == DelState(old(dbtx.buckets), HashName(name), key)
    {
      var bname := Bname(name);
      if bname in dbtx.buckets {
        dbtx.Delete(bname, key);
      }
      err := None;
    }

    method Hmdel(name: Bytes, keys: seq<Bytes>) returns (err: Option<Error>)
      modifies dbtx
      ensures err == None && dbtx.buckets == DelManyState(old(dbtx.buckets), HashName(name), keys)
    {
      var bname := Bname(name);
      if bname in dbtx.buckets {
        var i := 0;
        assert old(dbtx.buckets)[bname].kv - KeySet(keys[..0]) == old(dbtx.buckets)[bname].kv;
        while i < |keys|
          invariant 0 <= i <= |keys|
          invariant dbtx.buckets == DelManyState(old(dbtx.buckets), bname, keys[..i])
        {
          assert keys[..i + 1] == keys[..i] + [keys[i]];
          DelManyStep(old(dbtx.buckets), bname, keys[..i], keys[i]);
          dbtx.Delete(bname, keys[i]);
          i := i + 1;
        }
        assert keys[..i] == keys;
      }
      err := None;
    }

    method HdelBucket(name: Bytes) returns (err: Option<Error>)
      modifies dbtx
      ensures HashName(name) in old(dbtx.buckets) ==> err == None && dbtx.buckets == old(dbtx.buckets) - {HashName(name)}
      ensures HashName(name) !in old(dbtx.buckets) ==> err == Some(BucketNotFound) && dbtx.buckets == old(dbtx.buckets)
    {
      var bname := Bname(name);
      err := dbtx.DeleteBucket(bname);
    }

    method Hget(name: Bytes, key: Bytes) returns (reply: Reply)
      ensures fresh(reply)
      ensures var l := Lookup(dbtx.buckets, HashName(name), key);
              && (l.Err? ==> reply.err == Some(l.error) && reply.msg == "" && reply.items == [])
              && (l.Ok? ==> reply.err == None && reply.msg == "ok" && reply.items == [l.value])
    {
      var bname := Bname(name);
      reply := new Reply();
      if bname !in dbtx.buckets {
        reply := reply.SetErr(Some(BucketNotFound));
        return;
      }
      if key !in dbtx.buckets[bname].kv {
        reply := reply.SetErr(Some(KeyNotFound));
        return;
      }
      reply := reply.SetMsg("ok");
      reply := reply.Push(dbtx.buckets[bname].kv[key]);
    }

    method Hsequence(name: Bytes) returns (s: u64)
      ensures s == SequenceOf(dbtx.buckets, HashName(name))
    {
      var bname := Bname(name);
      if bname !in dbtx.buckets {
        return 0;
      }
      s := dbtx.buckets[bname].sequence;
    }

    method HsetSequence(name: Bytes, value: u64) returns (err: Option<Error>)
      modifies dbtx
      ensures err == None && dbtx.buckets == WithSequence(old(dbtx.buckets), HashName(name), value)
    {
      var bname := Bname(name);
      if bname !in dbtx.buckets {
        dbtx.CreateBucket(bname);
      }
      dbtx.SetSequence(bname, value);
      err := None;
    }

    method HnextSequence(name: Bytes) returns (n: u64, err: Option<Error>)
      modifies dbtx
      ensures err == None && n == NextSequenceValue(old(dbtx.buckets), HashName(name))
      ensures dbtx.buckets == WithSequence(old(dbtx.buckets), HashName(name), n)
    {
      var bname := Bname(name);
      if bname !in dbtx.buckets {
        dbtx.CreateBucket(bname);
      }
      n := dbtx.NextSequence(bname);
      err := None;
    }

    method Hmget(name: Bytes, keys: seq<Bytes>) returns (reply: Reply)
      ensures fresh(reply)
      ensures HashName(name) !in dbtx.buckets ==> reply.err == Some(BucketNotFound) && reply.msg == "" && reply.items == []
      ensures HashName(name) in dbtx.buckets ==>
                reply.err == None && reply.msg == "ok" && reply.items == Found(dbtx.buckets[HashName(name)].kv, keys)
    {
      var bname := Bname(name);
      reply := new Reply();
      if bname !in dbtx.buckets {
        reply := reply.SetErr(Some(BucketNotFound));
        return;
      }
      reply := reply.SetMsg("ok");
      var kv := dbtx.buckets[bname].kv;
      var i := 0;
      while i < |keys|
        invariant 0 <= i <= |keys|
        invariant reply.err == None && reply.msg == "ok" && reply.items == Found(kv, keys[..i])
      {
        assert keys[..i + 1][..i] == keys[..i];
        if keys[i] in kv {
          var _ := reply.Push(kv[keys[i]]);
        }
        i := i + 1;
      }
      assert keys[..i] == keys;
    }

    /** Pairs `k, v` flattened, for the keys strictly above `keystart`, ascending, at most `limit`
        pairs (no bound when `limit <= 0`). */
    method Hscan(name: Bytes, keystart: Bytes, limit: int) returns (reply: Reply)
      ensures fresh(reply)
      ensures HashName(name) !in dbtx.buckets ==> reply.err == Some(BucketNotFound) && reply.msg == "" && reply.items == []
      ensures HashName(name) in dbtx.buckets ==>
                reply.err == None && reply.msg == "ok" && reply.items == Flatten(EntryScan(dbtx.buckets[HashName(name)].kv, keystart, limit))
    {
      var bname := Bname(name);
      reply := new Reply();
      if bname !in dbtx.buckets {
        reply := reply.SetErr(Some(BucketNotFound));
        return;
      }
      reply := reply.SetMsg("ok");
      var kv := dbtx.buckets[bname].kv;
      var es := CursorOrder(kv);
      var start := SeekIndex(SortedKeys(kv.Keys), keystart);
      WalkUp(reply, es, keystart, start, limit);
    }

    /** As written: the guard answers "bucket not found" when the bucket exists, and goes on to
        walk a nil bucket (a crash) when it does not, so every call that returns fails. */
    method Hrscan(name: Bytes, keystart: Bytes, limit: int) returns (reply: Reply)
      requires HashName(name) in dbtx.buckets
      ensures fresh(reply)
      ensures reply.err == Some(BucketNotFound) && reply.msg == "" && reply.items == []
    {
      var bname := Bname(name);
      reply := new Reply();
      if bname in dbtx.buckets {
        reply := reply.SetErr(Some(BucketNotFound));
        return;
      }
    }

    /** `Hrscan` with the guard the right way round: pairs `k, v` flattened for the keys strictly
        below `keystart` (or `[255]`), walking down from `Seek(keystart)` (or `Last()`). */
    method HrscanCorrected(name: Bytes, keystart: Bytes, limit: int) returns (reply: Reply)
      ensures fresh(reply)
      ensures HashName(name) !in dbtx.buckets ==> reply.err == Some(BucketNotFound) && reply.msg == "" && reply.items == []
      ensures HashName(name) in dbtx.buckets ==>
                && reply.err == None && reply.msg == "ok"
                && reply.items == Flatten(EntryScanDown(dbtx.buckets[HashName(name)].kv, ReverseBound(keystart), keystart, limit))
    {
      var bname := Bname(name);
      reply := new Reply();
      if bname !in dbtx.buckets {
        reply := reply.SetErr(Some(BucketNotFound));
        return;
      }
      var kv := dbtx.buckets[bname].kv;
      var es := CursorOrder(kv);
      var startkey: Bytes := [255];
      var s: int;
      if |keystart| > 0 {
        startkey := keystart;
        var j := SeekIndex(SortedKeys(kv.Keys), startkey);
        s := if j < |es| then j else -1;
      } else {
        s := |es| - 1;
      }
      assert s == ReverseStartIndex(kv.Keys, keystart) && startkey == ReverseBound(keystart);
      reply := reply.SetMsg("ok");
      WalkDown(reply, es, startkey, s, limit);
    }
  }
}
