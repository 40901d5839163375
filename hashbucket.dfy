/** What the one-bucket hash collections (`hashmap.HashMap`, `hset.HSet`) do to the store, as
    functions of the store before the call, and the properties they keep. */
module HashBucket {
  import opened Bytes
  import opened Results
  import opened Utils
  import opened Store
  import opened Cursor

  /** `Hset`: the bucket, created when absent, maps `key` to `value`. */
  function SetState(st: Buckets, bn: Bytes, key: Bytes, value: Bytes): Buckets {
    PutEntry(Opened(st, bn), bn, key, value)
  }

  /** A stored counter is readable when it has the 8 bytes `b2i` reads. */
  predicate CounterReadable(st: Buckets, bn: Bytes, key: Bytes) {
    bn in st && key in st[bn].kv ==> |st[bn].kv[key]| >= 8
  }

  /** The counter under `key`: an absent bucket or key counts as 0. */
  function Counter(st: Buckets, bn: Bytes, key: Bytes): u64
    requires CounterReadable(st, bn, key)
  {
    if bn in st && key in st[bn].kv then B2i(st[bn].kv[key]) else 0
  }

  /** The value `Hincr` returns, None for "overflow number". */
  function IncrResult(st: Buckets, bn: Bytes, key: Bytes, step: i64): Option<u64>
    requires CounterReadable(st, bn, key)
  {
    Incremented(Counter(st, bn, key), step)
  }

  /** `Hincr`: the bucket is created before the overflow check, and the new value is written only
      when there is no overflow. */
  function IncrState(st: Buckets, bn: Bytes, key: Bytes, step: i64): Buckets
    requires CounterReadable(st, bn, key)
  {
    var r := IncrResult(st, bn, key, step);
    if r.Some? then PutEntry(Opened(st, bn), bn, key, I2b(r.value)) else Opened(st, bn)
  }

  /** `Hdel`: deletes `key` from the bucket when the bucket exists. */
  function DelState(st: Buckets, bn: Bytes, key: Bytes): Buckets {
    if bn in st then DeleteEntry(st, bn, key) else st
  }

  /** `Hmdel`: deletes every listed key from the bucket when the bucket exists. */
  function DelManyState(st: Buckets, bn: Bytes, keys: seq<Bytes>): Buckets {
    if bn in st then st[bn := st[bn].(kv := st[bn].kv - KeySet(keys))] else st
  }

  function KeySet(keys: seq<Bytes>): (r: set<Bytes>)
    ensures forall k :: k in r <==> k in keys
  {
    set k | k in keys
  }

  lemma KeySetPush(keys: seq<Bytes>, k: Bytes)
    ensures KeySet(keys + [k]) == KeySet(keys) + {k}
  {
  }

  /** The entries after putting the pairs `kvs[0]:kvs[1], kvs[2]:kvs[3], ...` in that order. */
  function Assigned(kv: map<Bytes, Bytes>, kvs: seq<Bytes>): map<Bytes, Bytes>
    requires |kvs| % 2 == 0
    decreases |kvs|
  {
    if kvs == [] then kv
    else Assigned(kv, kvs[..|kvs| - 2])[kvs[|kvs| - 2] := kvs[|kvs| - 1]]
  }

  /** `Hmset` on an existing bucket. */
  function MsetState(st: Buckets, bn: Bytes, kvs: seq<Bytes>): Buckets
    requires bn in st && |kvs| % 2 == 0
  {
    st[bn := st[bn].(kv := Assigned(st[bn].kv, kvs))]
  }

  /** The values `Hmget` pushes: one per requested key that is present, in request order. */
  function Found(kv: map<Bytes, Bytes>, keys: seq<Bytes>): seq<Bytes>
    decreases |keys|
  {
    if keys == [] then []
    else
      var last := keys[|keys| - 1];
      Found(kv, keys[..|keys| - 1]) + if last in kv then [kv[last]] else []
  }

  /** The items a hashmap reply holds for scanned pairs: `k0, v0, k1, v1, ...`. */
  function Flatten(ps: seq<Pair>): (r: seq<Bytes>)
    ensures |r| == 2 * |ps|
  {
    if ps == [] then [] else [ps[0].first, ps[0].second] + Flatten(ps[1..])
  }

  /** The items of a hashmap reply read back as `k, v` pairs (a trailing odd item is dropped). */
  function Unflatten(items: seq<Bytes>): seq<Pair>
    decreases |items|
  {
    if |items| < 2 then [] else [Pair(items[0], items[1])] + Unflatten(items[2..])
  }

  /** Each pair is an entry of the bucket. */
  predicate AreEntries(kv: map<Bytes, Bytes>, pairs: seq<Pair>) {
    forall j :: 0 <= j < |pairs| ==> pairs[j].first in kv && pairs[j].second == kv[pairs[j].first]
  }

  /** A forward scan of the entries above `lo`, as `Hscan` yields it. */
  ghost predicate IsEntryScan(kv: map<Bytes, Bytes>, lo: Bytes, limit: int, pairs: seq<Pair>) {
    IsForwardScan(kv.Keys, lo, limit, Firsts(pairs)) && AreEntries(kv, pairs)
  }

  /** A backward scan of the entries below `hi` from `start`, as a reverse scan yields it. */
  ghost predicate IsEntryScanDown(kv: map<Bytes, Bytes>, hi: Bytes, start: Option<Bytes>, limit: int, pairs: seq<Pair>) {
    IsBackwardScan(kv.Keys, hi, start, limit, Firsts(pairs)) && AreEntries(kv, pairs)
  }

  /** The bound of a reverse scan: `keystart`, or `[255]` when it is empty. */
  function ReverseBound(keystart: Bytes): Bytes {
    if |keystart| > 0 then keystart else [255]
  }

  /** Where a reverse scan starts: `Seek(keystart)`, or `Last()` when `keystart` is empty. */
  function ReverseStart(keys: set<Bytes>, keystart: Bytes): Option<Bytes> {
    if |keystart| > 0 then SeekKey(keys, keystart) else LastKey(keys)
  }

  /** What a bucket cursor walks over: the entries in ascending key order. */
  function CursorOrder(kv: map<Bytes, Bytes>): (es: seq<Pair>)
    ensures |es| == |SortedKeys(kv.Keys)|
    ensures forall j :: 0 <= j < |es| ==> SortedKeys(kv.Keys)[j] in kv && es[j] == Pair(SortedKeys(kv.Keys)[j], kv[SortedKeys(kv.Keys)[j]])
  {
    var ks := SortedKeys(kv.Keys);
    seq(|ks|, j requires 0 <= j < |ks| => assert ks[j] in ks; Pair(ks[j], kv[ks[j]]))
  }

  /** The pairs a forward scan loop collects: from `Seek(lo)` upward, keys above `lo`, at most
      `limit` of them when `limit > 0`. */
  function EntryScan(kv: map<Bytes, Bytes>, lo: Bytes, limit: int): seq<Pair> {
    ScanUp(CursorOrder(kv), lo, SeekIndex(SortedKeys(kv.Keys), lo), limit)
  }

  /** The pairs a reverse scan loop collects: from `ReverseStart(seek)` downward, keys below `hi`. */
  function EntryScanDown(kv: map<Bytes, Bytes>, hi: Bytes, seek: Bytes, limit: int): seq<Pair> {
    ScanDown(CursorOrder(kv), hi, ReverseStartIndex(kv.Keys, seek), limit)
  }

  /** The position a reverse scan starts from: that of `ReverseStart`, -1 for a nil key. */
  function ReverseStartIndex(keys: set<Bytes>, keystart: Bytes): (s: int)
    ensures -1 <= s < |SortedKeys(keys)|
    ensures s >= 0 <==> ReverseStart(keys, keystart).Some?
    ensures s >= 0 ==> ReverseStart(keys, keystart) == Some(SortedKeys(keys)[s])
  {
    var ks := SortedKeys(keys);
    if |keystart| > 0 then
      var j := SeekIndex(ks, keystart);
      if j < |ks| then j else -1
    else |ks| - 1
  }

  // ----- Properties -----

  /** After `Hset(name, key, value)`, `Hget(name, key)` gives `value`; every other key reads as
      before, except that a bucket created by the call turns "bucket not found" into "key not found". */
  lemma SetThenGet(st: Buckets, bn: Bytes, key: Bytes, value: Bytes, bn': Bytes, key': Bytes)
    ensures Lookup(SetState(st, bn, key, value), bn, key) == Ok(value)
    ensures bn' != bn || key' != key ==>
              Lookup(SetState(st, bn, key, value), bn', key')
              == if bn' == bn && bn !in st then Err(KeyNotFound) else Lookup(st, bn', key')
  {
  }

  /** `Hincr`: an absent value counts as 0; on overflow nothing is written (only the bucket may
      appear); otherwise the 8-byte new value is stored and decodes to `old + step`. */
  lemma IncrOutcome(st: Buckets, bn: Bytes, key: Bytes, step: i64)
    requires CounterReadable(st, bn, key)
    ensures (bn !in st || key !in st[bn].kv) ==> IncrResult(st, bn, key, step) == Incremented(0, step)
    ensures IncrResult(st, bn, key, step).None? ==>
              IncrState(st, bn, key, step) == Opened(st, bn) && Entries(IncrState(st, bn, key, step), bn) == Entries(st, bn)
    ensures IncrResult(st, bn, key, step).Some? ==>
              var v := IncrResult(st, bn, key, step).value;
              && v == Counter(st, bn, key) + step
              && Lookup(IncrState(st, bn, key, step), bn, key) == Ok(I2b(v))
              && B2i(I2b(v)) == v
              && Entries(IncrState(st, bn, key, step), bn) == Entries(st, bn)[key := I2b(v)]
    ensures CounterReadable(IncrState(st, bn, key, step), bn, key)
  {
    var r := IncrResult(st, bn, key, step);
    if r.Some? {
      B2iI2b(r.value);
    }
  }

  /** Two successful increments add up: the counter then reads `old + a + b`. */
  lemma IncrTwice(st: Buckets, bn: Bytes, key: Bytes, a: i64, b: i64)
    requires CounterReadable(st, bn, key)
    requires IncrResult(st, bn, key, a).Some?
    ensures CounterReadable(IncrState(st, bn, key, a), bn, key)
    ensures var st1 := IncrState(st, bn, key, a);
            var r := IncrResult(st1, bn, key, b);
            && (r.Some? <==> ScoreMin <= Counter(st, bn, key) + a + b <= ScoreMax)
            && (r.Some? ==> r.value == Counter(st, bn, key) + a + b)
  {
    var v1 := IncrResult(st, bn, key, a).value;
    IncrOutcome(st, bn, key, a);
    var st1 := IncrState(st, bn, key, a);
    assert Lookup(st1, bn, key) == Ok(I2b(v1));
    assert Counter(st1, bn, key) == v1;
  }

  /** `Hdel` removes `key` and only `key`. */
  lemma DelOutcome(st: Buckets, bn: Bytes, key: Bytes, bn': Bytes, key': Bytes)
    ensures Lookup(DelState(st, bn, key), bn, key) == if bn in st then Err(KeyNotFound) else Err(BucketNotFound)
    ensures bn' != bn || key' != key ==> Lookup(DelState(st, bn, key), bn', key') == Lookup(st, bn', key')
  {
  }

  /** `Hmdel` removes exactly the listed keys. */
  lemma DelManyOutcome(st: Buckets, bn: Bytes, keys: seq<Bytes>, key': Bytes)
    ensures key' in keys ==> Lookup(DelManyState(st, bn, keys), bn, key').Err?
    ensures key' !in keys ==> Lookup(DelManyState(st, bn, keys), bn, key') == Lookup(st, bn, key')
    ensures forall n :: n != bn ==> Entries(DelManyState(st, bn, keys), n) == Entries(st, n)
  {
  }

  /** Deleting a key one at a time is what `Hmdel` does with a one-key list. */
  lemma DelManySingle(st: Buckets, bn: Bytes, key: Bytes)
    ensures DelManyState(st, bn, [key]) == DelState(st, bn, key)
  {
    assert KeySet([key]) == {key};
  }

  /** Deleting the listed keys and then one more is deleting the longer list. */
  lemma DelManyStep(st: Buckets, bn: Bytes, keys: seq<Bytes>, key: Bytes)
    ensures DelManyState(st, bn, keys + [key]) == DelState(DelManyState(st, bn, keys), bn, key)
  {
    KeySetPush(keys, key);
    if bn in st {
      var kv := st[bn].kv;
      assert kv - KeySet(keys) - {key} == kv - KeySet(keys + [key]);
    }
  }

  /** `Hmset` keys: the bucket holds its old keys and the keys at even positions. */
  lemma {:induction false} AssignedKeys(kv: map<Bytes, Bytes>, kvs: seq<Bytes>)
    requires |kvs| % 2 == 0
    ensures forall k :: k in Assigned(kv, kvs) <==> k in kv || exists i :: 0 <= i < |kvs| && i % 2 == 0 && kvs[i] == k
    decreases |kvs|
  {
    if kvs != [] {
      var init := kvs[..|kvs| - 2];
      AssignedKeys(kv, init);
      forall k ensures k in Assigned(kv, kvs) <==> k in kv || exists i :: 0 <= i < |kvs| && i % 2 == 0 && kvs[i] == k {
        if k != kvs[|kvs| - 2] && exists i :: 0 <= i < |kvs| && i % 2 == 0 && kvs[i] == k {
          var i :| 0 <= i < |kvs| && i % 2 == 0 && kvs[i] == k;
          assert init[i] == k;
        }
        if exists i :: 0 <= i < |init| && i % 2 == 0 && init[i] == k {
          var i :| 0 <= i < |init| && i % 2 == 0 && init[i] == k;
          assert kvs[i] == k;
        }
      }
    }
  }

  /** `Hmset` puts the pairs left to right, so the last pair with a given key wins. */
  lemma {:induction false} AssignedLastWins(kv: map<Bytes, Bytes>, kvs: seq<Bytes>, i: nat)
    requires |kvs| % 2 == 0 && i % 2 == 0 && i + 1 < |kvs|
    requires forall j :: i < j < |kvs| && j % 2 == 0 ==> kvs[j] != kvs[i]
    ensures kvs[i] in Assigned(kv, kvs) && Assigned(kv, kvs)[kvs[i]] == kvs[i + 1]
    decreases |kvs|
  {
    if i + 2 < |kvs| {
      var init := kvs[..|kvs| - 2];
      assert kvs[|kvs| - 2] != kvs[i];
      forall j | i < j < |init| && j % 2 == 0 ensures init[j] != init[i] {
        assert init[j] == kvs[j];
      }
      AssignedLastWins(kv, init, i);
    }
  }

  /** A key not at an even position keeps its entry through `Hmset`. */
  lemma {:induction false} AssignedElsewhere(kv: map<Bytes, Bytes>, kvs: seq<Bytes>, k: Bytes)
    requires |kvs| % 2 == 0
    requires forall i :: 0 <= i < |kvs| && i % 2 == 0 ==> kvs[i] != k
    ensures k in Assigned(kv, kvs) <==> k in kv
    ensures k in kv ==> Assigned(kv, kvs)[k] == kv[k]
    decreases |kvs|
  {
    if kvs != [] {
      var init := kvs[..|kvs| - 2];
      assert kvs[|kvs| - 2] != k;
      forall i | 0 <= i < |init| && i % 2 == 0 ensures init[i] != k {
        assert init[i] == kvs[i];
      }
      AssignedElsewhere(kv, init, k);
    }
  }

  /** `Hmget` yields at most one value per key, each the value of a requested key, and exactly the
      values of all keys, in order, when every key is present. */
  lemma {:induction false} FoundValues(kv: map<Bytes, Bytes>, keys: seq<Bytes>)
    ensures |Found(kv, keys)| <= |keys|
    ensures forall v :: v in Found(kv, keys) ==> exists k :: k in keys && k in kv && kv[k] == v
    ensures (forall k :: k in keys ==> k in kv) ==>
              Found(kv, keys) == seq(|keys|, j requires 0 <= j < |keys| && keys[j] in kv => kv[keys[j]])
    decreases |keys|
  {
    if keys != [] {
      var init := keys[..|keys| - 1];
      var last := keys[|keys| - 1];
      FoundValues(kv, init);
      forall v | v in Found(kv, keys) ensures exists k :: k in keys && k in kv && kv[k] == v {
        if v in Found(kv, init) {
          var k :| k in init && k in kv && kv[k] == v;
          assert k in keys;
        } else {
          assert last in keys;
        }
      }
    }
  }

  lemma FlattenCons(p: Pair, ps: seq<Pair>)
    ensures Flatten([p] + ps) == [p.first, p.second] + Flatten(ps)
  {
    assert ([p] + ps)[1..] == ps;
  }

  /** One step of a forward scan loop that takes the entry at `i`, read on the reply's items. */
  lemma FlattenScanUp(es: seq<Pair>, lo: Bytes, i: nat, budget: int)
    requires i < |es| && Below(lo, es[i].first)
    ensures Flatten(ScanUp(es, lo, i, budget))
            == [es[i].first, es[i].second] + if budget == 1 then [] else Flatten(ScanUp(es, lo, i + 1, budget - 1))
  {
    ScanUpKept(es, lo, i, budget);
    FlattenCons(es[i], if budget == 1 then [] else ScanUp(es, lo, i + 1, budget - 1));
  }

  /** One step of a reverse scan loop that takes the entry at `i`, read on the reply's items. */
  lemma FlattenScanDown(es: seq<Pair>, hi: Bytes, i: int, budget: int)
    requires 0 <= i < |es| && Below(es[i].first, hi)
    ensures Flatten(ScanDown(es, hi, i, budget))
            == [es[i].first, es[i].second] + if budget == 1 then [] else Flatten(ScanDown(es, hi, i - 1, budget - 1))
  {
    ScanDownKept(es, hi, i, budget);
    FlattenCons(es[i], if budget == 1 then [] else ScanDown(es, hi, i - 1, budget - 1));
  }

  /** Reading a reply's items back as pairs gives the pairs that were flattened into it. */
  lemma {:induction false} UnflattenFlatten(ps: seq<Pair>)
    ensures Unflatten(Flatten(ps)) == ps
    decreases |ps|
  {
    if ps != [] {
      assert Flatten(ps)[2..] == Flatten(ps[1..]);
      UnflattenFlatten(ps[1..]);
      assert ps == [ps[0]] + ps[1..];
    }
  }

  /** The entries of `es` are entries of the bucket. */
  lemma CursorEntries(kv: map<Bytes, Bytes>, r: seq<Pair>)
    requires forall n :: 0 <= n < |r| ==> r[n] in CursorOrder(kv)
    ensures AreEntries(kv, r)
  {
    var es := CursorOrder(kv);
    forall n | 0 <= n < |r| ensures r[n].first in kv && r[n].second == kv[r[n].first] {
      assert r[n] in es;
      var j :| 0 <= j < |es| && es[j] == r[n];
    }
  }

  lemma CursorOrderKeys(kv: map<Bytes, Bytes>)
    ensures Firsts(CursorOrder(kv)) == SortedKeys(kv.Keys)
  {
  }

  /** What a forward scan loop collects is exactly the forward scan described by `IsEntryScan`. */
  lemma EntryScanMeetsSpec(kv: map<Bytes, Bytes>, lo: Bytes, limit: int)
    ensures IsEntryScan(kv, lo, limit, EntryScan(kv, lo, limit))
  {
    CursorOrderKeys(kv);
    ScanUpIsForwardScan(kv.Keys, CursorOrder(kv), lo, limit, EntryScan(kv, lo, limit));
    CursorEntries(kv, EntryScan(kv, lo, limit));
  }

  /** What a reverse scan loop collects is exactly the backward scan described by `IsEntryScanDown`. */
  lemma EntryScanDownMeetsSpec(kv: map<Bytes, Bytes>, hi: Bytes, seek: Bytes, limit: int)
    ensures IsEntryScanDown(kv, hi, ReverseStart(kv.Keys, seek), limit, EntryScanDown(kv, hi, seek, limit))
  {
    CursorOrderKeys(kv);
    var s := ReverseStartIndex(kv.Keys, seek);
    ScanDownIsBackwardScan(kv.Keys, CursorOrder(kv), hi, s, limit, EntryScanDown(kv, hi, seek, limit));
    CursorEntries(kv, EntryScanDown(kv, hi, seek, limit));
  }

  /** Two forward entry scans that both meet the description are the same. */
  lemma EntryScanUnique(kv: map<Bytes, Bytes>, lo: Bytes, limit: int, a: seq<Pair>, b: seq<Pair>)
    requires IsEntryScan(kv, lo, limit, a) && IsEntryScan(kv, lo, limit, b)
    ensures a == b
  {
    ForwardScanUnique(kv.Keys, lo, limit, Firsts(a), Firsts(b));
    assert |a| == |Firsts(a)|;
    forall j | 0 <= j < |a| ensures a[j] == b[j] {
      assert Firsts(a)[j] == Firsts(b)[j];
    }
  }

  /** Two reverse entry scans that both meet the description are the same. */
  lemma EntryScanDownUnique(kv: map<Bytes, Bytes>, hi: Bytes, start: Option<Bytes>, limit: int, a: seq<Pair>, b: seq<Pair>)
    requires IsEntryScanDown(kv, hi, start, limit, a) && IsEntryScanDown(kv, hi, start, limit, b)
    ensures a == b
  {
    BackwardScanUnique(kv.Keys, hi, start, limit, Firsts(a), Firsts(b));
    assert |a| == |Firsts(a)|;
    forall j | 0 <= j < |a| ensures a[j] == b[j] {
      assert Firsts(a)[j] == Firsts(b)[j];
    }
  }
}
