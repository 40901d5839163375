/** The ordered key-value store the collections sit on (boltdb, reduced to its visible effect):
    named buckets, each an ordered byte-keyed map with a uint64 sequence counter. */
module Store {
  import opened Bytes
  import opened Results
  import opened Utils

  datatype Bucket = Bucket(kv: map<Bytes, Bytes>, sequence: u64)

  type Buckets = map<Bytes, Bucket>

  /** `tx.Bucket(name)`, created by `tx.CreateBucket(name)` when it was nil. */
  function Opened(st: Buckets, name: Bytes): (r: Buckets)
    ensures name in r && r.Keys == st.Keys + {name}
    ensures forall n :: n in st ==> r[n] == st[n]
    ensures name !in st ==> r[name] == Bucket(map[], 0)
  {
    if name in st then st else st[name := Bucket(map[], 0)]
  }

  /** `bucket.Put(key, value)`. */
  function PutEntry(st: Buckets, name: Bytes, key: Bytes, value: Bytes): (r: Buckets)
    requires name in st
    ensures r.Keys == st.Keys
    ensures r[name] == Bucket(st[name].kv[key := value], st[name].sequence)
    ensures forall n :: n in st && n != name ==> r[n] == st[n]
  {
    st[name := st[name].(kv := st[name].kv[key := value])]
  }

  /** `bucket.Delete(key)`: deleting a missing key is no error. */
  function DeleteEntry(st: Buckets, name: Bytes, key: Bytes): (r: Buckets)
    requires name in st
    ensures r.Keys == st.Keys
    ensures r[name] == Bucket(st[name].kv - {key}, st[name].sequence)
    ensures forall n :: n in st && n != name ==> r[n] == st[n]
  {
    st[name := st[name].(kv := st[name].kv - {key})]
  }

  /** The entries of a bucket, none when it is absent. */
  function Entries(st: Buckets, name: Bytes): map<Bytes, Bytes> {
    if name in st then st[name].kv else map[]
  }

  /** `bucket.Get(key)` after `tx.Bucket(name)`, with the two failures the collections report. */
  function Lookup(st: Buckets, name: Bytes, key: Bytes): (r: Result<Bytes>)
    ensures r.Ok? <==> name in st && key in st[name].kv
    ensures r.Ok? ==> r.value == st[name].kv[key]
    ensures r == Err(BucketNotFound) <==> name !in st
  {
    if name !in st then Err(BucketNotFound)
    else if key !in st[name].kv then Err(KeyNotFound)
    else Ok(st[name].kv[key])
  }

  /** `bucket.Sequence()`, read as 0 when the bucket is absent. */
  function SequenceOf(st: Buckets, name: Bytes): u64 {
    if name in st then st[name].sequence else 0
  }

  /** `bucket.SetSequence(value)` on the bucket, created first when absent. */
  function WithSequence(st: Buckets, name: Bytes, value: u64): (r: Buckets)
    ensures r.Keys == st.Keys + {name}
    ensures r[name] == Bucket(Entries(st, name), value)
    ensures forall n :: n in st && n != name ==> r[n] == st[n]
  {
    var o := Opened(st, name);
    o[name := o[name].(sequence := value)]
  }

  /** The value `bucket.NextSequence()` hands out: the counter plus one, wrapping like a uint64. */
  function NextSequenceValue(st: Buckets, name: Bytes): u64 {
    (SequenceOf(st, name) + 1) % (ScoreMax + 1)
  }

  /** A sequence value written is the one read back, and a next-sequence value is read back too. */
  lemma SequenceRoundTrip(st: Buckets, name: Bytes, value: u64)
    ensures SequenceOf(WithSequence(st, name, value), name) == value
    ensures var n := NextSequenceValue(st, name);
            SequenceOf(WithSequence(st, name, n), name) == n && (SequenceOf(st, name) < ScoreMax ==> n == SequenceOf(st, name) + 1)
  {
  }

  /** One read-write transaction: every collection operation reads and changes `buckets`. */
  class Tx {
    var buckets: Buckets

    constructor ()
      ensures buckets == map[]
    {
      buckets := map[];
    }

    /** Every caller creates a bucket only after finding it nil. */
    method CreateBucket(name: Bytes)
      requires name !in buckets
      modifies this
      ensures buckets == old(buckets)[name := Bucket(map[], 0)]
    {
      buckets := buckets[name := Bucket(map[], 0)];
    }

    /** `tx.DeleteBucket(name)`: `ErrBucketNotFound` when there is no such bucket. */
    method DeleteBucket(name: Bytes) returns (err: Option<Error>)
      modifies this
      ensures name in old(buckets) ==> err == None && buckets == old(buckets) - {name}
      ensures name !in old(buckets) ==> err == Some(BucketNotFound) && buckets == old(buckets)
    {
      if name in buckets {
        buckets := buckets - {name};
        err := None;
      } else {
        err := Some(BucketNotFound);
      }
    }

    method Put(name: Bytes, key: Bytes, value: Bytes)
      requires name in buckets
      modifies this
      ensures buckets == PutEntry(old(buckets), name, key, value)
    {
      buckets := PutEntry(buckets, name, key, value);
    }

    method Delete(name: Bytes, key: Bytes)
      requires name in buckets
      modifies this
      ensures buckets == DeleteEntry(old(buckets), name, key)
    {
      buckets := DeleteEntry(buckets, name, key);
    }

    method SetSequence(name: Bytes, value: u64)
      requires name in buckets
      modifies this
      ensures buckets == old(buckets)[name := old(buckets)[name].(sequence := value)]
    {
      buckets := buckets[name := buckets[name].(sequence := value)];
    }

    /** Increments the counter (a Go uint64, so it wraps) and returns the new value. */
    method NextSequence(name: Bytes) returns (n: u64)
      requires name in buckets
      modifies this
      ensures n == (old(buckets)[name].sequence + 1) % (ScoreMax + 1)
      ensures buckets == old(buckets)[name := old(buckets)[name].(sequence := n)]
    {
      n := (buckets[name].sequence + 1) % (ScoreMax + 1);
      buckets := buckets[name := buckets[name].(sequence := n)];
    }
  }
}
