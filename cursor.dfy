/** Bucket cursors and what a bounded cursor walk yields. A cursor is a position in the
    bucket's keys sorted by `bytes.Compare`; `Seek`, `Next`, `Prev` and `Last` move along it. */
module Cursor {
  import opened Bytes
  import opened Results

  /** One `[][]byte` item of a scan result. */
  datatype Pair = Pair(first: Bytes, second: Bytes)

  function Firsts(items: seq<Pair>): (r: seq<Bytes>)
    ensures |r| == |items| && forall n :: 0 <= n < |items| ==> r[n] == items[n].first
  {
    seq(|items|, n requires 0 <= n < |items| => items[n].first)
  }

  lemma FirstsPush(items: seq<Pair>, p: Pair)
    ensures Firsts(items + [p]) == Firsts(items) + [p.first]
  {
  }

  predicate Ascending(ks: seq<Bytes>) {
    forall i, j :: 0 <= i < j < |ks| ==> Below(ks[i], ks[j])
  }

  predicate Descending(ks: seq<Bytes>) {
    forall i, j :: 0 <= i < j < |ks| ==> Below(ks[j], ks[i])
  }

  lemma BelowAsymmetricAll()
    ensures forall a, b :: Below(a, b) ==> !Below(b, a)
  {
    forall a, b | Below(a, b) ensures !Below(b, a) {
      BelowAsymmetric(a, b);
    }
  }

  /** Every non-empty finite set of keys has a least key. */
  /** `m` is the least key of `s`. */
  predicate IsLeast(m: Bytes, s: set<Bytes>) {
    m in s && forall y :: y in s && y != m ==> Below(m, y)
  }

  lemma {:induction false} MinExists(s: set<Bytes>)
    requires s != {}
    ensures exists m :: IsLeast(m, s)
    decreases |s|
  {
    var x :| x in s;
    if s == {x} {
      assert IsLeast(x, s);
    } else {
      MinExists(s - {x});
      var m :| IsLeast(m, s - {x});
      BelowTotal(x, m);
      if Below(x, m) {
        forall y | y in s && y != x ensures Below(x, y) {
          if y != m { BelowTransitive(x, m, y); }
        }
        assert IsLeast(x, s);
      } else {
        assert IsLeast(m, s);
      }
    }
  }

  function MinKey(s: set<Bytes>): (m: Bytes)
    requires s != {}
    ensures IsLeast(m, s)
  {
    MinExists(s);
    BelowAsymmetricAll();
    var m :| IsLeast(m, s);
    m
  }

  /** The keys of a bucket in cursor order. */
  function SortedKeys(s: set<Bytes>): (ks: seq<Bytes>)
    ensures Ascending(ks)
    ensures forall c :: c in ks <==> c in s
    decreases |s|
  {
    if s == {} then []
    else
      var m := MinKey(s);
      var rest := SortedKeys(s - {m});
      assert forall j :: 0 <= j < |rest| ==> Below(m, rest[j]) by {
        forall j | 0 <= j < |rest| ensures Below(m, rest[j]) {
          assert rest[j] in rest;
        }
      }
      [m] + rest
  }

  /** The position `cursor.Seek(k)` lands on: the first key not below `k` (|ks| is the nil key). */
  function SeekIndex(ks: seq<Bytes>, k: Bytes): (i: nat)
    ensures i <= |ks|
    ensures forall j :: 0 <= j < i ==> Below(ks[j], k)
    ensures i < |ks| ==> !Below(ks[i], k)
  {
    if ks == [] || !Below(ks[0], k) then 0 else 1 + SeekIndex(ks[1..], k)
  }

  /** In a sorted key sequence, position order is key order. */
  lemma AscendingOrder(ks: seq<Bytes>, i: int, j: int)
    requires Ascending(ks) && 0 <= i < |ks| && 0 <= j < |ks|
    ensures Below(ks[i], ks[j]) <==> i < j
  {
    if j < i { BelowAsymmetric(ks[j], ks[i]); }
  }

  /** `cursor.Seek(k)`: the least key not below `k`; None (a nil key) when every key is below it. */
  function SeekKey(keys: set<Bytes>, k: Bytes): (r: Option<Bytes>)
    ensures r.None? <==> forall c :: c in keys ==> Below(c, k)
    ensures r.Some? ==> r.value in keys && !Below(r.value, k)
    ensures r.Some? ==> forall c :: c in keys && Below(c, r.value) ==> Below(c, k)
  {
    var ks := SortedKeys(keys);
    var i := SeekIndex(ks, k);
    if i < |ks| then
      assert forall c :: c in keys && Below(c, ks[i]) ==> Below(c, k) by {
        forall c | c in keys && Below(c, ks[i]) ensures Below(c, k) {
          var j :| 0 <= j < |ks| && ks[j] == c;
          AscendingOrder(ks, j, i);
        }
      }
      Some(ks[i])
    else
      None
  }

  /** `cursor.Last()`: the greatest key, None when the bucket is empty. */
  function LastKey(keys: set<Bytes>): (r: Option<Bytes>)
    ensures r.None? <==> keys == {}
    ensures r.Some? ==> r.value in keys && forall c :: c in keys && c != r.value ==> Below(c, r.value)
  {
    var ks := SortedKeys(keys);
    if |ks| == 0 then
      assert forall c :: c !in keys;
      None
    else
      assert forall c :: c in keys && c != ks[|ks| - 1] ==> Below(c, ks[|ks| - 1]) by {
        forall c | c in keys && c != ks[|ks| - 1] ensures Below(c, ks[|ks| - 1]) {
          var j :| 0 <= j < |ks| && ks[j] == c;
          AscendingOrder(ks, j, |ks| - 1);
        }
      }
      Some(ks[|ks| - 1])
  }

  /** `c` is at or below the key a backward walk starts from (nothing is, when it starts at nil). */
  predicate AtOrBelow(c: Bytes, start: Option<Bytes>) {
    start.Some? && (c == start.value || Below(c, start.value))
  }

  /** `out` is what a cursor walk upward yields when it keeps the keys strictly above `lo` and
      stops once it holds `limit` of them (no bound when `limit <= 0`): ascending, each a key
      above `lo`, at most `limit`, and every key above `lo` it leaves out lies beyond a full result. */
  ghost predicate IsForwardScan(keys: set<Bytes>, lo: Bytes, limit: int, out: seq<Bytes>) {
    && Ascending(out)
    && (forall n :: 0 <= n < |out| ==> out[n] in keys && Below(lo, out[n]))
    && (limit > 0 ==> |out| <= limit)
    && (forall c :: c in keys && Below(lo, c) && c !in out ==>
          limit > 0 && |out| == limit && Below(out[|out| - 1], c))
  }

  /** `out` is what a cursor walk downward from `start` yields when it keeps the keys strictly
      below `hi` and stops once it holds `limit` of them (no bound when `limit <= 0`). */
  ghost predicate IsBackwardScan(keys: set<Bytes>, hi: Bytes, start: Option<Bytes>, limit: int, out: seq<Bytes>) {
    && Descending(out)
    && (forall n :: 0 <= n < |out| ==> out[n] in keys && Below(out[n], hi) && AtOrBelow(out[n], start))
    && (limit > 0 ==> |out| <= limit)
    && (forall c :: c in keys && Below(c, hi) && AtOrBelow(c, start) && c !in out ==>
          limit > 0 && |out| == limit && Below(c, out[|out| - 1]))
  }

  lemma BelowTransitiveAll()
    ensures forall a, b, c :: Below(a, b) && Below(b, c) ==> Below(a, c)
  {
    forall a, b, c | Below(a, b) && Below(b, c) ensures Below(a, c) {
      BelowTransitive(a, b, c);
    }
  }

  /** The forward-scan description leaves no choice: two results that meet it are equal. */
  lemma {:induction false} ForwardScanUnique(keys: set<Bytes>, lo: Bytes, limit: int, a: seq<Bytes>, b: seq<Bytes>)
    requires IsForwardScan(keys, lo, limit, a) && IsForwardScan(keys, lo, limit, b)
    ensures a == b
  {
    var n: nat := 0;
    while n < |a| && n < |b| && a[n] == b[n]
      invariant n <= |a| && n <= |b|
      invariant a[..n] == b[..n]
    {
      n := n + 1;
    }
    ForwardAgree(keys, lo, limit, a, b, n);
    assert a == a[..n] && b == b[..n];
  }

  /** Two forward scans that agree below position `n` agree at `n` too. */
  lemma ForwardAgree(keys: set<Bytes>, lo: Bytes, limit: int, a: seq<Bytes>, b: seq<Bytes>, n: nat)
    requires IsForwardScan(keys, lo, limit, a) && IsForwardScan(keys, lo, limit, b)
    requires n <= |a| && n <= |b| && a[..n] == b[..n]
    ensures n < |a| <==> n < |b|
    ensures n < |a| ==> a[n] == b[n]
  {
    BelowAsymmetricAll();
    BelowTransitiveAll();
    if n < |a| {
      assert a[n] in keys && Below(lo, a[n]);
    }
    if n < |b| {
      assert b[n] in keys && Below(lo, b[n]);
    }
  }

  /** The backward-scan description leaves no choice either: two results that meet it are equal. */
  lemma {:induction false} BackwardScanUnique(keys: set<Bytes>, hi: Bytes, start: Option<Bytes>, limit: int, a: seq<Bytes>, b: seq<Bytes>)
    requires IsBackwardScan(keys, hi, start, limit, a) && IsBackwardScan(keys, hi, start, limit, b)
    ensures a == b
  {
    var n: nat := 0;
    while n < |a| && n < |b| && a[n] == b[n]
      invariant n <= |a| && n <= |b|
      invariant a[..n] == b[..n]
    {
      n := n + 1;
    }
    BackwardAgree(keys, hi, start, limit, a, b, n);
    assert a == a[..n] && b == b[..n];
  }

  /** Two backward scans that agree below position `n` agree at `n` too. */
  lemma BackwardAgree(keys: set<Bytes>, hi: Bytes, start: Option<Bytes>, limit: int, a: seq<Bytes>, b: seq<Bytes>, n: nat)
    requires IsBackwardScan(keys, hi, start, limit, a) && IsBackwardScan(keys, hi, start, limit, b)
    requires n <= |a| && n <= |b| && a[..n] == b[..n]
    ensures n < |a| <==> n < |b|
    ensures n < |a| ==> a[n] == b[n]
  {
    BelowAsymmetricAll();
    BelowTransitiveAll();
    if n < |a| {
      assert a[n] in keys && Below(a[n], hi) && AtOrBelow(a[n], start);
    }
    if n < |b| {
      assert b[n] in keys && Below(b[n], hi) && AtOrBelow(b[n], start);
    }
  }

  // ----- The cursor loops, as recursive walks -----

  /** What a scan loop collects walking up from position `i` over entries in key order: the
      entries whose key is above `lo`, stopping right after the one that uses up `budget` (with
      `budget <= 0` it never stops early). This is the loop `for k, v := ...; k != nil; k, v =
      cursor.Next()` with its `n == limit` break, `budget` standing for `limit - n`. */
  function ScanUp(es: seq<Pair>, lo: Bytes, i: nat, budget: int): (r: seq<Pair>)
    ensures forall n :: 0 <= n < |r| ==> Below(lo, r[n].first)
    decreases |es| - i
  {
    if i >= |es| then []
    else if Below(lo, es[i].first) then
      if budget == 1 then [es[i]] else [es[i]] + ScanUp(es, lo, i + 1, budget - 1)
    else ScanUp(es, lo, i + 1, budget)
  }

  /** The same walk going down from position `i` (nothing from -1, a nil start), keeping the
      entries whose key is below `hi`: the loop over `cursor.Prev()`. */
  function ScanDown(es: seq<Pair>, hi: Bytes, i: int, budget: int): (r: seq<Pair>)
    ensures forall n :: 0 <= n < |r| ==> Below(r[n].first, hi)
    decreases i + 1
  {
    if i < 0 || i >= |es| then []
    else if Below(es[i].first, hi) then
      if budget == 1 then [es[i]] else [es[i]] + ScanDown(es, hi, i - 1, budget - 1)
    else ScanDown(es, hi, i - 1, budget)
  }

  lemma ScanUpKept(es: seq<Pair>, lo: Bytes, i: nat, budget: int)
    requires i < |es| && Below(lo, es[i].first)
    ensures ScanUp(es, lo, i, budget) == if budget == 1 then [es[i]] else [es[i]] + ScanUp(es, lo, i + 1, budget - 1)
  {
  }

  lemma ScanDownKept(es: seq<Pair>, hi: Bytes, i: nat, budget: int)
    requires i < |es| && Below(es[i].first, hi)
    ensures ScanDown(es, hi, i, budget) == if budget == 1 then [es[i]] else [es[i]] + ScanDown(es, hi, i - 1, budget - 1)
  {
  }

  // ----- What the walks yield -----

  /** The keys of `es` strictly ascend, as a cursor walks a bucket. */
  predicate KeyOrdered(es: seq<Pair>) {
    forall a, b :: 0 <= a < b < |es| ==> Below(es[a].first, es[b].first)
  }

  /** The keys of `es` strictly descend. */
  predicate KeyDescending(es: seq<Pair>) {
    forall a, b :: 0 <= a < b < |es| ==> Below(es[b].first, es[a].first)
  }

  /** An upward walk from `i` keeps entries of `es` above `lo`, none of them below the key at `i`. */
  lemma {:induction false} ScanUpFrom(es: seq<Pair>, lo: Bytes, i: nat, budget: int)
    requires KeyOrdered(es)
    ensures forall n :: 0 <= n < |ScanUp(es, lo, i, budget)| ==>
              && ScanUp(es, lo, i, budget)[n] in es && Below(lo, ScanUp(es, lo, i, budget)[n].first)
              && i < |es| && !Below(ScanUp(es, lo, i, budget)[n].first, es[i].first)
    decreases |es| - i
  {
    if i < |es| {
      var b' := if Below(lo, es[i].first) then budget - 1 else budget;
      var rest := ScanUp(es, lo, i + 1, b');
      ScanUpFrom(es, lo, i + 1, b');
      forall n | 0 <= n < |rest| ensures !Below(rest[n].first, es[i].first) {
        assert i + 1 < |es| && !Below(rest[n].first, es[i + 1].first);
        assert Below(es[i].first, es[i + 1].first);
        if Below(rest[n].first, es[i].first) {
          BelowTransitive(rest[n].first, es[i].first, es[i + 1].first);
        }
      }
      if Below(lo, es[i].first) {
        ScanUpKept(es, lo, i, budget);
      }
    }
  }

  /** An upward walk yields its entries in ascending key order. */
  lemma {:induction false} ScanUpOrdered(es: seq<Pair>, lo: Bytes, i: nat, budget: int)
    requires KeyOrdered(es)
    ensures KeyOrdered(ScanUp(es, lo, i, budget))
    decreases |es| - i
  {
    if i < |es| && Below(lo, es[i].first) {
      ScanUpKept(es, lo, i, budget);
      if budget != 1 {
        var rest := ScanUp(es, lo, i + 1, budget - 1);
        ScanUpOrdered(es, lo, i + 1, budget - 1);
        ScanUpFrom(es, lo, i + 1, budget - 1);
        forall n | 0 <= n < |rest| ensures Below(es[i].first, rest[n].first) {
          BelowTotal(rest[n].first, es[i + 1].first);
          if rest[n].first != es[i + 1].first {
            BelowTransitive(es[i].first, es[i + 1].first, rest[n].first);
          }
        }
      }
    } else if i < |es| {
      ScanUpOrdered(es, lo, i + 1, budget);
    }
  }

  /** A walk with a positive budget yields at most that many entries. */
  lemma {:induction false} ScanUpSize(es: seq<Pair>, lo: Bytes, i: nat, budget: int)
    ensures budget > 0 ==> |ScanUp(es, lo, i, budget)| <= budget
    decreases |es| - i
  {
    if i < |es| {
      ScanUpSize(es, lo, i + 1, if Below(lo, es[i].first) then budget - 1 else budget);
    }
  }

  /** An entry above `lo` that an upward walk from `i` passes over lies beyond a full result. */
  lemma {:induction false} ScanUpComplete(es: seq<Pair>, lo: Bytes, i: nat, budget: int)
    requires KeyOrdered(es)
    ensures forall j :: i <= j < |es| && Below(lo, es[j].first) && es[j] !in ScanUp(es, lo, i, budget) ==>
              && budget > 0 && |ScanUp(es, lo, i, budget)| == budget
              && Below(ScanUp(es, lo, i, budget)[budget - 1].first, es[j].first)
    decreases |es| - i
  {
    if i < |es| {
      var r := ScanUp(es, lo, i, budget);
      if Below(lo, es[i].first) {
        ScanUpKept(es, lo, i, budget);
        assert es[i] == r[0];
        if budget != 1 {
          var rest := ScanUp(es, lo, i + 1, budget - 1);
          ScanUpComplete(es, lo, i + 1, budget - 1);
          forall j | i < j < |es| && Below(lo, es[j].first) && es[j] !in r
            ensures budget > 0 && |r| == budget && Below(r[budget - 1].first, es[j].first)
          {
            assert es[j] !in rest;
            assert r[budget - 1] == rest[budget - 2];
          }
        }
      } else {
        ScanUpComplete(es, lo, i + 1, budget);
      }
    }
  }

  /** A downward walk from `i` keeps entries of `es` below `hi`, none of them above the key at `i`. */
  lemma {:induction false} ScanDownFrom(es: seq<Pair>, hi: Bytes, i: int, budget: int)
    requires KeyOrdered(es)
    ensures forall n :: 0 <= n < |ScanDown(es, hi, i, budget)| ==>
              && ScanDown(es, hi, i, budget)[n] in es && Below(ScanDown(es, hi, i, budget)[n].first, hi)
              && 0 <= i < |es| && !Below(es[i].first, ScanDown(es, hi, i, budget)[n].first)
    decreases i + 1
  {
    if 0 <= i < |es| {
      var b' := if Below(es[i].first, hi) then budget - 1 else budget;
      var rest := ScanDown(es, hi, i - 1, b');
      ScanDownFrom(es, hi, i - 1, b');
      forall n | 0 <= n < |rest| ensures !Below(es[i].first, rest[n].first) {
        assert 0 <= i - 1 && !Below(es[i - 1].first, rest[n].first);
        assert Below(es[i - 1].first, es[i].first);
        if Below(es[i].first, rest[n].first) {
          BelowTransitive(es[i - 1].first, es[i].first, rest[n].first);
        }
      }
      if Below(es[i].first, hi) {
        ScanDownKept(es, hi, i, budget);
      }
    }
  }

  /** A downward walk yields its entries in descending key order. */
  lemma {:induction false} ScanDownOrdered(es: seq<Pair>, hi: Bytes, i: int, budget: int)
    requires KeyOrdered(es)
    ensures KeyDescending(ScanDown(es, hi, i, budget))
    decreases i + 1
  {
    if 0 <= i < |es| && Below(es[i].first, hi) {
      ScanDownKept(es, hi, i, budget);
      if budget != 1 {
        var rest := ScanDown(es, hi, i - 1, budget - 1);
        ScanDownOrdered(es, hi, i - 1, budget - 1);
        ScanDownFrom(es, hi, i - 1, budget - 1);
        forall n | 0 <= n < |rest| ensures Below(rest[n].first, es[i].first) {
          BelowTotal(rest[n].first, es[i - 1].first);
          if rest[n].first != es[i - 1].first {
            BelowTransitive(rest[n].first, es[i - 1].first, es[i].first);
          }
        }
      }
    } else if 0 <= i < |es| {
      ScanDownOrdered(es, hi, i - 1, budget);
    }
  }

  lemma {:induction false} ScanDownSize(es: seq<Pair>, hi: Bytes, i: int, budget: int)
    ensures budget > 0 ==> |ScanDown(es, hi, i, budget)| <= budget
    decreases i + 1
  {
    if 0 <= i < |es| {
      ScanDownSize(es, hi, i - 1, if Below(es[i].first, hi) then budget - 1 else budget);
    }
  }

  /** An entry below `hi` that a downward walk from `i` passes over lies beyond a full result. */
  lemma {:induction false} ScanDownComplete(es: seq<Pair>, hi: Bytes, i: int, budget: int)
    requires KeyOrdered(es) && i < |es|
    ensures forall j :: 0 <= j <= i && Below(es[j].first, hi) && es[j] !in ScanDown(es, hi, i, budget) ==>
              && budget > 0 && |ScanDown(es, hi, i, budget)| == budget
              && Below(es[j].first, ScanDown(es, hi, i, budget)[budget - 1].first)
    decreases i + 1
  {
    if 0 <= i < |es| {
      var r := ScanDown(es, hi, i, budget);
      if Below(es[i].first, hi) {
        ScanDownKept(es, hi, i, budget);
        assert es[i] == r[0];
        if budget != 1 {
          var rest := ScanDown(es, hi, i - 1, budget - 1);
          ScanDownComplete(es, hi, i - 1, budget - 1);
          forall j | 0 <= j < i && Below(es[j].first, hi) && es[j] !in r
            ensures budget > 0 && |r| == budget && Below(es[j].first, r[budget - 1].first)
          {
            assert es[j] !in rest;
            assert r[budget - 1] == rest[budget - 2];
          }
        }
      } else {
        ScanDownComplete(es, hi, i - 1, budget);
      }
    }
  }

  /** The entries of a bucket in cursor order are key-ordered. */
  lemma SortedEntriesOrdered(keys: set<Bytes>, es: seq<Pair>)
    requires Firsts(es) == SortedKeys(keys)
    ensures KeyOrdered(es)
  {
    var ks := SortedKeys(keys);
    forall a, b | 0 <= a < b < |es| ensures Below(es[a].first, es[b].first) {
      assert es[a].first == ks[a] && es[b].first == ks[b];
    }
  }

  /** The keys of entries taken from `es` are keys of the bucket. */
  lemma FirstsIn(keys: set<Bytes>, es: seq<Pair>, r: seq<Pair>)
    requires Firsts(es) == SortedKeys(keys)
    requires forall n :: 0 <= n < |r| ==> r[n] in es
    ensures forall n :: 0 <= n < |r| ==> r[n].first in keys
    ensures forall j :: 0 <= j < |es| && es[j].first !in Firsts(r) ==> es[j] !in r
  {
    var ks := SortedKeys(keys);
    forall n | 0 <= n < |r| ensures r[n].first in keys {
      var j :| 0 <= j < |es| && es[j] == r[n];
      assert ks[j] == r[n].first;
      assert ks[j] in ks;
    }
    forall j | 0 <= j < |es| && es[j] in r ensures es[j].first in Firsts(r) {
      var n :| 0 <= n < |r| && r[n] == es[j];
      assert Firsts(r)[n] == es[j].first;
    }
  }

  /** The keys of key-ordered entries ascend. */
  lemma FirstsAscending(r: seq<Pair>)
    requires KeyOrdered(r)
    ensures Ascending(Firsts(r))
  {
    var out := Firsts(r);
    forall a, b | 0 <= a < b < |out| ensures Below(out[a], out[b]) {
      assert out[a] == r[a].first && out[b] == r[b].first;
    }
  }

  /** The keys of key-descending entries descend. */
  lemma FirstsDescending(r: seq<Pair>)
    requires KeyDescending(r)
    ensures Descending(Firsts(r))
  {
    var out := Firsts(r);
    forall a, b | 0 <= a < b < |out| ensures Below(out[b], out[a]) {
      assert out[a] == r[a].first && out[b] == r[b].first;
    }
  }

  /** Each key an upward walk from `Seek(lo)` yields is a bucket key above `lo`. */
  lemma ForwardMembers(keys: set<Bytes>, es: seq<Pair>, lo: Bytes, limit: int, r: seq<Pair>)
    requires Firsts(es) == SortedKeys(keys) && r == ScanUp(es, lo, SeekIndex(SortedKeys(keys), lo), limit)
    ensures forall n :: 0 <= n < |r| ==> r[n] in es && r[n].first in keys && Below(lo, r[n].first)
  {
    SortedEntriesOrdered(keys, es);
    ScanUpFrom(es, lo, SeekIndex(SortedKeys(keys), lo), limit);
    FirstsIn(keys, es, r);
  }

  /** A bucket key above `lo` that an upward walk from `Seek(lo)` leaves out lies beyond a full result. */
  lemma ForwardComplete(keys: set<Bytes>, es: seq<Pair>, lo: Bytes, limit: int, r: seq<Pair>)
    requires Firsts(es) == SortedKeys(keys) && r == ScanUp(es, lo, SeekIndex(SortedKeys(keys), lo), limit)
    ensures forall c :: c in keys && Below(lo, c) && c !in Firsts(r) ==>
              limit > 0 && |r| == limit && Below(r[|r| - 1].first, c)
  {
    forall c | c in keys && Below(lo, c) && c !in Firsts(r)
      ensures limit > 0 && |r| == limit && Below(r[|r| - 1].first, c)
    {
      var ks := SortedKeys(keys);
      var j :| 0 <= j < |ks| && ks[j] == c;
      assert es[j].first == c;
      ForwardLeftOut(keys, es, lo, limit, r, j);
    }
  }

  /** The entry at `j`, above `lo` and left out of the upward walk from `Seek(lo)`, lies beyond
      a full result. */
  lemma ForwardLeftOut(keys: set<Bytes>, es: seq<Pair>, lo: Bytes, limit: int, r: seq<Pair>, j: int)
    requires Firsts(es) == SortedKeys(keys) && r == ScanUp(es, lo, SeekIndex(SortedKeys(keys), lo), limit)
    requires 0 <= j < |es| && Below(lo, es[j].first) && es[j].first !in Firsts(r)
    ensures limit > 0 && |r| == limit && Below(r[|r| - 1].first, es[j].first)
  {
    var ks := SortedKeys(keys);
    var s := SeekIndex(ks, lo);
    if j < s {
      assert es[j].first == ks[j];
      BelowAsymmetric(es[j].first, lo);
    } else {
      assert es[j] !in r;
      SortedEntriesOrdered(keys, es);
      ScanUpComplete(es, lo, s, limit);
    }
  }

  /** The upward walk from `Seek(lo)` over a bucket's entries is the forward scan of its keys. */
  lemma ScanUpIsForwardScan(keys: set<Bytes>, es: seq<Pair>, lo: Bytes, limit: int, r: seq<Pair>)
    requires Firsts(es) == SortedKeys(keys) && r == ScanUp(es, lo, SeekIndex(SortedKeys(keys), lo), limit)
    ensures IsForwardScan(keys, lo, limit, Firsts(r))
    ensures forall n :: 0 <= n < |r| ==> r[n] in es
  {
    var s := SeekIndex(SortedKeys(keys), lo);
    SortedEntriesOrdered(keys, es);
    ScanUpOrdered(es, lo, s, limit);
    FirstsAscending(r);
    ScanUpSize(es, lo, s, limit);
    ForwardMembers(keys, es, lo, limit, r);
    ForwardComplete(keys, es, lo, limit, r);
  }

  /** Each key a downward walk from position `s` yields is a bucket key below `hi`, at or below
      the key at `s`. */
  lemma BackwardMembers(keys: set<Bytes>, es: seq<Pair>, hi: Bytes, s: int, limit: int, r: seq<Pair>)
    requires Firsts(es) == SortedKeys(keys) && 0 <= s < |es| && r == ScanDown(es, hi, s, limit)
    ensures forall n :: 0 <= n < |r| ==>
              r[n] in es && r[n].first in keys && Below(r[n].first, hi) && AtOrBelow(r[n].first, Some(es[s].first))
  {
    SortedEntriesOrdered(keys, es);
    ScanDownFrom(es, hi, s, limit);
    FirstsIn(keys, es, r);
    forall n | 0 <= n < |r| ensures AtOrBelow(r[n].first, Some(es[s].first)) {
      BelowTotal(r[n].first, es[s].first);
    }
  }

  /** A bucket key below `hi` and at or below the key at `s` that a downward walk from `s` leaves
      out lies beyond a full result. */
  lemma BackwardComplete(keys: set<Bytes>, es: seq<Pair>, hi: Bytes, s: int, limit: int, r: seq<Pair>)
    requires Firsts(es) == SortedKeys(keys) && 0 <= s < |es| && r == ScanDown(es, hi, s, limit)
    ensures forall c :: c in keys && Below(c, hi) && AtOrBelow(c, Some(es[s].first)) && c !in Firsts(r) ==>
              limit > 0 && |r| == limit && Below(c, r[|r| - 1].first)
  {
    var ks := SortedKeys(keys);
    SortedEntriesOrdered(keys, es);
    forall c | c in keys && Below(c, hi) && AtOrBelow(c, Some(es[s].first)) && c !in Firsts(r)
      ensures limit > 0 && |r| == limit && Below(c, r[|r| - 1].first)
    {
      var j :| 0 <= j < |ks| && ks[j] == c;
      assert es[j].first == c;
      assert es[j] !in r;
      BackwardLeftOut(es, hi, s, limit, r, j);
    }
  }

  /** The entry at `j`, below `hi`, at or below the key at `s` and left out of the downward walk
      from `s`, lies beyond a full result. */
  lemma BackwardLeftOut(es: seq<Pair>, hi: Bytes, s: int, limit: int, r: seq<Pair>, j: int)
    requires KeyOrdered(es) && 0 <= s < |es| && r == ScanDown(es, hi, s, limit)
    requires 0 <= j < |es| && Below(es[j].first, hi) && AtOrBelow(es[j].first, Some(es[s].first)) && es[j] !in r
    ensures limit > 0 && |r| == limit && Below(es[j].first, r[|r| - 1].first)
  {
    if s < j {
      assert Below(es[s].first, es[j].first);
      BelowAsymmetric(es[s].first, es[j].first);
    } else {
      ScanDownComplete(es, hi, s, limit);
    }
  }

  /** The downward walk from position `s` (the key `Seek` or `Last` gave, -1 for nil) over a
      bucket's entries is the backward scan of its keys from that key. */
  lemma ScanDownIsBackwardScan(keys: set<Bytes>, es: seq<Pair>, hi: Bytes, s: int, limit: int, r: seq<Pair>)
    requires Firsts(es) == SortedKeys(keys) && -1 <= s < |es| && r == ScanDown(es, hi, s, limit)
    ensures IsBackwardScan(keys, hi, if s >= 0 then Some(es[s].first) else None, limit, Firsts(r))
    ensures forall n :: 0 <= n < |r| ==> r[n] in es
  {
    if s >= 0 {
      SortedEntriesOrdered(keys, es);
      ScanDownOrdered(es, hi, s, limit);
      FirstsDescending(r);
      ScanDownSize(es, hi, s, limit);
      BackwardMembers(keys, es, hi, s, limit, r);
      BackwardComplete(keys, es, hi, s, limit, r);
    }
  }
}
