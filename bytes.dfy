/** Byte strings and Go's `bytes.Compare` order, the order of every bucket cursor. */
module Bytes {

  type byte = x: int | 0 <= x < 256

  type Bytes = seq<byte>

  /** `bytes.Compare(a, b)`: -1, 0 or +1 in lexicographic order; a proper prefix sorts first. */
  function Compare(a: Bytes, b: Bytes): (r: int)
    ensures -1 <= r <= 1
    ensures r == 0 <==> a == b
  {
    if a == [] then (if b == [] then 0 else -1)
    else if b == [] then 1
    else if a[0] < b[0] then -1
    else if a[0] > b[0] then 1
    else
      assert a == [a[0]] + a[1..] && b == [b[0]] + b[1..];
      Compare(a[1..], b[1..])
  }

  /** `bytes.Compare(a, b) == -1`. */
  predicate Below(a: Bytes, b: Bytes) {
    Compare(a, b) == -1
  }

  lemma {:induction false} CompareFlip(a: Bytes, b: Bytes)
    ensures Compare(b, a) == -Compare(a, b)
  {
    if a != [] && b != [] && a[0] == b[0] {
      CompareFlip(a[1..], b[1..]);
    }
  }

  /** `Below` is a strict total order: asymmetric ... */
  lemma BelowAsymmetric(a: Bytes, b: Bytes)
    requires Below(a, b)
    ensures !Below(b, a) && a != b
  {
    CompareFlip(a, b);
  }

  /** ... total ... */
  lemma BelowTotal(a: Bytes, b: Bytes)
    ensures a == b || Below(a, b) || Below(b, a)
  {
    CompareFlip(a, b);
  }

  /** ... and transitive. */
  lemma {:induction false} BelowTransitive(a: Bytes, b: Bytes, c: Bytes)
    requires Below(a, b) && Below(b, c)
    ensures Below(a, c)
  {
    if a != [] && a[0] == b[0] && b[0] == c[0] {
      BelowTransitive(a[1..], b[1..], c[1..]);
    }
  }

  /** Two keys that start with prefixes of one width compare by the prefixes first. */
  lemma {:induction false} CompareConcat(p: Bytes, q: Bytes, x: Bytes, y: Bytes)
    requires |p| == |q|
    ensures Compare(p + x, q + y) == if p == q then Compare(x, y) else Compare(p, q)
  {
    if p != [] {
      assert (p + x)[0] == p[0] && (q + y)[0] == q[0];
      assert (p + x)[1..] == p[1..] + x && (q + y)[1..] == q[1..] + y;
      if p[0] == q[0] {
        CompareConcat(p[1..], q[1..], x, y);
        assert p == [p[0]] + p[1..] && q == [q[0]] + q[1..];
      }
    } else {
      assert p + x == x && q + y == y;
    }
  }

  /** `bytes.Compare(a, b) == 1` says that `b` sorts below `a`. */
  lemma CompareAbove(a: Bytes, b: Bytes)
    ensures Compare(a, b) == 1 <==> Below(b, a)
  {
    CompareFlip(a, b);
  }
}
