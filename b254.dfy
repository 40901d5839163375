/** The base-254 byte codec of the `rset` package (`rset.B254`). Leading zero bytes become `0x01`
    bytes; the rest, read as a big-endian natural number, is written in base 254 with digit
    bytes `2..255`, so that an encoded string never holds `0x00`. */
module B254 {
  import opened Bytes
  import opened Results
  import opened Utils

  // ----- Specification -----

  /** How many bytes at the head of `s` equal `b`. */
  function LeadingRun(s: Bytes, b: byte): (r: nat)
    ensures r <= |s|
    ensures forall i :: 0 <= i < r ==> s[i] == b
    ensures r < |s| ==> s[r] != b
  {
    if s == [] || s[0] != b then 0 else 1 + LeadingRun(s[1..], b)
  }

  function Repeat(n: nat, b: byte): (r: Bytes)
    ensures |r| == n && forall i :: 0 <= i < n ==> r[i] == b
  {
    seq(n, i => b)
  }

  /** The base-254 digit bytes of `n`, most significant first, each digit `d` written as `d + 2`. */
  function Digits254(n: nat): (r: Bytes)
    ensures forall i :: 0 <= i < |r| ==> r[i] >= 2
    ensures r == [] <==> n == 0
    ensures r != [] ==> r[0] >= 3
  {
    if n == 0 then [] else Digits254(n / 254) + [n % 254 + 2]
  }

  predicate AllDigits(s: Bytes) {
    forall i :: 0 <= i < |s| ==> s[i] >= 2
  }

  /** The number that a string of digit bytes stands for, most significant first. */
  function Value254(d: Bytes): nat
    requires AllDigits(d)
  {
    if d == [] then 0 else Value254(d[..|d| - 1]) * 254 + (d[|d| - 1] - 2)
  }

  /** `big.Int.Bytes`: the shortest big-endian bytes of `n` (none for zero). */
  function MinimalBytes(n: nat): (r: Bytes)
    ensures BigEndian(r) == n
    ensures r == [] || r[0] != 0
  {
    if n == 0 then []
    else
      var init := MinimalBytes(n / 256);
      assert (init + [n % 256])[..|init|] == init;
      init + [n % 256]
  }

  function Reversed(s: Bytes): (r: Bytes)
    ensures |r| == |s|
  {
    seq(|s|, i requires 0 <= i < |s| => s[|s| - 1 - i])
  }

  /** What `Encode` returns. */
  function Encoding(src: Bytes): Bytes {
    var z := LeadingRun(src, 0);
    Repeat(z, 1) + Digits254(BigEndian(src[z..]))
  }

  /** What `Decode` returns: an error when a byte after the leading `0x01` run is `0x00` or `0x01`. */
  function Decoding(src: Bytes): Result<Bytes> {
    var z := LeadingRun(src, 1);
    var rest := src[z..];
    if AllDigits(rest) then Ok(Repeat(z, 0) + MinimalBytes(Value254(rest))) else Err(Malformed)
  }

  // ----- The codec's loops -----

  /** `connect`: `a` followed by `b`. */
  method Connect(a: Bytes, b: Bytes) returns (dst: Bytes)
    ensures dst == a + b
  {
    dst := [];
    var i := 0;
    while i < |a|
      invariant 0 <= i <= |a| && dst == a[..i]
    {
      dst := dst + [a[i]];
      i := i + 1;
    }
    i := 0;
    while i < |b|
      invariant 0 <= i <= |b| && dst == a + b[..i]
    {
      dst := dst + [b[i]];
      i := i + 1;
    }
  }

  /** `reverse`: the bytes of `src` back to front. */
  method Reverse(src: Bytes) returns (dst: Bytes)
    ensures |dst| == |src|
    ensures forall i :: 0 <= i < |src| ==> dst[i] == src[|src| - 1 - i]
  {
    dst := [];
    var i := |src| - 1;
    while i >= 0
      invariant -1 <= i < |src|
      invariant |dst| == |src| - 1 - i
      invariant forall k :: 0 <= k < |dst| ==> dst[k] == src[|src| - 1 - k]
    {
      dst := dst + [src[i]];
      i := i - 1;
    }
  }

  /** The `DivMod` loop of `Encode`: the digit bytes of `number`, least significant first. */
  method DigitsLeastFirst(number: nat) returns (digits: Bytes)
    ensures Reversed(digits) == Digits254(number)
  {
    var n := number;
    digits := [];
    while n > 0
      invariant Digits254(n) + Reversed(digits) == Digits254(number)
    {
      var mod := n % 254;
      assert Digits254(n) == Digits254(n / 254) + [mod + 2];
      n := n / 254;
      ReversedPush(digits, mod + 2);
      digits := digits + [mod + 2];
    }
  }

  method Encode(src: Bytes) returns (dst: Bytes)
    ensures dst == Encoding(src)
  {
    if |src| == 0 {
      EmptyRoundTrip();
      return src;
    }
    var prefix: Bytes := [];
    var i := 0;
    while i < |src|
      invariant 0 <= i <= |src| && prefix == Repeat(i, 1)
      invariant forall j :: 0 <= j < i ==> src[j] == 0
    {
      if src[i] != 0 {
        break;
      }
      prefix := prefix + [1];
      i := i + 1;
    }
    assert i == LeadingRun(src, 0);
    var rest := src[|prefix|..];
    var digits := DigitsLeastFirst(BigEndian(rest));
    var ordered := Reverse(digits);
    assert ordered == Reversed(digits);
    dst := Connect(prefix, ordered);
  }

  method Decode(src: Bytes) returns (r: Result<Bytes>)
    ensures r == Decoding(src)
  {
    if |src| == 0 {
      EmptyRoundTrip();
      return Ok(src);
    }
    var prefix: Bytes := [];
    var i := 0;
    while i < |src|
      invariant 0 <= i <= |src| && prefix == Repeat(i, 0)
      invariant forall j :: 0 <= j < i ==> src[j] == 1
    {
      if src[i] != 1 {
        break;
      }
      prefix := prefix + [0];
      i := i + 1;
    }
    assert i == LeadingRun(src, 1);
    var rest := src[|prefix|..];
    var number: nat := 0;
    var k := 0;
    while k < |rest|
      invariant 0 <= k <= |rest| && AllDigits(rest[..k])
      invariant number == Value254(rest[..k])
    {
      if rest[k] == 0 || rest[k] == 1 {
        return Err(Malformed);
      }
      assert rest[..k + 1][..k] == rest[..k];
      number := number * 254 + (rest[k] - 2);
      k := k + 1;
    }
    assert rest[..k] == rest;
    var dst := Connect(prefix, MinimalBytes(number));
    r := Ok(dst);
  }

  // ----- Properties -----

  lemma ReversedPush(s: Bytes, b: byte)
    ensures Reversed(s + [b]) == [b] + Reversed(s)
  {
    var l, r := Reversed(s + [b]), [b] + Reversed(s);
    forall i | 0 <= i < |l| ensures l[i] == r[i] {
      if i > 0 {
        assert l[i] == s[|s| - i] == Reversed(s)[i - 1];
      }
    }
  }

  lemma {:induction false} ReversedTwice(s: Bytes)
    ensures Reversed(Reversed(s)) == s
  {
  }

  lemma {:induction false} Value254Digits(n: nat)
    ensures Value254(Digits254(n)) == n
  {
    if n > 0 {
      var d := Digits254(n);
      assert d[..|d| - 1] == Digits254(n / 254);
      Value254Digits(n / 254);
    }
  }

  lemma {:induction false} BigEndianPositive(s: Bytes)
    requires s != [] && s[0] != 0
    ensures BigEndian(s) > 0
    decreases |s|
  {
    if |s| > 1 {
      BigEndianPositive(s[..|s| - 1]);
    }
  }

  /** A byte string without leading zeros is the minimal form of its own value. */
  lemma {:induction false} MinimalBytesOfValue(s: Bytes)
    requires s == [] || s[0] != 0
    ensures MinimalBytes(BigEndian(s)) == s
    decreases |s|
  {
    if s != [] {
      var init := s[..|s| - 1];
      BigEndianPositive(s);
      MinimalBytesOfValue(init);
      assert s == init + [s[|s| - 1]];
    }
  }

  /** Every digit byte `Encode` writes after the `0x01` prefix lies in 3..255 first and 2..255 after. */
  lemma EncodingShape(src: Bytes)
    ensures var z := LeadingRun(src, 0);
            var e := Encoding(src);
            z <= |e| && (forall i :: 0 <= i < z ==> e[i] == 1)
            && AllDigits(e[z..]) && (z < |e| ==> e[z] >= 3)
  {
  }

  /** Both directions map the empty string to itself, without error. */
  lemma EmptyRoundTrip()
    ensures var e: Bytes := []; Encoding(e) == e && Decoding(e) == Ok(e)
  {
    var e: Bytes := [];
    assert e[0..] == e && Repeat(0, 1) + [] == e;
    assert Decoding(e).value == Repeat(0, 0) + MinimalBytes(Value254(e));
    assert Repeat(0, 0) + MinimalBytes(0) == e;
  }

  /** `Decode` undoes `Encode` on every byte string. */
  lemma RoundTrip(x: Bytes)
    ensures Decoding(Encoding(x)) == Ok(x)
  {
    var z := LeadingRun(x, 0);
    var rest := x[z..];
    var n := BigEndian(rest);
    DecodeDigits(z, Digits254(n));
    Value254Digits(n);
    MinimalBytesOfValue(rest);
    LeadingSplit(x, 0);
  }

  /** A string is its leading run of `b` followed by the rest. */
  lemma LeadingSplit(x: Bytes, b: byte)
    ensures x == Repeat(LeadingRun(x, b), b) + x[LeadingRun(x, b)..]
  {
    var z := LeadingRun(x, b);
    assert x[..z] == Repeat(z, b);
    assert x == x[..z] + x[z..];
  }

  /** `0x01` bytes followed by well-formed digits decode to as many zero bytes and the digits' value. */
  lemma DecodeDigits(z: nat, d: Bytes)
    requires AllDigits(d) && (d == [] || d[0] != 1)
    ensures Decoding(Repeat(z, 1) + d) == Ok(Repeat(z, 0) + MinimalBytes(Value254(d)))
  {
    var e := Repeat(z, 1) + d;
    LeadingRunPast(Repeat(z, 1), d, 1);
    assert e[z..] == d;
  }

  lemma {:induction false} LeadingRunPast(p: Bytes, d: Bytes, b: byte)
    requires forall i :: 0 <= i < |p| ==> p[i] == b
    requires d == [] || d[0] != b
    ensures LeadingRun(p + d, b) == |p|
    decreases |p|
  {
    if p != [] {
      assert (p + d)[1..] == p[1..] + d;
      LeadingRunPast(p[1..], d, b);
    }
  }

  /** An all-zero input encodes to as many `0x01` bytes. */
  lemma EncodeAllZeros(n: nat)
    ensures Encoding(Repeat(n, 0)) == Repeat(n, 1)
  {
    LeadingRunPast(Repeat(n, 0), [], 0);
    assert Repeat(n, 0) + [] == Repeat(n, 0);
  }

  /** A `0x00` anywhere after the leading `0x01` run, and so a leading `0x00`, is rejected. */
  lemma DecodeRejectsZero(src: Bytes, i: nat)
    requires i < |src| && src[i] == 0
    ensures Decoding(src) == Err(Malformed)
  {
    var z := LeadingRun(src, 1);
    assert z <= i;
    assert src[z..][i - z] == 0;
  }

  /** Distinct inputs can decode alike: `[0x02, 0x05]` and `[0x05]` both decode to `[0x03]`. */
  lemma DecodeNotInjective()
    ensures Decoding([2, 5]) == Ok([3]) && Decoding([5]) == Ok([3])
  {
    DecodesToThree([2, 5]);
    DecodesToThree([5]);
  }

  lemma DecodesToThree(d: Bytes)
    requires d == [2, 5] || d == [5]
    ensures Decoding(d) == Ok([3])
  {
    assert Repeat(0, 1) + d == d;
    DecodeDigits(0, d);
    DigitsThree(d);
    MinimalThree();
    assert Repeat(0, 0) + [3] == [3];
  }

  lemma DigitsThree(d: Bytes)
    requires d == [2, 5] || d == [5]
    ensures AllDigits(d) && Value254(d) == 3
  {
    if d == [5] {
      assert d[..0] == [];
    } else {
      assert d[..1] == [2] && [2][..0] == [];
    }
  }

  lemma MinimalThree()
    ensures MinimalBytes(3) == [3]
  {
    assert MinimalBytes(0) == [];
  }
}
