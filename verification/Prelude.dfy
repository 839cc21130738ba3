/** Vocabulary shared by every module: bytes, optional values, results,
    rounding-up division and the byte sequence helpers of the Go runtime. */
module Prelude {

  type byte = bv8
  type Bytes = seq<byte>

  datatype Option<+T> = None | Some(value: T)

  datatype Result<+T, +E> = Ok(value: T) | Err(error: E)

  /** A SHA-256 digest in hexadecimal. */
  type Digest = string

  /** No other content has the digest of y; assumed only of contents for which equal digests must mean equal bytes. */
  ghost predicate OnlyPreimage(hash: Bytes -> Digest, y: Bytes) {
    forall x: Bytes :: hash(x) == hash(y) ==> x == y
  }

  const I64_MAX: int := 0x7fff_ffff_ffff_ffff

  /** 64 MiB: the largest block of a manifest and the largest chunk of a request. */
  const MAX_BLOCK_SIZE: int := 0x400_0000

  /** 8 GiB: the largest shard a node stores or a client fetches. */
  const MAX_SHARD_SIZE: int := 0x2_0000_0000

  function Min(a: int, b: int): int {
    if a < b then a else b
  }

  function CeilDiv(a: nat, b: nat): nat
    requires b > 0
  {
    (a + b - 1) / b
  }

  function Zeros(n: nat): (z: Bytes)
    ensures |z| == n && forall i :: 0 <= i < n ==> z[i] == 0
  {
    seq(n, _ => 0)
  }

  /** The first n bytes of s, or all of s when it is shorter: what a full read returns. */
  function Take<T>(s: seq<T>, n: nat): seq<T> {
    s[..Min(n, |s|)]
  }

  /** What a full read of n bytes leaves behind. */
  function Drop<T>(s: seq<T>, n: nat): seq<T> {
    s[Min(n, |s|)..]
  }

  /** A file after `data` is written at `pos`: a gap past its end reads as zeros, bytes past the data stay. */
  function WriteAt(file: Bytes, pos: nat, data: Bytes): Bytes {
    if data == [] then file
    else
      var padded := if pos <= |file| then file else file + Zeros(pos - |file|);
      padded[..pos] + data + Drop(padded, pos + |data|)
  }

  // ----- arithmetic -----

  /** CeilDiv(a, b) is the least q with a <= b * q. */
  lemma CeilDivBounds(a: nat, b: nat)
    requires b > 0
    ensures b * CeilDiv(a, b) - b < a <= b * CeilDiv(a, b)
  {
    var n := a + b - 1;
    assert n == b * (n / b) + n % b;
  }

  lemma CeilDivUnique(a: nat, b: nat, q: nat)
    requires b > 0 && b * q - b < a <= b * q
    ensures CeilDiv(a, b) == q
  {
    CeilDivBounds(a, b);
    var c := CeilDiv(a, b);
    if c < q {
      MulMonotone(b, c + 1, q);
    } else if q < c {
      MulMonotone(b, q + 1, c);
    }
  }

  lemma MulMonotone(b: nat, x: int, y: int)
    requires x <= y
    ensures b * x <= b * y
  {
    var d: nat := y - x;
    assert b * y == b * x + b * d;
  }

  lemma MulStep(n: nat, x: nat)
    requires n > 0
    ensures n * x == x + (n - 1) * x && (n - 1) * x >= 0
  {
  }

  lemma CeilDivMultiple(b: nat, q: nat)
    requires b > 0
    ensures CeilDiv(b * q, b) == q
  {
    CeilDivUnique(b * q, b, q);
  }

  lemma CeilDivShift(a: nat, b: nat, q: nat)
    requires b > 0
    ensures CeilDiv(b * q + a, b) == q + CeilDiv(a, b)
  {
    CeilDivBounds(a, b);
    var c := CeilDiv(a, b);
    assert b * (q + c) == b * q + b * c;
    CeilDivUnique(b * q + a, b, q + c);
  }

  lemma CeilDivMonotone(a: nat, a': nat, b: nat)
    requires b > 0 && a <= a'
    ensures CeilDiv(a, b) <= CeilDiv(a', b)
  {
    CeilDivBounds(a, b);
    CeilDivBounds(a', b);
    var c, c' := CeilDiv(a, b), CeilDiv(a', b);
    if c' < c {
      MulMonotone(b, c' + 1, c);
    }
  }

  /** Rounding up by k and then by b is rounding up by k * b. */
  lemma CeilDivNested(a: nat, k: nat, b: nat)
    requires k > 0 && b > 0
    ensures k * b > 0
    ensures CeilDiv(CeilDiv(a, k), b) == CeilDiv(a, k * b)
  {
    MulMonotone(k, 1, b);
    var p := CeilDiv(a, k);
    var q := CeilDiv(p, b);
    CeilDivBounds(a, k);
    CeilDivBounds(p, b);
    MulMonotone(k, p, b * q);
    assert k * (b * q) == (k * b) * q;
    MulMonotone(k, b * q - b + 1, p);
    assert k * (b * q - b + 1) == (k * b) * q - k * b + k;
    CeilDivUnique(a, k * b, q);
  }

  // ----- sets of indices -----

  /** The indices below n. */
  function Range(n: nat): (r: set<nat>)
    ensures forall i: nat :: i in r <==> i < n
    ensures |r| == n
  {
    if n == 0 then {} else Range(n - 1) + {n - 1}
  }

  lemma SubsetCardinality<T>(a: set<T>, b: set<T>)
    requires a <= b
    ensures |a| <= |b|
  {
    if a != {} {
      var x :| x in a;
      SubsetCardinality(a - {x}, b - {x});
    }
  }

  ghost predicate StrictlyIncreasing(s: seq<int>) {
    forall i, j :: 0 <= i < j < |s| ==> s[i] < s[j]
  }

  ghost predicate Distinct<T>(s: seq<T>) {
    forall i, j :: 0 <= i < j < |s| ==> s[i] != s[j]
  }

  ghost function Elements<T>(s: seq<T>): set<T> {
    set x | x in s
  }

  lemma DistinctCardinality<T>(s: seq<T>)
    requires Distinct(s)
    ensures |Elements(s)| == |s|
  {
    if s != [] {
      var init := s[..|s| - 1];
      var last := s[|s| - 1];
      DistinctCardinality(init);
      assert Elements(s) == Elements(init) + {last} by {
        assert s == init + [last];
      }
      assert last !in Elements(init);
    }
  }

  lemma LastIsGreatest(s: seq<int>, x: int)
    requires s != [] && StrictlyIncreasing(s)
    ensures x in s[..|s| - 1] <==> x in s && x != s[|s| - 1]
    ensures x in s ==> x <= s[|s| - 1]
    ensures StrictlyIncreasing(s[..|s| - 1])
  {
    var init, last := s[..|s| - 1], s[|s| - 1];
    assert s == init + [last];
    if x in init {
      var i :| 0 <= i < |init| && init[i] == x;
      assert s[i] < last;
    }
  }

  /** Two strictly increasing sequences with the same elements are the same. */
  lemma {:induction false} IncreasingUnique(s: seq<int>, t: seq<int>)
    requires StrictlyIncreasing(s) && StrictlyIncreasing(t)
    requires forall x :: x in s <==> x in t
    ensures s == t
  {
    if s != [] { assert s[0] in s; }
    if t != [] { assert t[0] in t; }
    if s != [] && t != [] {
      var a, b := s[|s| - 1], t[|t| - 1];
      assert a in s && b in t;
      LastIsGreatest(s, b);
      LastIsGreatest(t, a);
      var s', t' := s[..|s| - 1], t[..|t| - 1];
      forall x ensures x in s' <==> x in t' {
        LastIsGreatest(s, x);
        LastIsGreatest(t, x);
      }
      IncreasingUnique(s', t');
      assert s == s' + [a] && t == t' + [b];
    }
  }
}
