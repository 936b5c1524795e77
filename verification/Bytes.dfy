/** Bytes, byte strings and big-endian integers, as the wire formats of this project use them. */
module Bytes {
  type Byte = x: int | 0 <= x < 256

  /** A Go string or byte slice: Go strings are byte strings. */
  type Bytes = seq<Byte>

  /** The bytes of an ASCII literal. */
  function Ascii(s: string): (b: Bytes)
    ensures |b| == |s|
  {
    seq(|s|, i requires 0 <= i < |s| => s[i] as int % 256)
  }

  /** `b` occurs in `d` at offset `i`. */
  ghost predicate At(d: Bytes, i: nat, b: Bytes) {
    i + |b| <= |d| && d[i..i + |b|] == b
  }

  /** A concatenation occurs exactly when its two parts occur one after the other. */
  lemma AtSplit(d: Bytes, i: nat, a: Bytes, b: Bytes)
    ensures At(d, i, a + b) <==> At(d, i, a) && At(d, i + |a|, b)
    ensures At(d, i, a + b) ==> i + |a| + |b| <= |d|
  {
    if At(d, i, a + b) {
      assert d[i..i + |a|] == d[i..i + |a + b|][..|a|] == a;
      assert d[i + |a|..i + |a| + |b|] == d[i..i + |a + b|][|a|..] == b;
    }
    if At(d, i, a) && At(d, i + |a|, b) {
      assert d[i..i + |a + b|] == d[i..i + |a|] + d[i + |a|..i + |a| + |b|];
    }
  }

  lemma Associative<T>(a: seq<T>, b: seq<T>, c: seq<T>)
    ensures a + b + c == a + (b + c)
  {
  }

  lemma HeadOfConcat<T>(a: seq<T>, b: seq<T>)
    requires a != []
    ensures (a + b)[0] == a[0] && (a + b)[1..] == a[1..] + b
  {
  }

  lemma AtSplit3(d: Bytes, i: nat, a: Bytes, b: Bytes, c: Bytes)
    requires At(d, i, a + b + c)
    ensures At(d, i, a) && At(d, i + |a|, b) && At(d, i + |a| + |b|, c) && i + |a| + |b| + |c| <= |d|
  {
    AtSplit(d, i, a + b, c);
    AtSplit(d, i, a, b);
  }

  lemma AtSplit4(d: Bytes, i: nat, a: Bytes, b: Bytes, c: Bytes, e: Bytes)
    requires At(d, i, a + b + c + e)
    ensures At(d, i, a) && At(d, i + |a|, b) && At(d, i + |a| + |b|, c) && At(d, i + |a| + |b| + |c|, e)
    ensures i + |a| + |b| + |c| + |e| <= |d|
  {
    AtSplit(d, i, a + b + c, e);
    AtSplit3(d, i, a, b, c);
  }

  lemma AtByte(d: Bytes, i: nat, b: Bytes, k: nat)
    requires At(d, i, b) && k < |b|
    ensures i + k < |d| && d[i + k] == b[k]
  {
    assert d[i..i + |b|][k] == b[k];
  }

  function Pow256(k: nat): (p: nat)
    ensures p > 0
  {
    if k == 0 then 1 else 256 * Pow256(k - 1)
  }

  /** The `k` low-order bytes of `v`, most significant first. */
  function BigEndian(v: nat, k: nat): (b: Bytes)
    ensures |b| == k
  {
    if k == 0 then [] else BigEndian(v / 256, k - 1) + [v % 256]
  }

  function FromBigEndian(b: Bytes): (v: nat)
    ensures v < Pow256(|b|)
  {
    if b == [] then 0 else FromBigEndian(b[..|b| - 1]) * 256 + b[|b| - 1]
  }

  /** Only the bits that fit survive, so a value survives exactly when it fits in `k` bytes. */
  lemma {:induction false} BigEndianRoundTrip(v: nat, k: nat)
    ensures FromBigEndian(BigEndian(v, k)) == v <==> v < Pow256(k)
  {
    if k > 0 {
      BigEndianRoundTrip(v / 256, k - 1);
      assert BigEndian(v, k)[..k - 1] == BigEndian(v / 256, k - 1);
    }
  }

  /** Byte `i` of `k` is the digit of `v` to base 256 that has `k - 1 - i` digits after it. */
  lemma {:induction false} BigEndianDigits(v: nat, k: nat, i: nat)
    requires i < k
    ensures BigEndian(v, k)[i] == ShiftRight(v, k - 1 - i) % 256
  {
    if i < k - 1 {
      BigEndianDigits(v / 256, k - 1, i);
      ShiftRightOnce(v, k - 2 - i);
    }
  }

  lemma {:induction false} ShiftRightOnce(v: nat, k: nat)
    ensures ShiftRight(v / 256, k) == ShiftRight(v, k + 1)
  {
    if k > 0 {
      ShiftRightOnce(v, k - 1);
    }
  }

  /** `v >> (8 * k)`. */
  function ShiftRight(v: nat, k: nat): nat {
    if k == 0 then v else ShiftRight(v, k - 1) / 256
  }

  /** `v << (8 * k)`. */
  function ShiftLeft(v: nat, k: nat): nat
    decreases k
  {
    if k == 0 then v else ShiftLeft(256 * v, k - 1)
  }

  lemma {:induction false} ShiftLeftSum(v: nat, w: nat, k: nat)
    ensures ShiftLeft(v + w, k) == ShiftLeft(v, k) + ShiftLeft(w, k)
    decreases k
  {
    if k > 0 {
      ShiftLeftSum(256 * v, 256 * w, k - 1);
    }
  }

  lemma {:induction false} ShiftZero(k: nat)
    ensures ShiftLeft(0, k) == 0
  {
    if k > 0 {
      ShiftZero(k - 1);
    }
  }

  /** An element of a sequence's multiset has a position in the sequence. */
  lemma Position<T>(x: T, s: seq<T>, m: multiset<T>) returns (i: nat)
    requires m == multiset(s) && x in m
    ensures i < |s| && s[i] == x
  {
    assert x in s;
    i :| 0 <= i < |s| && s[i] == x;
  }

  lemma MultisetWithout<T>(s: seq<T>, i: nat)
    requires i < |s|
    ensures multiset(s) == multiset(s[..i] + s[i + 1..]) + multiset{s[i]}
  {
    assert s == s[..i] + [s[i]] + s[i + 1..];
  }

  lemma CancelOne<T>(a: multiset<T>, b: multiset<T>, x: T)
    requires a + multiset{x} == b + multiset{x}
    ensures a == b
  {
    assert a == a + multiset{x} - multiset{x};
    assert b == b + multiset{x} - multiset{x};
  }
}
