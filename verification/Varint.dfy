/** Base 128 varints of the Protocol Buffers encoding, as Go's `encoding/binary` reads and writes them. */
module Varints {
  import opened Bytes

  /** `binary.Uvarint`: the value and the bytes used; none used when the input ends, fewer than none on overflow. */
  datatype Uvarint = Uvarint(value: nat, n: int)

  const MAX_VARINT_LEN := 10

  /** Reading goes on at `b` after `i` bytes of the same varint. */
  function ReadFrom(b: Bytes, i: nat): (r: Uvarint)
    ensures r.n <= |b|
  {
    if b == [] then Uvarint(0, 0)
    else if i == MAX_VARINT_LEN then Uvarint(0, -(i + 1))
    else if b[0] < 128 then
      if i == MAX_VARINT_LEN - 1 && b[0] > 1 then Uvarint(0, -(i + 1)) else Uvarint(b[0], 1)
    else
      var rest := ReadFrom(b[1..], i + 1);
      if rest.n <= 0 then rest else Uvarint(b[0] % 128 + 128 * rest.value, rest.n + 1)
  }

  function ReadUvarint(b: Bytes): (r: Uvarint)
    ensures r.n <= |b|
  {
    ReadFrom(b, 0)
  }

  /** `binary.PutUvarint`. */
  function PutUvarint(x: nat): (b: Bytes)
    ensures b != []
  {
    if x < 128 then [x] else [x % 128 + 128] + PutUvarint(x / 128)
  }

  /** Groups of seven bits, the lowest first. */
  function Groups(b: Bytes): nat {
    if b == [] then 0 else b[0] % 128 + 128 * Groups(b[1..])
  }

  lemma {:induction false} ReadFromCases(b: Bytes, i: nat, k: nat)
    requires i + k <= 10 && k <= |b| && forall j :: 0 <= j < k ==> b[j] >= 128
    ensures k == |b| ==> ReadFrom(b, i) == Uvarint(0, 0)
    ensures k < |b| && i + k == 10 ==> ReadFrom(b, i) == Uvarint(0, -11)
    ensures k < |b| && i + k < 10 && b[k] < 128 ==>
              ReadFrom(b, i) == if i + k == 9 && b[k] > 1 then Uvarint(0, -10) else Uvarint(Groups(b[..k + 1]), k + 1)
    decreases k
  {
    if k > 0 {
      ReadFromCases(b[1..], i + 1, k - 1);
      if k < |b| {
        assert b[..k + 1][1..] == b[1..][..k];
      }
    } else if b != [] {
      assert b[..1][1..] == [];
    }
  }

  /** A varint ends with the first byte below 128, at the latest with the tenth, which holds one bit; `k` bytes from 128 on
      come first. */
  lemma UvarintCases(b: Bytes, k: nat)
    requires k <= 10 && k <= |b| && forall j :: 0 <= j < k ==> b[j] >= 128
    ensures k == |b| ==> ReadUvarint(b) == Uvarint(0, 0)
    ensures k < |b| && k == 10 ==> ReadUvarint(b) == Uvarint(0, -11)
    ensures k < |b| && k < 10 && b[k] < 128 ==>
              ReadUvarint(b) == if k == 9 && b[k] > 1 then Uvarint(0, -10) else Uvarint(Groups(b[..k + 1]), k + 1)
  {
    ReadFromCases(b, 0, k);
  }

  /** `raw` is a whole varint of value `v`, not necessarily the shortest one. */
  predicate IsVarint(raw: Bytes, v: nat) {
    raw != [] && ReadUvarint(raw) == Uvarint(v, |raw|)
  }

  /** The values that are left for a varint after `i` of its bytes: all 64 bits at first, one bit in the tenth byte. */
  function Room(i: nat): (room: nat)
    requires i < MAX_VARINT_LEN
    ensures room >= 2 && (i < MAX_VARINT_LEN - 1 ==> room >= 256)
    decreases MAX_VARINT_LEN - i
  {
    if i == MAX_VARINT_LEN - 1 then 2 else 128 * Room(i + 1)
  }

  lemma RoomIs64Bits()
    ensures Room(0) == 0x1_0000_0000_0000_0000
  {
    assert Room(8) == 128 * Room(9);
    assert Room(7) == 128 * Room(8);
    assert Room(6) == 128 * Room(7);
    assert Room(5) == 128 * Room(6);
    assert Room(4) == 128 * Room(5);
    assert Room(3) == 128 * Room(4);
    assert Room(2) == 128 * Room(3);
    assert Room(1) == 128 * Room(2);
    assert Room(0) == 128 * Room(1);
  }

  lemma {:induction false} PutRoundTripFrom(x: nat, i: nat)
    requires i < MAX_VARINT_LEN && x < Room(i)
    ensures ReadFrom(PutUvarint(x), i) == Uvarint(x, |PutUvarint(x)|)
    decreases MAX_VARINT_LEN - i
  {
    if x >= 128 {
      PutRoundTripFrom(x / 128, i + 1);
      assert PutUvarint(x)[1..] == PutUvarint(x / 128);
    }
  }

  lemma PutRoundTrip(x: nat)
    requires x < 0x1_0000_0000_0000_0000
    ensures IsVarint(PutUvarint(x), x)
  {
    RoomIs64Bits();
    PutRoundTripFrom(x, 0);
  }

  lemma {:induction false} ReadFromBound(b: Bytes, i: nat)
    requires i < MAX_VARINT_LEN
    ensures ReadFrom(b, i).value < Room(i)
    decreases MAX_VARINT_LEN - i
  {
    if b != [] && b[0] >= 128 && i + 1 < MAX_VARINT_LEN {
      ReadFromBound(b[1..], i + 1);
    }
  }

  lemma VarintBound(raw: Bytes, v: nat)
    requires IsVarint(raw, v)
    ensures v < 0x1_0000_0000_0000_0000
  {
    RoomIs64Bits();
    ReadFromBound(raw, 0);
  }

  lemma {:induction false} ReadFromPrefix(raw: Bytes, rest: Bytes, i: nat)
    requires ReadFrom(raw, i).n > 0
    ensures ReadFrom(raw + rest, i) == ReadFrom(raw, i)
  {
    if raw[0] >= 128 {
      ReadFromPrefix(raw[1..], rest, i + 1);
      assert (raw + rest)[1..] == raw[1..] + rest;
    }
  }

  /** What follows a varint does not change how it is read. */
  lemma ReadUvarintAt(d: Bytes, i: nat, raw: Bytes, v: nat)
    requires IsVarint(raw, v) && At(d, i, raw)
    ensures ReadUvarint(d[i..]) == Uvarint(v, |raw|)
  {
    assert d[i..] == raw + d[i + |raw|..];
    ReadFromPrefix(raw, d[i + |raw|..], 0);
  }

  lemma {:induction false} PutIsShortestFrom(raw: Bytes, i: nat)
    requires ReadFrom(raw, i).n == |raw| > 0
    ensures |PutUvarint(ReadFrom(raw, i).value)| <= |raw|
    decreases |raw|
  {
    if raw[0] >= 128 {
      PutIsShortestFrom(raw[1..], i + 1);
    }
  }

  lemma {:induction false} PutIsMonotone(x: nat, y: nat)
    requires x <= y
    ensures |PutUvarint(x)| <= |PutUvarint(y)|
  {
    if x >= 128 {
      PutIsMonotone(x / 128, y / 128);
    }
  }
}
