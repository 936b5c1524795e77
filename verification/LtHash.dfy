/**
 The additive hash of app-state sync (appstate/lthash/lthash.go): byte strings are added and subtracted as
 vectors of 16-bit little-endian lanes that wrap around.
 */
module LtHash {
  import opened Bytes

  const MODULUS := 0x1_0000

  /** HKDF, as a function from an item to the bytes it expands to. */
  type Expander = Bytes -> Bytes

  ghost predicate ExpandsTo(expand: Expander, n: nat) {
    forall item :: |expand(item)| == n
  }

  /** `binary.LittleEndian.Uint16(b[2*j : 2*j+2])`. */
  function Lane(b: Bytes, j: nat): (lane: int)
    requires 2 * j + 1 < |b|
    ensures 0 <= lane < MODULUS
  {
    b[2 * j] as int + 256 * (b[2 * j + 1] as int)
  }

  /** The lanes determine the bytes. */
  lemma LanesDetermine(a: Bytes, b: Bytes)
    requires |a| == |b| && |a| % 2 == 0
    requires forall j: nat :: 2 * j + 1 < |a| ==> Lane(a, j) == Lane(b, j)
    ensures a == b
  {
    forall i | 0 <= i < |a|
      ensures a[i] == b[i]
    {
      var j := i / 2;
      assert Lane(a, j) == Lane(b, j);
      assert a[2 * j] == Lane(a, j) % 256 && a[2 * j + 1] == Lane(a, j) / 256;
      assert b[2 * j] == Lane(b, j) % 256 && b[2 * j + 1] == Lane(b, j) / 256;
      assert i == 2 * j || i == 2 * j + 1;
    }
  }

  /** Lane `j` of the plain, unbounded sum of the expanded items. */
  function Sum(expand: Expander, items: seq<Bytes>, j: nat): int
    requires forall item :: 2 * j + 1 < |expand(item)|
  {
    if items == [] then 0
    else Sum(expand, items[..|items| - 1], j) + Lane(expand(items[|items| - 1]), j)
  }

  lemma {:induction false} SumConcat(expand: Expander, a: seq<Bytes>, b: seq<Bytes>, j: nat)
    requires forall item :: 2 * j + 1 < |expand(item)|
    ensures Sum(expand, a + b, j) == Sum(expand, a, j) + Sum(expand, b, j)
  {
    if b == [] {
      assert a + b == a;
    } else {
      assert (a + b)[..|a + b| - 1] == a + b[..|b| - 1];
      SumConcat(expand, a, b[..|b| - 1], j);
    }
  }

  lemma SumPush(expand: Expander, items: seq<Bytes>, x: Bytes, j: nat)
    requires forall item :: 2 * j + 1 < |expand(item)|
    ensures Sum(expand, items + [x], j) == Sum(expand, items, j) + Lane(expand(x), j)
  {
    assert (items + [x])[..|items|] == items;
  }

  lemma SumWithout(expand: Expander, s: seq<Bytes>, i: nat, j: nat)
    requires forall item :: 2 * j + 1 < |expand(item)|
    requires i < |s|
    ensures Sum(expand, s, j) == Sum(expand, s[..i] + s[i + 1..], j) + Lane(expand(s[i]), j)
  {
    assert s == s[..i + 1] + s[i + 1..];
    SumConcat(expand, s[..i + 1], s[i + 1..], j);
    assert s[..i + 1][..i] == s[..i];
    SumConcat(expand, s[..i], s[i + 1..], j);
  }

  /** The order of the items does not matter, only how often each occurs. */
  lemma {:induction false} SumPermutation(expand: Expander, a: seq<Bytes>, b: seq<Bytes>, j: nat)
    requires forall item :: 2 * j + 1 < |expand(item)|
    requires multiset(a) == multiset(b)
    ensures Sum(expand, a, j) == Sum(expand, b, j)
    decreases |a|
  {
    if a == [] {
      assert |multiset(b)| == 0;
    } else {
      var last := |a| - 1;
      MultisetWithout(a, last);
      assert a[..last] + a[last + 1..] == a[..last];
      var i := Position(a[last], b, multiset(a));
      MultisetWithout(b, i);
      CancelOne(multiset(a[..last]), multiset(b[..i] + b[i + 1..]), a[last]);
      SumPermutation(expand, a[..last], b[..i] + b[i + 1..], j);
      SumWithout(expand, b, i, j);
    }
  }

  /** `h` is `base` with the expansions of `removed` subtracted and those of `added` added, lane by lane. */
  ghost predicate Updated(expand: Expander, base: Bytes, removed: seq<Bytes>, added: seq<Bytes>, h: Bytes)
    requires |base| % 2 == 0 && ExpandsTo(expand, |base|)
  {
    && |h| == |base|
    && forall j: nat :: 2 * j + 1 < |base| ==>
         Lane(h, j) == (Lane(base, j) - Sum(expand, removed, j) + Sum(expand, added, j)) % MODULUS
  }

  function UpdatedLane(expand: Expander, base: Bytes, removed: seq<Bytes>, added: seq<Bytes>, j: nat): (lane: int)
    requires 2 * j + 1 < |base| && forall item :: 2 * j + 1 < |expand(item)|
    ensures 0 <= lane < MODULUS
  {
    (Lane(base, j) - Sum(expand, removed, j) + Sum(expand, added, j)) % MODULUS
  }

  /** Byte `i` of the lane it belongs to. */
  function ByteOfLane(lane: int, i: nat): Byte
    requires 0 <= lane < MODULUS
  {
    if i % 2 == 0 then lane % 256 else lane / 256
  }

  lemma LaneOfBytes(h: Bytes, j: nat, lane: int)
    requires 2 * j + 1 < |h| && 0 <= lane < MODULUS
    requires h[2 * j] == ByteOfLane(lane, 2 * j) && h[2 * j + 1] == ByteOfLane(lane, 2 * j + 1)
    ensures Lane(h, j) == lane
  {
  }

  /** The hash that `Updated` describes. */
  function Update(expand: Expander, base: Bytes, removed: seq<Bytes>, added: seq<Bytes>): (h: Bytes)
    requires |base| % 2 == 0 && ExpandsTo(expand, |base|)
    ensures |h| == |base|
    ensures Updated(expand, base, removed, added, h)
  {
    var h := seq(|base|, i requires 0 <= i < |base| => ByteOfLane(UpdatedLane(expand, base, removed, added, i / 2), i));
    assert forall j: nat :: 2 * j + 1 < |base| ==> Lane(h, j) == UpdatedLane(expand, base, removed, added, j) by {
      forall j: nat | 2 * j + 1 < |base|
        ensures Lane(h, j) == UpdatedLane(expand, base, removed, added, j)
      {
        hide UpdatedLane;
        LaneOfBytes(h, j, UpdatedLane(expand, base, removed, added, j));
      }
    }
    h
  }

  lemma UpdatedIsUnique(expand: Expander, base: Bytes, removed: seq<Bytes>, added: seq<Bytes>,
                        removed': seq<Bytes>, added': seq<Bytes>, h: Bytes, h': Bytes)
    requires |base| % 2 == 0 && ExpandsTo(expand, |base|)
    requires multiset(removed) == multiset(removed') && multiset(added) == multiset(added')
    requires Updated(expand, base, removed, added, h) && Updated(expand, base, removed', added', h')
    ensures h == h'
  {
    forall j: nat | 2 * j + 1 < |base|
      ensures Lane(h, j) == Lane(h', j)
    {
      SumPermutation(expand, removed, removed', j);
      SumPermutation(expand, added, added', j);
    }
    LanesDetermine(h, h');
  }

  lemma ModUndo(x: int, r: int, a: int)
    requires 0 <= x < MODULUS
    ensures ((x - r + a) % MODULUS - a + r) % MODULUS == x
  {
  }

  /** Only how often each item is removed and added matters, not the order. */
  lemma UpdateOrderIrrelevant(expand: Expander, base: Bytes, removed: seq<Bytes>, added: seq<Bytes>,
                              removed': seq<Bytes>, added': seq<Bytes>)
    requires |base| % 2 == 0 && ExpandsTo(expand, |base|)
    requires multiset(removed) == multiset(removed') && multiset(added) == multiset(added')
    ensures Update(expand, base, removed, added) == Update(expand, base, removed', added')
  {
    hide Update;
    UpdatedIsUnique(expand, base, removed, added, removed', added',
                    Update(expand, base, removed, added), Update(expand, base, removed', added'));
  }

  /** Swapping the two lists undoes an update. */
  lemma UpdateUndone(expand: Expander, base: Bytes, removed: seq<Bytes>, added: seq<Bytes>)
    requires |base| % 2 == 0 && ExpandsTo(expand, |base|)
    ensures Update(expand, Update(expand, base, removed, added), added, removed) == base
  {
    hide Update;
    var h' := Update(expand, Update(expand, base, removed, added), added, removed);
    forall j: nat | 2 * j + 1 < |base|
      ensures Lane(h', j) == Lane(base, j)
    {
      ModUndo(Lane(base, j), Sum(expand, removed, j), Sum(expand, added, j));
    }
    LanesDetermine(h', base);
  }

  /** One byte, wrapped around. */
  function ByteAround(x: int): int {
    if x < 0 then x + 256 else if x < 256 then x else x - 256
  }

  /** Two bytes plus two bytes, or minus them: the first carries into the second or borrows from it. */
  predicate Carries(b0: Byte, b1: Byte, e0: Byte, e1: Byte, h0: Byte, h1: Byte) {
    && h0 == ByteAround(b0 as int + e0)
    && h1 == ByteAround(b1 as int + e1 + if b0 as int + e0 < 256 then 0 else 1)
  }

  predicate Borrows(b0: Byte, b1: Byte, e0: Byte, e1: Byte, h0: Byte, h1: Byte) {
    h0 == ByteAround(b0 as int - e0) && h1 == ByteAround(b1 as int - e1 - if b0 < e0 then 1 else 0)
  }

  lemma ModAround(x: int)
    requires -MODULUS <= x < 2 * MODULUS
    ensures x % MODULUS == if x < 0 then x + MODULUS else if x < MODULUS then x else x - MODULUS
  {
  }

  lemma TwoBytesCarry(b0: Byte, b1: Byte, e0: Byte, e1: Byte, h0: Byte, h1: Byte)
    requires h0 as int + 256 * h1 as int == (b0 as int + 256 * b1 as int + (e0 as int + 256 * e1 as int)) % MODULUS
    ensures Carries(b0, b1, e0, e1, h0, h1)
  {
    ModAround(b0 as int + 256 * b1 as int + (e0 as int + 256 * e1 as int));
  }

  lemma TwoBytesBorrow(b0: Byte, b1: Byte, e0: Byte, e1: Byte, h0: Byte, h1: Byte)
    requires h0 as int + 256 * h1 as int == (b0 as int + 256 * b1 as int - (e0 as int + 256 * e1 as int)) % MODULUS
    ensures Borrows(b0, b1, e0, e1, h0, h1)
  {
    ModAround(b0 as int + 256 * b1 as int - (e0 as int + 256 * e1 as int));
  }

  /** The lanes are two bytes, the low one first, and wrap around without touching their neighbours. */
  lemma BytesCarry(expand: Expander, base: Bytes, x: Bytes, j: nat)
    requires |base| % 2 == 0 && ExpandsTo(expand, |base|) && 2 * j + 1 < |base|
    ensures var sum, rest, e := Update(expand, base, [], [x]), Update(expand, base, [x], []), expand(x);
            && Carries(base[2 * j], base[2 * j + 1], e[2 * j], e[2 * j + 1], sum[2 * j], sum[2 * j + 1])
            && Borrows(base[2 * j], base[2 * j + 1], e[2 * j], e[2 * j + 1], rest[2 * j], rest[2 * j + 1])
  {
    hide Update, Carries, Borrows;
    var sum, rest, e := Update(expand, base, [], [x]), Update(expand, base, [x], []), expand(x);
    assert [x][..0] == [] && Sum(expand, [], j) == 0 && Sum(expand, [x], j) == Lane(e, j);
    TwoBytesCarry(base[2 * j], base[2 * j + 1], e[2 * j], e[2 * j + 1], sum[2 * j], sum[2 * j + 1]);
    TwoBytesBorrow(base[2 * j], base[2 * j + 1], e[2 * j], e[2 * j + 1], rest[2 * j], rest[2 * j + 1]);
  }

  /** Lane `j` after adding or subtracting `y` with wrap-around. */
  function WrapAround(x: int, y: int, subtract: bool): int {
    (if subtract then x - y else x + y) % MODULUS
  }

  lemma SameLane(a: Bytes, b: Bytes, j: nat)
    requires 2 * j + 1 < |a| && |a| == |b| && a[2 * j] == b[2 * j] && a[2 * j + 1] == b[2 * j + 1]
    ensures Lane(a, j) == Lane(b, j)
  {
  }

  method PerformPointwiseWithOverflow(base: array<Byte>, input: Bytes, subtract: bool)
    requires base.Length % 2 == 0 && |input| >= base.Length
    modifies base
    ensures forall j: nat :: 2 * j + 1 < base.Length ==>
              Lane(base[..], j) == WrapAround(Lane(old(base[..]), j), Lane(input, j), subtract)
  {
    var i := 0;
    while i < base.Length
      invariant 0 <= i <= base.Length && i % 2 == 0
      invariant forall k :: i <= k < base.Length ==> base[k] == old(base[k])
      invariant forall j: nat :: 2 * j + 1 < i ==>
                  Lane(base[..], j) == WrapAround(Lane(old(base[..]), j), Lane(input, j), subtract)
    {
      ghost var before := base[..];
      var x := base[i] as int + 256 * (base[i + 1] as int);
      var y := input[i] as int + 256 * (input[i + 1] as int);
      var result := (if subtract then x - y else x + y) % MODULUS;
      assert result == WrapAround(Lane(before, i / 2), Lane(input, i / 2), subtract);
      hide WrapAround, Lane;
      base[i] := result % 256;
      base[i + 1] := result / 256;
      forall j: nat | 2 * j + 1 < i + 2
        ensures Lane(base[..], j) == WrapAround(Lane(old(base[..]), j), Lane(input, j), subtract)
      {
        if 2 * j + 1 < i {
          SameLane(base[..], before, j);
        } else {
          assert 2 * j == i;
          LaneOfBytes(base[..], j, result);
          SameLane(old(base[..]), before, j);
        }
      }
      i := i + 2;
    }
  }

  /** `sign` is -1 to subtract and 1 to add. */
  ghost predicate Shifted(expand: Expander, base: Bytes, items: seq<Bytes>, sign: int, h: Bytes)
    requires |base| % 2 == 0 && ExpandsTo(expand, |base|)
  {
    && |h| == |base|
    && forall j: nat :: 2 * j + 1 < |base| ==>
         Lane(h, j) == (Lane(base, j) + sign * Sum(expand, items, j)) % MODULUS
  }

  lemma ModSum(a: int, b: int)
    ensures (a % MODULUS + b) % MODULUS == (a + b) % MODULUS
  {
  }

  method MultipleOp(expand: Expander, base: array<Byte>, input: seq<Bytes>, subtract: bool)
    requires base.Length % 2 == 0 && ExpandsTo(expand, base.Length)
    modifies base
    ensures Shifted(expand, old(base[..]), input, if subtract then -1 else 1, base[..])
  {
    ghost var start := base[..];
    ghost var sign := if subtract then -1 else 1;
    forall j: nat | 2 * j + 1 < |start|
      ensures Lane(start, j) == (Lane(start, j) + sign * Sum(expand, [], j)) % MODULUS
    {
    }
    for i := 0 to |input|
      invariant Shifted(expand, start, input[..i], sign, base[..])
    {
      ghost var before := base[..];
      PerformPointwiseWithOverflow(base, expand(input[i]), subtract);
      forall j: nat | 2 * j + 1 < |start|
        ensures Lane(base[..], j) == (Lane(start, j) + sign * Sum(expand, input[..i + 1], j)) % MODULUS
      {
        assert input[..i + 1][..i] == input[..i];
        ModSum(Lane(start, j) + sign * Sum(expand, input[..i], j), sign * Lane(expand(input[i]), j));
      }
    }
    assert input[..|input|] == input;
  }

  lemma ShiftedTwice(expand: Expander, start: Bytes, removed: seq<Bytes>, middle: Bytes, added: seq<Bytes>, h: Bytes)
    requires |start| % 2 == 0 && ExpandsTo(expand, |start|)
    requires Shifted(expand, start, removed, -1, middle) && Shifted(expand, middle, added, 1, h)
    ensures h == Update(expand, start, removed, added)
  {
    hide Update;
    forall j: nat | 2 * j + 1 < |start|
      ensures Lane(h, j) == (Lane(start, j) - Sum(expand, removed, j) + Sum(expand, added, j)) % MODULUS
    {
      ModSum(Lane(start, j) - Sum(expand, removed, j), Sum(expand, added, j));
    }
    UpdatedIsUnique(expand, start, removed, added, removed, added, h, Update(expand, start, removed, added));
  }

  method SubtractThenAddInPlace(expand: Expander, base: array<Byte>, subtract: seq<Bytes>, add: seq<Bytes>)
    requires base.Length % 2 == 0 && ExpandsTo(expand, base.Length)
    modifies base
    ensures base[..] == Update(expand, old(base[..]), subtract, add)
  {
    hide Update;
    ghost var start := base[..];
    MultipleOp(expand, base, subtract, true);
    ghost var middle := base[..];
    MultipleOp(expand, base, add, false);
    ShiftedTwice(expand, start, subtract, middle, add, base[..]);
  }

  method SubtractThenAdd(expand: Expander, base: array<Byte>, subtract: seq<Bytes>, add: seq<Bytes>)
    returns (output: array<Byte>)
    requires base.Length % 2 == 0 && ExpandsTo(expand, base.Length)
    ensures fresh(output) && output[..] == Update(expand, base[..], subtract, add)
  {
    output := new Byte[base.Length];
    for i := 0 to base.Length
      invariant forall k :: 0 <= k < i ==> output[k] == base[k]
    {
      output[i] := base[i];
    }
    assert output[..] == base[..];
    SubtractThenAddInPlace(expand, output, subtract, add);
  }
}
