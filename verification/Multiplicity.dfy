/**
 Sums of expanded items by multiplicity: two lists of items add up to the same in every 16-bit lane, for every hash
 function, exactly when each item occurs in both equally often modulo 2^16.
 */
module Multiplicities {
  import opened Bytes
  import opened LtHash
  import opened AppState

  function Without(items: seq<Bytes>, x: Bytes): (rest: seq<Bytes>)
    ensures |rest| <= |items| && (x in items ==> |rest| < |items|)
  {
    if items == [] then []
    else if items[|items| - 1] == x then Without(items[..|items| - 1], x)
    else Without(items[..|items| - 1], x) + [items[|items| - 1]]
  }

  lemma MultiplicityPush(items: seq<Bytes>, x: Bytes, y: Bytes)
    ensures multiset(items + [x])[y] == multiset(items)[y] + if x == y then 1 else 0
  {
  }

  lemma {:induction false} WithoutMultiplicity(items: seq<Bytes>, x: Bytes, y: Bytes)
    ensures multiset(Without(items, x))[y] == if x == y then 0 else multiset(items)[y]
  {
    if items != [] {
      var front, last := items[..|items| - 1], items[|items| - 1];
      assert items == front + [last];
      WithoutMultiplicity(front, x, y);
      MultiplicityPush(front, last, y);
      MultiplicityPush(Without(front, x), last, y);
    }
  }

  function Times(n: nat, lane: int): int {
    n * lane
  }

  lemma {:induction false} SumWithoutAll(expand: Expander, items: seq<Bytes>, x: Bytes, j: nat)
    requires forall item :: 2 * j + 1 < |expand(item)|
    ensures Sum(expand, items, j) == Sum(expand, Without(items, x), j) + Times(multiset(items)[x], Lane(expand(x), j))
  {
    if items != [] {
      var front, last := items[..|items| - 1], items[|items| - 1];
      assert items == front + [last];
      SumWithoutAll(expand, front, x, j);
      MultiplicityPush(front, last, x);
      if last == x {
        Distribute(multiset(front)[x], Lane(expand(x), j));
      } else {
        SumPush(expand, Without(front, x), last, j);
      }
    }
  }

  lemma Distribute(n: nat, lane: int)
    ensures Times(n + 1, lane) == Times(n, lane) + lane
  {
  }

  /** What is nothing in a lane of 16 bits. */
  predicate Vanishes(x: int) {
    x % MODULUS == 0
  }

  lemma MultipleVanishes(a: nat, b: nat, lane: int, rest: int)
    requires Vanishes(a - b) && Vanishes(rest)
    ensures Vanishes(rest + Times(a, lane) - Times(b, lane))
  {
    var q, p := (a - b) / MODULUS, rest / MODULUS;
    assert a - b == MODULUS * q && rest == MODULUS * p;
    assert a * lane - b * lane == (a - b) * lane == MODULUS * (q * lane);
    WholeMultiple(p + q * lane);
  }

  lemma WholeMultiple(q: int)
    ensures (MODULUS * q) % MODULUS == 0
  {
  }

  function Surplus(a: seq<Bytes>, b: seq<Bytes>, x: Bytes): int {
    var more: int := multiset(a)[x];
    more - multiset(b)[x]
  }

  ghost predicate SameMultiplicities(a: seq<Bytes>, b: seq<Bytes>) {
    forall x :: Vanishes(Surplus(a, b, x))
  }

  lemma WithoutKeepsMultiplicities(a: seq<Bytes>, b: seq<Bytes>, x: Bytes)
    requires SameMultiplicities(a, b)
    ensures SameMultiplicities(Without(a, x), Without(b, x))
  {
    hide Without;
    forall y
      ensures Vanishes(Surplus(Without(a, x), Without(b, x), y))
    {
      WithoutMultiplicity(a, x, y);
      WithoutMultiplicity(b, x, y);
      assert Vanishes(Surplus(a, b, y));
    }
  }

  lemma SameSumsStep(expand: Expander, a: seq<Bytes>, b: seq<Bytes>, x: Bytes, j: nat)
    requires forall item :: 2 * j + 1 < |expand(item)|
    requires SameMultiplicities(a, b)
    requires Vanishes(Sum(expand, Without(a, x), j) - Sum(expand, Without(b, x), j))
    ensures Vanishes(Sum(expand, a, j) - Sum(expand, b, j))
  {
    hide Sum, Without, Lane, Times, Vanishes;
    assert Vanishes(Surplus(a, b, x));
    SumWithoutAll(expand, a, x, j);
    SumWithoutAll(expand, b, x, j);
    MultipleVanishes(multiset(a)[x], multiset(b)[x], Lane(expand(x), j),
                     Sum(expand, Without(a, x), j) - Sum(expand, Without(b, x), j));
  }

  /** Sums agree modulo 2^16 when the multiplicities do. */
  lemma {:induction false} SameSums(expand: Expander, a: seq<Bytes>, b: seq<Bytes>, j: nat)
    requires forall item :: 2 * j + 1 < |expand(item)|
    requires SameMultiplicities(a, b)
    ensures Vanishes(Sum(expand, a, j) - Sum(expand, b, j))
    decreases |a| + |b|
  {
    if a == [] && b == [] {
      assert Sum(expand, a, j) == 0 && Sum(expand, b, j) == 0;
    } else {
      hide Sum, Without, Vanishes, SameMultiplicities;
      assert a != [] ==> a[0] in a;
      assert b != [] ==> b[0] in b;
      var x :| x in a || x in b;
      WithoutKeepsMultiplicities(a, b, x);
      SameSums(expand, Without(a, x), Without(b, x), j);
      SameSumsStep(expand, a, b, x, j);
    }
  }

  /** An expansion to a one in every lane for one item, and to zeros for all others. */
  function Only(x: Bytes): Expander {
    item => seq(HASH_SIZE, i => if item == x && i % 2 == 0 then 1 else 0)
  }

  lemma OnlyLane(x: Bytes, item: Bytes)
    ensures ExpandsTo(Only(x), HASH_SIZE) && Lane(Only(x)(item), 0) == if item == x then 1 else 0
  {
  }

  lemma {:induction false} OnlyCounts(x: Bytes, items: seq<Bytes>)
    ensures ExpandsTo(Only(x), HASH_SIZE) && Sum(Only(x), items, 0) == multiset(items)[x]
  {
    OnlyLane(x, x);
    if items != [] {
      var front, last := items[..|items| - 1], items[|items| - 1];
      assert items == front + [last];
      OnlyCounts(x, front);
      OnlyLane(x, last);
      MultiplicityPush(front, last, x);
    }
  }

  /** The two sums agree modulo 2^16, for every hash function and in every lane. */
  ghost predicate SumsAlwaysAgree(a: seq<Bytes>, b: seq<Bytes>) {
    forall expand: Expander, j: nat | ExpandsTo(expand, HASH_SIZE) && 2 * j + 1 < HASH_SIZE ::
      Vanishes(Sum(expand, a, j) - Sum(expand, b, j))
  }

  lemma SameSumsIff(a: seq<Bytes>, b: seq<Bytes>)
    ensures SumsAlwaysAgree(a, b) <==> SameMultiplicities(a, b)
  {
    hide Sum, Only, Vanishes;
    if SumsAlwaysAgree(a, b) {
      forall x
        ensures Vanishes(Surplus(a, b, x))
      {
        OnlyCounts(x, a);
        OnlyCounts(x, b);
        assert Vanishes(Sum(Only(x), a, 0) - Sum(Only(x), b, 0));
      }
    }
    if SameMultiplicities(a, b) {
      forall expand: Expander, j: nat | ExpandsTo(expand, HASH_SIZE) && 2 * j + 1 < HASH_SIZE
        ensures Vanishes(Sum(expand, a, j) - Sum(expand, b, j))
      {
        SameSums(expand, a, b, j);
      }
    }
  }

  lemma SmallDrift(drift: int)
    requires -MODULUS < drift < MODULUS
    ensures drift % MODULUS == 0 <==> drift == 0
  {
  }

  lemma MultiplicityBound(items: seq<Bytes>, x: Bytes)
    ensures multiset(items)[x] <= |items|
  {
    assert |multiset(items)| == |items|;
    assert multiset(items) == multiset(items)[x := 0] + multiset{}[x := multiset(items)[x]];
  }

  /** Short lists agree exactly when they hold the same items equally often. */
  lemma ShortListsAgree(a: seq<Bytes>, b: seq<Bytes>)
    requires |a| < MODULUS && |b| < MODULUS
    ensures SameMultiplicities(a, b) <==> multiset(a) == multiset(b)
  {
    hide Vanishes;
    forall x
      ensures Vanishes(Surplus(a, b, x)) <==> multiset(a)[x] == multiset(b)[x]
    {
      MultiplicityBound(a, x);
      MultiplicityBound(b, x);
      VanishesWhenZero(Surplus(a, b, x));
    }
    if SameMultiplicities(a, b) {
      assert forall x :: Vanishes(Surplus(a, b, x)) ==> multiset(a)[x] == multiset(b)[x];
    }
  }

  lemma VanishesWhenZero(x: int)
    requires -MODULUS < x < MODULUS
    ensures Vanishes(x) <==> x == 0
  {
    SmallDrift(x);
  }

  lemma SumOne(expand: Expander, x: Bytes, j: nat)
    requires forall item :: 2 * j + 1 < |expand(item)|
    ensures Sum(expand, [], j) == 0 && Sum(expand, [x], j) == Lane(expand(x), j)
  {
    assert [x][..0] == [];
  }
}
