/** The ring of recently sent messages (retry.go): what a lookup finds after any run of additions. */
module RecentMessages {
  import opened Wrappers
  import opened Bytes

  const RING_SIZE := 256

  datatype Key = Key(to: Bytes, id: Bytes)

  const NO_KEY := Key([], [])

  /** The map and the ring after some additions, oldest first. */
  datatype Ring = Ring(slots: seq<Key>, ptr: nat, messages: map<Key, Bytes>)

  function Empty(): Ring {
    Ring(seq(RING_SIZE, i => NO_KEY), 0, map[])
  }

  /** A slot that was never used has an empty id, and so evicts nothing. */
  function Add(r: Ring, key: Key, message: Bytes): Ring
    requires r.ptr < |r.slots|
  {
    Ring(r.slots[r.ptr := key],
         if r.ptr + 1 >= |r.slots| then 0 else r.ptr + 1,
         Evict(r.messages, r.slots[r.ptr])[key := message])
  }

  function Evict(messages: map<Key, Bytes>, evicted: Key): map<Key, Bytes> {
    if evicted.id != [] then messages - {evicted} else messages
  }

  // ---- Runs ----

  lemma NextSlot(n: nat)
    ensures (n + 1) % RING_SIZE == if n % RING_SIZE + 1 >= RING_SIZE then 0 else n % RING_SIZE + 1
  {
  }

  function AddAll(adds: seq<(Key, Bytes)>): (r: Ring)
    ensures |r.slots| == RING_SIZE && r.ptr == |adds| % RING_SIZE
  {
    if adds == [] then Empty()
    else
      NextSlot(|adds| - 1);
      Add(AddAll(adds[..|adds| - 1]), adds[|adds| - 1].0, adds[|adds| - 1].1)
  }

  /** Slot `i` holds what was added last among the additions that came to it. */
  lemma {:induction false} SlotHolds(adds: seq<(Key, Bytes)>, i: nat)
    requires i < |adds| <= i + RING_SIZE
    ensures AddAll(adds).slots[i % RING_SIZE] == adds[i].0
  {
    if i < |adds| - 1 {
      SlotHolds(adds[..|adds| - 1], i);
      DifferentSlots(i, |adds| - 1);
    }
  }

  lemma DifferentSlots(i: nat, k: nat)
    requires i < k < i + RING_SIZE
    ensures i % RING_SIZE != k % RING_SIZE
  {
  }

  lemma {:induction false} SlotUnused(adds: seq<(Key, Bytes)>, i: nat)
    requires |adds| <= i < RING_SIZE
    ensures AddAll(adds).slots[i] == NO_KEY
  {
    if adds != [] {
      SlotUnused(adds[..|adds| - 1], i);
    }
  }

  /** The position of the last addition of a key. */
  function LastAdded(adds: seq<(Key, Bytes)>, key: Key): Option<nat> {
    if adds == [] then None
    else if adds[|adds| - 1].0 == key then Some(|adds| - 1)
    else LastAdded(adds[..|adds| - 1], key)
  }

  /** Since the last addition of the key, no slot that held the key was given to another message. The slot of an
      addition is given away 256 additions later. */
  predicate Kept(adds: seq<(Key, Bytes)>, key: Key) {
    LastAdded(adds, key).Some? && (key.id == [] || NotEvictedSince(adds, key, LastAdded(adds, key).value))
  }

  predicate NotEvictedSince(adds: seq<(Key, Bytes)>, key: Key, last: nat) {
    forall i :: 0 <= i < |adds| && adds[i].0 == key ==> !(last < i + 256 < |adds|)
  }

  lemma {:induction false} LastAddedAt(adds: seq<(Key, Bytes)>, key: Key)
    ensures match LastAdded(adds, key)
      case None => forall i :: 0 <= i < |adds| ==> adds[i].0 != key
      case Some(l) => l < |adds| && adds[l].0 == key && forall i :: l < i < |adds| ==> adds[i].0 != key
  {
    if adds != [] {
      LastAddedAt(adds[..|adds| - 1], key);
    }
  }

  lemma SlotOf(n: nat)
    ensures n < RING_SIZE ==> n % RING_SIZE == n
    ensures n >= RING_SIZE ==> (n - RING_SIZE) % RING_SIZE == n % RING_SIZE
  {
  }

  /** What one more addition evicts. */
  lemma Evicted(adds: seq<(Key, Bytes)>)
    ensures var r := AddAll(adds);
            r.slots[r.ptr] == if |adds| >= RING_SIZE then adds[|adds| - RING_SIZE].0 else NO_KEY
  {
    hide AddAll;
    SlotOf(|adds|);
    if |adds| >= RING_SIZE {
      SlotHolds(adds, |adds| - RING_SIZE);
    } else {
      SlotUnused(adds, |adds|);
    }
  }

  /** For every run of additions: a lookup finds a message exactly when its key was kept, and then the last one added
      under that key. */
  lemma {:induction false} FoundIff(adds: seq<(Key, Bytes)>, key: Key)
    ensures key in AddAll(adds).messages <==> Kept(adds, key)
    ensures key in AddAll(adds).messages ==>
              LastAdded(adds, key).Some? && LastAdded(adds, key).value < |adds|
              && AddAll(adds).messages[key] == adds[LastAdded(adds, key).value].1
  {
    LastAddedAt(adds, key);
    if adds != [] {
      var before := adds[..|adds| - 1];
      FoundIff(before, key);
      LastAddedAt(before, key);
      Evicted(before);
      hide AddAll;
      AddAllStep(adds);
      if adds[|adds| - 1].0 != key {
        KeptStep(adds, key);
      }
    }
  }

  /** For example: a key that is added twice in a row and then followed by 255 others is gone, though its last message
      is among the last 256. */
  lemma AddedAgainIsLost(key: Key, first: Bytes, second: Bytes, others: seq<(Key, Bytes)>)
    requires key.id != [] && |others| == 255 && forall a :: a in others ==> a.0 != key
    ensures key !in AddAll([(key, first), (key, second)] + others).messages
  {
    hide AddAll;
    var adds := [(key, first), (key, second)] + others;
    FoundIff(adds, key);
    LastAddedAt(adds, key);
    assert adds[0].0 == key && adds[1] == (key, second);
    assert forall i :: 2 <= i < |adds| ==> adds[i] == others[i - 2];
    assert LastAdded(adds, key) == Some(1);
  }

  lemma AddAllStep(adds: seq<(Key, Bytes)>)
    requires adds != []
    ensures AddAll(adds) == Add(AddAll(adds[..|adds| - 1]), adds[|adds| - 1].0, adds[|adds| - 1].1)
  {
  }

  lemma KeptStep(adds: seq<(Key, Bytes)>, key: Key)
    requires adds != [] && adds[|adds| - 1].0 != key
    ensures var before := adds[..|adds| - 1];
            Kept(adds, key) <==>
              Kept(before, key)
              && !(|before| >= RING_SIZE && before[|before| - RING_SIZE].0 == key && key.id != [])
  {
    var before := adds[..|adds| - 1];
    LastAddedAt(adds, key);
    LastAddedAt(before, key);
    assert forall i :: 0 <= i < |before| ==> before[i] == adds[i];
    assert |adds| == |before| + 1;
    if |before| >= RING_SIZE {
      assert before[|before| - RING_SIZE] == adds[|adds| - 1 - RING_SIZE];
    }
  }

  /** When no key is added twice, exactly the last 256 messages are found. */
  lemma DistinctKeysFound(adds: seq<(Key, Bytes)>, key: Key)
    requires forall i, k :: 0 <= i < k < |adds| ==> adds[i].0 != adds[k].0
    requires key.id != []
    ensures key in AddAll(adds).messages <==>
            exists i :: 0 <= i < |adds| && |adds| <= i + 256 && adds[i].0 == key
  {
    hide AddAll;
    FoundIff(adds, key);
    LastAddedAt(adds, key);
  }

  /** With non-empty ids only, everything in the map is one of the last 256 additions, so it never holds more. */
  lemma BoundedBySlots(adds: seq<(Key, Bytes)>)
    requires forall a :: a in adds ==> a.0.id != []
    ensures |AddAll(adds).messages| <= 256
    ensures forall key :: key in AddAll(adds).messages ==> key in AddAll(adds).slots
  {
    hide AddAll;
    var r := AddAll(adds);
    forall key | key in r.messages
      ensures key in r.slots
    {
      FoundIff(adds, key);
      LastAddedAt(adds, key);
      var l := LastAdded(adds, key).value;
      assert adds[l] in adds;
      SlotHolds(adds, l);
      assert r.slots[l % RING_SIZE] == key;
    }
    FewElements(r.slots);
    var slots := set k | k in r.slots;
    assert r.messages.Keys <= slots;
    FewerKeys(r.messages.Keys, slots);
  }

  lemma {:induction false} FewElements(s: seq<Key>)
    ensures |set k | k in s| <= |s|
  {
    if s != [] {
      FewElements(s[1..]);
      assert (set k | k in s) == (set k | k in s[1..]) + {s[0]};
    } else {
      assert (set k | k in s) == {};
    }
  }

  lemma {:induction false} FewerKeys(a: set<Key>, b: set<Key>)
    requires a <= b
    ensures |a| <= |b|
  {
    if a != {} {
      var x :| x in a;
      FewerKeys(a - {x}, b - {x});
    }
  }

  // ---- The client ----

  class Client {
    const slots: array<Key>
    var ptr: nat
    var messages: map<Key, Bytes>
    /** All additions so far, oldest first. */
    ghost var added: seq<(Key, Bytes)>

    ghost predicate Valid()
      reads this, slots
    {
      slots.Length == RING_SIZE && ptr < RING_SIZE && Current() == AddAll(added)
    }

    function Current(): Ring
      reads this, slots
    {
      Ring(slots[..], ptr, messages)
    }

    constructor ()
      ensures Valid() && added == [] && fresh(slots)
    {
      slots := new Key[RING_SIZE](_ => NO_KEY);
      ptr := 0;
      messages := map[];
      added := [];
      new;
      assert slots[..] == Empty().slots;
    }

    method AddRecentMessage(key: Key, message: Bytes)
      requires Valid()
      modifies this, slots
      ensures Valid() && added == old(added) + [(key, message)]
      ensures Current() == Add(old(Current()), key, message)
    {
      if slots[ptr].id != [] {
        messages := messages - {slots[ptr]};
      }
      messages := messages[key := message];
      slots[ptr] := key;
      ptr := ptr + 1;
      if ptr >= slots.Length {
        ptr := 0;
      }
      assert (added + [(key, message)])[..|added|] == added;
      added := added + [(key, message)];
    }

    /** A lookup finds the last message added under a key, unless a slot of the key was given away since. */
    method GetRecentMessage(key: Key) returns (message: Option<Bytes>)
      requires Valid()
      ensures message.Some? <==> Kept(added, key)
      ensures message.Some? ==>
                exists i :: LastAdded(added, key) == Some(i) && i < |added| && added[i] == (key, message.value)
    {
      FoundIff(added, key);
      LastAddedAt(added, key);
      message := if key in messages then Some(messages[key]) else None;
    }
  }
}
