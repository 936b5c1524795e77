/** Which patches drift: the exact condition in the arithmetic of the hash, and an accepted patch that does. */
module Drifts {
  import opened Wrappers
  import opened Bytes
  import opened LtHash
  import opened AppState
  import opened HashInvariant
  import opened Multiplicities

  /** No hash function makes the patch move hash and table apart, in any lane. */
  ghost predicate NeverDrifts(ms: seq<Mutation>)
    requires Sound(ms)
  {
    forall expand: Expander, j: nat | ExpandsTo(expand, HASH_SIZE) && 2 * j + 1 < HASH_SIZE ::
      Drift(expand, ms, j) % MODULUS == 0
  }

  // ---- What a patch adds and removes in excess ----

  /** The value MACs that one mutation adds to and removes from the hash beyond what happens to the table. */
  function ExcessStep(before: seq<Mutation>, m: Mutation): Lists
    requires Sound(before)
  {
    LastSound(before, m.index);
    match LastMention(before, m.index)
    case None => Lists([], [])
    case Some(previous) =>
      if m.op == SET && previous.op == SET then Lists([], [])
      else if m.op == SET && LastSet(before, m.index).Some? then
        Lists([ValueMAC(previous.blob)], [ValueMAC(LastSet(before, m.index).value.blob)])
      else Lists([ValueMAC(previous.blob)], [])
  }

  function Excess(ms: seq<Mutation>): Lists
    requires Sound(ms)
  {
    if ms == [] then Lists([], [])
    else
      SoundPrefix(ms);
      var lists, step := Excess(ms[..|ms| - 1]), ExcessStep(ms[..|ms| - 1], ms[|ms| - 1]);
      Lists(lists.removed + step.removed, lists.added + step.added)
  }

  lemma DriftStepIsExcess(expand: Expander, before: seq<Mutation>, m: Mutation, j: nat)
    requires Sound(before) && forall item :: 2 * j + 1 < |expand(item)|
    ensures DriftStep(expand, before, m, j)
         == Sum(expand, ExcessStep(before, m).added, j) - Sum(expand, ExcessStep(before, m).removed, j)
  {
    hide Sum, LastMention, LastSet, ValueMAC;
    LastSound(before, m.index);
    if LastMention(before, m.index).Some? {
      SumOne(expand, ValueMAC(LastMention(before, m.index).value.blob), j);
      if LastSet(before, m.index).Some? {
        SumOne(expand, ValueMAC(LastSet(before, m.index).value.blob), j);
      }
    } else {
      SumOne(expand, [], j);
    }
  }

  lemma {:induction false} DriftIsExcess(expand: Expander, ms: seq<Mutation>, j: nat)
    requires Sound(ms) && forall item :: 2 * j + 1 < |expand(item)|
    ensures Drift(expand, ms, j) == Sum(expand, Excess(ms).added, j) - Sum(expand, Excess(ms).removed, j)
  {
    if ms == [] {
      SumOne(expand, [], j);
    } else {
      hide Sum, DriftStep, ExcessStep;
      SoundPrefix(ms);
      var before, m := ms[..|ms| - 1], ms[|ms| - 1];
      DriftIsExcess(expand, before, j);
      DriftStepIsExcess(expand, before, m, j);
      SumConcat(expand, Excess(before).added, ExcessStep(before, m).added, j);
      SumConcat(expand, Excess(before).removed, ExcessStep(before, m).removed, j);
    }
  }

  /** How much more often a value MAC is added than removed in excess. */
  function Net(ms: seq<Mutation>, mac: Bytes): int
    requires Sound(ms)
  {
    Surplus(Excess(ms).added, Excess(ms).removed, mac)
  }

  /** Every value MAC in excess comes back to nothing: 2^16 times the same is nothing in every lane. */
  ghost predicate Balanced(ms: seq<Mutation>)
    requires Sound(ms)
  {
    forall mac :: Net(ms, mac) % MODULUS == 0
  }

  /** For every patch: no hash function makes it drift exactly when all its excess comes back to nothing. */
  lemma DriftFreeIff(ms: seq<Mutation>)
    requires Sound(ms)
    ensures NeverDrifts(ms) <==> Balanced(ms)
  {
    hide Drift, Excess, Sum, Surplus;
    var added, removed := Excess(ms).added, Excess(ms).removed;
    SameSumsIff(added, removed);
    forall expand: Expander, j: nat | ExpandsTo(expand, HASH_SIZE) && 2 * j + 1 < HASH_SIZE
      ensures Drift(expand, ms, j) == Sum(expand, added, j) - Sum(expand, removed, j)
    {
      DriftIsExcess(expand, ms, j);
    }
    if NeverDrifts(ms) {
      forall expand: Expander, j: nat | ExpandsTo(expand, HASH_SIZE) && 2 * j + 1 < HASH_SIZE
        ensures Vanishes(Sum(expand, added, j) - Sum(expand, removed, j))
      {
        assert Drift(expand, ms, j) % MODULUS == 0;
      }
    }
    if Balanced(ms) {
      forall mac
        ensures Vanishes(Surplus(added, removed, mac))
      {
        assert Net(ms, mac) % MODULUS == 0;
      }
      forall expand: Expander, j: nat | ExpandsTo(expand, HASH_SIZE) && 2 * j + 1 < HASH_SIZE
        ensures Drift(expand, ms, j) % MODULUS == 0
      {
        assert Vanishes(Sum(expand, added, j) - Sum(expand, removed, j));
      }
    }
  }

  // ---- Patches of at most 2^16 mutations ----

  /** An expansion to ones, to tell drift apart from none. */
  function Ones(item: Bytes): (b: Bytes)
    ensures |b| == HASH_SIZE && forall j: nat :: 2 * j + 1 < HASH_SIZE ==> Lane(b, j) == 1
  {
    var b := seq(HASH_SIZE, i => if i % 2 == 0 then 1 else 0);
    b
  }

  lemma {:induction false} LastSetIn(before: seq<Mutation>, index: Bytes) returns (i: nat)
    requires LastSet(before, index).Some?
    ensures i < |before| && before[i].index == index && before[i].op == SET
  {
    if before[|before| - 1].index == index && before[|before| - 1].op == SET {
      i := |before| - 1;
    } else {
      i := LastSetIn(before[..|before| - 1], index);
    }
  }

  lemma OnesStep(before: seq<Mutation>, m: Mutation)
    requires Sound(before)
    ensures -1 <= DriftStep(Ones, before, m, 0) <= 0
    ensures before == [] ==> DriftStep(Ones, before, m, 0) == 0
  {
    LastSound(before, m.index);
  }

  lemma ConflictStep(before: seq<Mutation>, m: Mutation, i: nat)
    requires Sound(before) && RemovedOnce(before)
    requires i < |before| && before[i].index == m.index && (before[i].op == REMOVE || m.op == REMOVE)
    ensures DriftStep(Ones, before, m, 0) < 0
  {
    LastSound(before, m.index);
    if LastMention(before, m.index).None? {
      NoMention(before, m.index, i);
      assert false;
    }
    if m.op == SET {
      var l := LastMentionAt(before, m.index);
      assert l == i;
      if LastSet(before, m.index).Some? {
        var q := LastSetIn(before, m.index);
        assert false;
      }
    }
  }

  lemma LastConflict(ms: seq<Mutation>) returns (i: nat)
    requires ms != [] && !RemovedOnce(ms) && RemovedOnce(ms[..|ms| - 1])
    ensures i < |ms| - 1 && ms[i].index == ms[|ms| - 1].index && (ms[i].op == REMOVE || ms[|ms| - 1].op == REMOVE)
  {
    var k;
    i, k :| 0 <= i < k < |ms| && ms[i].index == ms[k].index && !(ms[i].op == SET && ms[k].op == SET);
    var before := ms[..|ms| - 1];
    assert forall l :: 0 <= l < |before| ==> before[l] == ms[l];
  }

  lemma {:induction false} RemovedTwiceDrifts(ms: seq<Mutation>)
    requires Sound(ms)
    ensures ms != [] ==> -|ms| < Drift(Ones, ms, 0) <= 0
    ensures !RemovedOnce(ms) ==> Drift(Ones, ms, 0) < 0
  {
    if ms != [] {
      SoundPrefix(ms);
      var before, m := ms[..|ms| - 1], ms[|ms| - 1];
      RemovedTwiceDrifts(before);
      OnesStep(before, m);
      hide DriftStep, Ones, RemovedOnce;
      if !RemovedOnce(ms) && RemovedOnce(before) {
        var i := LastConflict(ms);
        ConflictStep(before, m, i);
      }
    }
  }

  /** For a patch of at most 65536 mutations that is exactly when no removed index is mentioned twice. */
  lemma SmallPatchDriftFreeIff(ms: seq<Mutation>)
    requires Sound(ms) && |ms| <= MODULUS
    ensures NeverDrifts(ms) <==> RemovedOnce(ms)
  {
    hide Drift;
    RemovedTwiceDrifts(ms);
    var ones: Expander := Ones;
    assert ExpandsTo(ones, HASH_SIZE);
    if ms != [] {
      SmallDrift(Drift(ones, ms, 0));
    }
    assert ms == [] ==> RemovedOnce(ms);
    forall expand: Expander, j: nat | RemovedOnce(ms) && ExpandsTo(expand, HASH_SIZE) && 2 * j + 1 < HASH_SIZE
      ensures Drift(expand, ms, j) == 0
    {
      NoDrift(expand, ms, j);
    }
  }

  function Repeated(m: Mutation, n: nat): (ms: seq<Mutation>)
    ensures |ms| == n && forall i :: 0 <= i < n ==> ms[i] == m
  {
    if n == 0 then [] else Repeated(m, n - 1) + [m]
  }

  lemma RepeatedStep(m: Mutation, n: nat)
    requires |m.blob| >= MAC_SIZE && m.op == REMOVE && n > 0
    ensures ExcessStep(Repeated(m, n), m) == Lists([ValueMAC(m.blob)], [])
  {
    hide ValueMAC;
    assert LastMention(Repeated(m, n), m.index) == Some(m);
  }

  lemma {:induction false} RepeatedExcess(m: Mutation, n: nat)
    requires |m.blob| >= MAC_SIZE && m.op == REMOVE
    ensures Excess(Repeated(m, n + 1)) == Lists(RepeatedMAC(ValueMAC(m.blob), n), [])
  {
    assert Repeated(m, n + 1)[..n] == Repeated(m, n);
    hide ValueMAC;
    if n > 0 {
      RepeatedExcess(m, n - 1);
      RepeatedStep(m, n);
      hide ExcessStep;
    } else {
      assert Repeated(m, 1) == [m] && Repeated(m, 0) == [];
    }
  }

  function RepeatedMAC(mac: Bytes, n: nat): seq<Bytes> {
    if n == 0 then [] else RepeatedMAC(mac, n - 1) + [mac]
  }

  lemma {:induction false} RepeatedMultiplicity(mac: Bytes, n: nat, x: Bytes)
    ensures multiset(RepeatedMAC(mac, n))[x] == if x == mac then n else 0
  {
    if n > 0 {
      RepeatedMultiplicity(mac, n - 1, x);
      MultiplicityPush(RepeatedMAC(mac, n - 1), mac, x);
    }
  }

  /** The bound is sharp: one mutation more, and 2^16 removals in excess come back to nothing. */
  lemma ManyRemovalsComeBack(m: Mutation)
    requires |m.blob| >= MAC_SIZE && m.op == REMOVE
    ensures NeverDrifts(Repeated(m, MODULUS + 1)) && !RemovedOnce(Repeated(m, MODULUS + 1))
  {
    hide Excess, NeverDrifts, Repeated, ValueMAC;
    var ms := Repeated(m, MODULUS + 1);
    RepeatedExcess(m, MODULUS);
    forall x
      ensures Net(ms, x) % MODULUS == 0
    {
      RepeatedMultiplicity(ValueMAC(m.blob), MODULUS, x);
    }
    DriftFreeIff(ms);
    assert ms[0].index == ms[1].index && ms[0].op == REMOVE;
  }

  // ---- An accepted patch that drifts ----

  /** A mutation as a client with the keys would send it. */
  function Seal(env: Env, keyID: Bytes, op: Op, action: Action, iv: Bytes): (m: Mutation)
    requires env.Sized() && keyID in env.keys && |iv| == IV_SIZE
    ensures |m.blob| >= MAC_SIZE
  {
    var keys := env.keys[keyID];
    var content := iv + env.encrypt(keys.valueEncryption, iv, env.marshalAction(action));
    var valueMAC := ContentMAC(env, op, content, keyID, keys.valueMAC);
    Mutation(op, env.hmac256(keys.index, action.index), content + valueMAC, keyID)
  }

  lemma SealedDecodes(env: Env, keyID: Bytes, op: Op, action: Action, iv: Bytes, validate: bool)
    requires env.Sized() && env.Inverts() && keyID in env.keys && |iv| == IV_SIZE
    requires env.unmarshalIndex(action.index).Some?
    ensures DecodeMutation(env, Seal(env, keyID, op, action, iv), validate).Success?
  {
    hide ContentMAC;
    var keys := env.keys[keyID];
    var cipher := env.encrypt(keys.valueEncryption, iv, env.marshalAction(action));
    var m := Seal(env, keyID, op, action, iv);
    assert m.blob[..|m.blob| - MAC_SIZE] == iv + cipher;
    assert ValueMAC(m.blob) == ContentMAC(env, op, iv + cipher, keyID, keys.valueMAC);
    assert (iv + cipher)[..IV_SIZE] == iv && (iv + cipher)[IV_SIZE..] == cipher;
  }

  /** The patch that carries the right MACs for its mutations in state `s`. */
  function SealPatch(env: Env, name: Bytes, s: Stored, keyID: Bytes, version: Version, ms: seq<Mutation>): Patch
    requires env.Sized() && s.Valid() && keyID in env.keys && Sound(ms)
    requires Collect(PatchThenStore, s.macs, ms).Success?
  {
    var hash := UpdateHash(env, PatchThenStore, s.macs, s.state.hash, ms).value;
    var mac := SnapshotMAC(env, HashState(version, hash), name, env.keys[keyID].snapshotMAC);
    var p := Patch(version, mac, [], keyID, ms);
    p.(patchMAC := PatchMAC(env, p, name, env.keys[keyID].patchMAC, version))
  }

  lemma SealedPatchApplies(env: Env, name: Bytes, s: Stored, keyID: Bytes, version: Version, ms: seq<Mutation>,
                           validate: bool)
    requires env.Sized() && s.Valid() && keyID in env.keys && Sound(ms)
    requires Collect(PatchThenStore, s.macs, ms).Success? && DecodeMutations(env, ms, validate).Success?
    ensures ApplyPatch(env, name, s, SealPatch(env, name, s, keyID, version, ms), validate).Success?
  {
    hide Collect, Update, SnapshotMAC, After, DecodeMutations, ValueMACs;
  }

  /** An index is set and removed again in one patch. */
  function SetThenRemove(env: Env, keyID: Bytes, action: Action, iv: Bytes): (ms: seq<Mutation>)
    requires env.Sized() && keyID in env.keys && |iv| == IV_SIZE
    ensures Sound(ms)
  {
    [Seal(env, keyID, SET, action, iv), Seal(env, keyID, REMOVE, action, iv)]
  }

  lemma SetThenRemoveParts(expand: Expander, macs: Table, first: Mutation, second: Mutation)
    requires ExpandsTo(expand, HASH_SIZE) && |first.blob| >= MAC_SIZE && |second.blob| >= MAC_SIZE
    requires first.op == SET && second.op == REMOVE && first.index == second.index
    ensures Collect(PatchThenStore, macs, [first, second]).Success?
    ensures forall j: nat :: 2 * j + 1 < HASH_SIZE ==>
              Drift(expand, [first, second], j) == -Lane(expand(ValueMAC(first.blob)), j)
    ensures first.index in After(macs, [first, second])
    ensures After(macs, [first, second])[first.index] == ValueMAC(first.blob)
  {
    var ms := [first, second];
    assert ms[..1] == [first] && [first][..0] == [];
    assert Collect(PatchThenStore, macs, [first]).Success?;
    forall j: nat | 2 * j + 1 < HASH_SIZE
      ensures Drift(expand, ms, j) == -Lane(expand(ValueMAC(first.blob)), j)
    {
      assert Drift(expand, [first], j) == Drift(expand, [], j) + DriftStep(expand, [], first, j);
    }
    AfterLookup(macs, ms, first.index);
    assert LastSet(ms, first.index) == LastSet([first], first.index);
  }

  /**
   A patch that sets an index and removes it again, sent by a client with the keys, is accepted with validation on. The
   removed index stays in the table, and the hash has lost its value: unless that expands to zeros, the stored hash is
   no longer the sum over the stored table.
   */
  lemma AcceptedPatchDrifts(env: Env, name: Bytes, s: Stored, keyID: Bytes, version: Version, action: Action, iv: Bytes)
    requires env.Sized() && env.Inverts() && s.Valid() && Represents(env.expand, s)
    requires keyID in env.keys && |iv| == IV_SIZE && env.unmarshalIndex(action.index).Some?
    ensures var ms := SetThenRemove(env, keyID, action, iv);
            && Collect(PatchThenStore, s.macs, ms).Success?
            && var r := ApplyPatch(env, name, s, SealPatch(env, name, s, keyID, version, ms), true);
               && r.Success?
               && ms[1].op == REMOVE && ms[1].index in r.value.stored.macs
               && (Represents(env.expand, r.value.stored) <==>
                     forall j: nat :: 2 * j + 1 < HASH_SIZE ==> Lane(env.expand(ValueMAC(ms[0].blob)), j) == 0)
  {
    hide Collect, DecodeMutation, ApplyPatch, Represents, Drift, After, Seal, Lane, ValueMAC, UpdateHash;
    var ms := SetThenRemove(env, keyID, action, iv);
    SealedParts(env, keyID, action, iv);
    SetThenRemoveParts(env.expand, s.macs, ms[0], ms[1]);
    assert ms == [ms[0], ms[1]];
    TwoDecode(env, ms[0], ms[1]);
    SealedPatchApplies(env, name, s, keyID, version, ms, true);
    var p := SealPatch(env, name, s, keyID, version, ms);
    PatchParts(env, name, s, p, true);
    PatchKeepsHashIff(env, name, s, p, true);
    assert p.mutations == ms;
    ZeroLanes(env.expand, ms, ValueMAC(ms[0].blob));
  }

  lemma ZeroLanes(expand: Expander, ms: seq<Mutation>, mac: Bytes)
    requires ExpandsTo(expand, HASH_SIZE) && Sound(ms)
    requires forall j: nat :: 2 * j + 1 < HASH_SIZE ==> Drift(expand, ms, j) == -Lane(expand(mac), j)
    ensures (forall j: nat :: 2 * j + 1 < HASH_SIZE ==> Drift(expand, ms, j) % MODULUS == 0)
       <==> forall j: nat :: 2 * j + 1 < HASH_SIZE ==> Lane(expand(mac), j) == 0
  {
    hide Lane;
    if forall j: nat :: 2 * j + 1 < HASH_SIZE ==> Lane(expand(mac), j) == 0 {
      forall j: nat | 2 * j + 1 < HASH_SIZE
        ensures Drift(expand, ms, j) % MODULUS == 0
      {
        assert Drift(expand, ms, j) == -Lane(expand(mac), j);
      }
    } else {
      var j: nat :| 2 * j + 1 < HASH_SIZE && Lane(expand(mac), j) != 0;
      SmallDrift(Drift(expand, ms, j));
      assert Drift(expand, ms, j) % MODULUS != 0;
    }
  }

  lemma SealedParts(env: Env, keyID: Bytes, action: Action, iv: Bytes)
    requires env.Sized() && env.Inverts() && keyID in env.keys && |iv| == IV_SIZE
    requires env.unmarshalIndex(action.index).Some?
    ensures var ms := SetThenRemove(env, keyID, action, iv);
            && ms[0].op == SET && ms[1].op == REMOVE && ms[0].index == ms[1].index
            && DecodeMutation(env, ms[0], true).Success? && DecodeMutation(env, ms[1], true).Success?
  {
    hide DecodeMutation;
    SealedDecodes(env, keyID, SET, action, iv, true);
    SealedDecodes(env, keyID, REMOVE, action, iv, true);
  }

  lemma DecodePush(env: Env, front: seq<Mutation>, m: Mutation)
    requires env.Sized()
    requires DecodeMutations(env, front, true).Success? && DecodeMutation(env, m, true).Success?
    ensures DecodeMutations(env, front + [m], true).Success?
  {
    hide DecodeMutation;
    assert (front + [m])[..|front|] == front;
  }

  lemma TwoDecode(env: Env, first: Mutation, second: Mutation)
    requires env.Sized()
    requires DecodeMutation(env, first, true).Success? && DecodeMutation(env, second, true).Success?
    ensures DecodeMutations(env, [first, second], true).Success?
  {
    hide DecodeMutation, DecodeMutations;
    NothingDecodes(env);
    DecodePush(env, [], first);
    assert [] + [first] == [first];
    DecodePush(env, [first], second);
    assert [first] + [second] == [first, second];
  }

  lemma NothingDecodes(env: Env)
    requires env.Sized()
    ensures DecodeMutations(env, [], true).Success?
  {
  }
}
