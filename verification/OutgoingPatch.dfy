/**
 When the decoder accepts an outgoing patch (appstate/encode.go, appstate/decode.go): the encoder looks up only what is
 stored, the decoder also what the patch itself says before, so they differ on the mutations that mention an index again.
 */
module OutgoingPatches {
  import opened Wrappers
  import opened Bytes
  import opened LtHash
  import opened AppState
  import opened HashInvariant
  import opened SyncHistory
  import opened EncodePatches
  import opened Macs
  import opened Multiplicities

  // ---- What is subtracted for a repeated index ----

  /** The value MACs that decoder and encoder subtract for the mutations whose index the patch has mentioned before. */
  datatype Replaced = Replaced(inPatch: seq<Bytes>, stored: seq<Bytes>)

  function ReplacedStep(macs: Table, before: seq<Mutation>, m: Mutation): (r: Replaced)
    requires Sound(before)
    ensures |r.stored| <= |r.inPatch| <= 1 && (before == [] ==> r.inPatch == [])
  {
    LastSound(before, m.index);
    match LastMention(before, m.index)
    case None => Replaced([], [])
    case Some(previous) => Replaced([ValueMAC(previous.blob)], if m.index in macs then [macs[m.index]] else [])
  }

  function ReplacedAgain(macs: Table, ms: seq<Mutation>): (r: Replaced)
    requires Sound(ms)
    ensures |r.stored| <= |r.inPatch| && (ms != [] ==> |r.inPatch| < |ms|) && (ms == [] ==> r.inPatch == [])
  {
    if ms == [] then Replaced([], [])
    else
      SoundPrefix(ms);
      var r, step := ReplacedAgain(macs, ms[..|ms| - 1]), ReplacedStep(macs, ms[..|ms| - 1], ms[|ms| - 1]);
      Replaced(r.inPatch + step.inPatch, r.stored + step.stored)
  }

  /** What is subtracted, lane by lane, for one mutation. */
  lemma StepDiffers(expand: Expander, macs: Table, before: seq<Mutation>, m: Mutation, j: nat)
    requires Sound(before) && forall item :: 2 * j + 1 < |expand(item)|
    ensures var step := ReplacedStep(macs, before, m);
            PreviousLane(expand, FindPrevious(PatchThenStore, macs, before, m.index), j)
            - PreviousLane(expand, FindPrevious(StoreOnly, macs, before, m.index), j)
            == Sum(expand, step.inPatch, j) - Sum(expand, step.stored, j)
  {
    PreviousIsLastMention(macs, before, m.index);
    hide Sum, LastMention, ValueMAC, Lane;
    LastSound(before, m.index);
    SumOne(expand, [], j);
    if LastMention(before, m.index).Some? {
      SumOne(expand, ValueMAC(LastMention(before, m.index).value.blob), j);
    }
    if m.index in macs {
      SumOne(expand, macs[m.index], j);
    }
  }

  /** The two lookups add the same and subtract what they replace for repeated indexes, and nothing else, differently. */
  lemma {:induction false} ListsDiffer(expand: Expander, macs: Table, ms: seq<Mutation>, j: nat)
    requires Sound(ms) && forall item :: 2 * j + 1 < |expand(item)|
    ensures Collect(StoreOnly, macs, ms).Success? && Collect(PatchThenStore, macs, ms).Success?
    ensures var sent, seen := Collect(StoreOnly, macs, ms).value, Collect(PatchThenStore, macs, ms).value;
            var r := ReplacedAgain(macs, ms);
            && Sum(expand, seen.added, j) == Sum(expand, sent.added, j)
            && Sum(expand, seen.removed, j) - Sum(expand, sent.removed, j)
               == Sum(expand, r.inPatch, j) - Sum(expand, r.stored, j)
  {
    CollectSucceeds(StoreOnly, macs, ms);
    CollectSucceeds(PatchThenStore, macs, ms);
    if ms != [] {
      hide Sum, FindPrevious, ReplacedStep, PreviousLane, Collect, BlobLane;
      SoundPrefix(ms);
      var before, m := ms[..|ms| - 1], ms[|ms| - 1];
      ListsDiffer(expand, macs, before, j);
      CollectStep(expand, StoreOnly, macs, ms, j);
      CollectStep(expand, PatchThenStore, macs, ms, j);
      StepDiffers(expand, macs, before, m, j);
      var r, step := ReplacedAgain(macs, before), ReplacedStep(macs, before, m);
      SumConcat(expand, r.inPatch, step.inPatch, j);
      SumConcat(expand, r.stored, step.stored, j);
    }
  }

  // ---- When the two hashes agree ----

  /** For this hash function, what the patch replaces again adds up to the same as what is stored instead. */
  ghost predicate ReplacesSame(expand: Expander, macs: Table, ms: seq<Mutation>)
    requires ExpandsTo(expand, HASH_SIZE) && Sound(ms)
  {
    forall j: nat :: 2 * j + 1 < HASH_SIZE ==>
      Vanishes(Sum(expand, ReplacedAgain(macs, ms).inPatch, j) - Sum(expand, ReplacedAgain(macs, ms).stored, j))
  }

  lemma SameRemainder(base: int, added: int, removed: int, removed': int)
    ensures (base - removed + added) % MODULUS == (base - removed' + added) % MODULUS <==> Vanishes(removed' - removed)
  {
    var d := removed' - removed;
    ModZero(base - removed' + added, d);
  }

  /** Lane `j` of the two hashes. */
  lemma LaneAgreesIff(env: Env, s: Stored, ms: seq<Mutation>, j: nat)
    requires env.Sized() && s.Valid() && Sound(ms) && 2 * j + 1 < HASH_SIZE
    ensures Lane(StateAfter(env, s, StoreOnly, ms).hash, j) == Lane(StateAfter(env, s, PatchThenStore, ms).hash, j)
       <==> Vanishes(Sum(env.expand, ReplacedAgain(s.macs, ms).inPatch, j)
                     - Sum(env.expand, ReplacedAgain(s.macs, ms).stored, j))
  {
    hide Sum, ReplacedAgain, Collect, Vanishes, Update, Lane;
    ListsDiffer(env.expand, s.macs, ms, j);
    var sent, seen := Collect(StoreOnly, s.macs, ms).value, Collect(PatchThenStore, s.macs, ms).value;
    SameRemainder(Lane(s.state.hash, j), Sum(env.expand, sent.added, j), Sum(env.expand, sent.removed, j),
                  Sum(env.expand, seen.removed, j));
  }

  /** Encoder and decoder come to the same state exactly when they replace the same. */
  lemma StatesAgreeIff(env: Env, s: Stored, ms: seq<Mutation>)
    requires env.Sized() && s.Valid() && Sound(ms)
    ensures StateAfter(env, s, StoreOnly, ms) == StateAfter(env, s, PatchThenStore, ms)
       <==> ReplacesSame(env.expand, s.macs, ms)
  {
    hide Sum, ReplacedAgain, StateAfter, Vanishes, Lane;
    var sent, seen := StateAfter(env, s, StoreOnly, ms), StateAfter(env, s, PatchThenStore, ms);
    SameVersion(env, s, ms);
    if ReplacesSame(env.expand, s.macs, ms) {
      forall j: nat | 2 * j + 1 < HASH_SIZE
        ensures Lane(sent.hash, j) == Lane(seen.hash, j)
      {
        LaneAgreesIff(env, s, ms, j);
      }
      LanesDetermine(sent.hash, seen.hash);
    } else {
      var j: nat :|
        2 * j + 1 < HASH_SIZE
        && !Vanishes(Sum(env.expand, ReplacedAgain(s.macs, ms).inPatch, j)
                     - Sum(env.expand, ReplacedAgain(s.macs, ms).stored, j));
      LaneAgreesIff(env, s, ms, j);
    }
  }

  lemma SameVersion(env: Env, s: Stored, ms: seq<Mutation>)
    requires env.Sized() && s.Valid() && Sound(ms)
    ensures StateAfter(env, s, StoreOnly, ms).version == StateAfter(env, s, PatchThenStore, ms).version
  {
  }

  /** For every hash function. */
  ghost predicate AlwaysReplacesSame(macs: Table, ms: seq<Mutation>)
    requires Sound(ms)
  {
    forall expand: Expander | ExpandsTo(expand, HASH_SIZE) :: ReplacesSame(expand, macs, ms)
  }

  /** That is so exactly when every value MAC is replaced equally often modulo 2^16 in the patch and in the table. */
  lemma AlwaysReplacesSameIff(macs: Table, ms: seq<Mutation>)
    requires Sound(ms)
    ensures AlwaysReplacesSame(macs, ms)
       <==> SameMultiplicities(ReplacedAgain(macs, ms).inPatch, ReplacedAgain(macs, ms).stored)
  {
    hide Sum, ReplacedAgain, Vanishes, SameMultiplicities;
    var r := ReplacedAgain(macs, ms);
    SameSumsIff(r.inPatch, r.stored);
    if AlwaysReplacesSame(macs, ms) {
      forall expand: Expander, j: nat | ExpandsTo(expand, HASH_SIZE) && 2 * j + 1 < HASH_SIZE
        ensures Vanishes(Sum(expand, r.inPatch, j) - Sum(expand, r.stored, j))
      {
        assert ReplacesSame(expand, macs, ms);
      }
    }
    if SumsAlwaysAgree(r.inPatch, r.stored) {
      forall expand: Expander | ExpandsTo(expand, HASH_SIZE)
        ensures ReplacesSame(expand, macs, ms)
      {
      }
    }
  }

  // ---- In terms of the patch and the table ----

  /** A repeated index is stored, and every mention of it but the last sets the value that is stored. */
  predicate RepeatsStored(macs: Table, ms: seq<Mutation>)
    requires Sound(ms)
  {
    forall i, k :: 0 <= i < k < |ms| && ms[i].index == ms[k].index ==>
      ms[k].index in macs && macs[ms[k].index] == ValueMAC(ms[i].blob)
  }

  /** No mutation carries the value MAC that is stored for another index of the patch. */
  predicate MACsTellIndexes(macs: Table, ms: seq<Mutation>)
    requires Sound(ms)
  {
    forall i, k :: 0 <= i < |ms| && 0 <= k < |ms| && ms[k].index in macs && macs[ms[k].index] == ValueMAC(ms[i].blob) ==>
      ms[i].index == ms[k].index
  }

  lemma {:induction false} StoredRepeatsReplaceSame(macs: Table, ms: seq<Mutation>)
    requires Sound(ms) && RepeatsStored(macs, ms)
    ensures ReplacedAgain(macs, ms).inPatch == ReplacedAgain(macs, ms).stored
  {
    if ms != [] {
      SoundPrefix(ms);
      var before, m := ms[..|ms| - 1], ms[|ms| - 1];
      assert forall i :: 0 <= i < |before| ==> before[i] == ms[i];
      StoredRepeatsReplaceSame(macs, before);
      if LastMention(before, m.index).Some? {
        var i := LastMentionAt(before, m.index);
        assert ms[i] == before[i] && ms[|ms| - 1] == m;
      }
    }
  }

  /** Every mention but the last is replaced by a later one. */
  lemma {:induction false} ReplacedInPatch(macs: Table, ms: seq<Mutation>, i: nat, k: nat)
    requires Sound(ms) && i < k < |ms| && ms[i].index == ms[k].index
    ensures ValueMAC(ms[i].blob) in ReplacedAgain(macs, ms).inPatch
  {
    hide ValueMAC;
    SoundPrefix(ms);
    var before, m := ms[..|ms| - 1], ms[|ms| - 1];
    if k < |ms| - 1 {
      ReplacedInPatch(macs, before, i, k);
    } else {
      if LastMention(before, m.index).None? {
        NoMention(before, m.index, i);
        assert false;
      }
      var l := LastMentionAt(before, m.index);
      if l != i {
        ReplacedInPatch(macs, before, i, l);
      }
    }
  }

  lemma {:induction false} ReplacedIsStored(macs: Table, ms: seq<Mutation>, x: Bytes) returns (k: nat)
    requires Sound(ms) && x in ReplacedAgain(macs, ms).stored
    ensures k < |ms| && ms[k].index in macs && macs[ms[k].index] == x
  {
    hide ValueMAC, LastMention;
    SoundPrefix(ms);
    var before, m := ms[..|ms| - 1], ms[|ms| - 1];
    if x in ReplacedAgain(macs, before).stored {
      k := ReplacedIsStored(macs, before, x);
    } else {
      k := |ms| - 1;
    }
  }

  /**
   For a patch of at most 65536 mutations, encoder and decoder agree for every hash function exactly when the same value
   MACs are replaced. Where value MACs tell indexes apart, that is exactly when an index is only repeated while it is set
   to what is stored for it anyway.
   */
  lemma SmallPatchAgreesIff(macs: Table, ms: seq<Mutation>)
    requires Sound(ms) && |ms| <= MODULUS
    ensures AlwaysReplacesSame(macs, ms)
       <==> multiset(ReplacedAgain(macs, ms).inPatch) == multiset(ReplacedAgain(macs, ms).stored)
    ensures MACsTellIndexes(macs, ms) ==> (AlwaysReplacesSame(macs, ms) <==> RepeatsStored(macs, ms))
  {
    hide AlwaysReplacesSame, SameMultiplicities, ReplacedAgain, ValueMAC;
    var r := ReplacedAgain(macs, ms);
    AlwaysReplacesSameIff(macs, ms);
    ShortListsAgree(r.inPatch, r.stored);
    if RepeatsStored(macs, ms) {
      StoredRepeatsReplaceSame(macs, ms);
    }
    if multiset(r.inPatch) == multiset(r.stored) && MACsTellIndexes(macs, ms) {
      forall i, k | 0 <= i < k < |ms| && ms[i].index == ms[k].index
        ensures ms[k].index in macs && macs[ms[k].index] == ValueMAC(ms[i].blob)
      {
        ReplacedInPatch(macs, ms, i, k);
        assert ValueMAC(ms[i].blob) in multiset(r.stored);
        var l := ReplacedIsStored(macs, ms, ValueMAC(ms[i].blob));
      }
    }
  }

  /** In particular, a patch of new indexes agrees exactly when they are distinct. */
  lemma NewIndexesAgreeIff(macs: Table, ms: seq<Mutation>)
    requires Sound(ms) && |ms| <= MODULUS && forall m :: m in ms ==> m.index !in macs
    ensures AlwaysReplacesSame(macs, ms) <==> DistinctIndexes(ms)
  {
    hide AlwaysReplacesSame, ValueMAC;
    assert forall i :: 0 <= i < |ms| ==> ms[i] in ms;
    SmallPatchAgreesIff(macs, ms);
  }

  lemma DistinctIndexesReplaceSame(expand: Expander, macs: Table, ms: seq<Mutation>)
    requires ExpandsTo(expand, HASH_SIZE) && Sound(ms) && DistinctIndexes(ms)
    ensures ReplacesSame(expand, macs, ms)
  {
    hide ReplacedAgain, Sum, ValueMAC;
    StoredRepeatsReplaceSame(macs, ms);
  }

  // ---- Acceptance ----

  function StateBytes(state: HashState, name: Bytes): Bytes {
    state.hash + Uint64(state.version) + name
  }

  lemma StateBytesDiffer(a: HashState, b: HashState, name: Bytes)
    requires |a.hash| == |b.hash| && a.version == b.version
    ensures StateBytes(a, name) == StateBytes(b, name) <==> a == b
  {
    assert StateBytes(a, name)[..|a.hash|] == a.hash && StateBytes(b, name)[..|b.hash|] == b.hash;
  }

  /**
   An outgoing patch, stamped with the next version and decoded in the same state, is accepted exactly when validation is
   off, or what it replaces again adds up to what is stored instead, or HMAC collides on the two states; the only error is
   a mismatching hash. When it is accepted it yields the original mutations in order.
   */
  lemma EncodedPatchApplies(env: Env, keyID: Bytes, s: Stored, name: Bytes, infos: seq<MutationInfo>, ivs: seq<Bytes>,
                            timestamp: int, validate: bool)
    requires env.Sized() && env.Inverts() && s.Valid() && keyID in env.keys
    requires |ivs| == |infos| && forall iv :: iv in ivs ==> |iv| == IV_SIZE
    ensures var ms := EncodeMutations(env, env.keys[keyID], keyID, infos, ivs, timestamp);
            var patch := EncodePatch(env, keyID, s, name, infos, ivs, timestamp);
            && Sound(ms) && patch.Success?
            && var r := ApplyPatch(env, name, s, patch.value.(version := NextVersion(s.state)), validate);
               var sent, seen := StateAfter(env, s, StoreOnly, ms), StateAfter(env, s, PatchThenStore, ms);
               && (r.Success? <==>
                     || !validate
                     || ReplacesSame(env.expand, s.macs, ms)
                     || Collides(env, env.keys[keyID].snapshotMAC, StateBytes(sent, name), StateBytes(seen, name)))
               && (r.Success? ==>
                     && r.value.mutations == AllSent(env, env.keys[keyID], keyID, infos, ivs, timestamp)
                     && r.value.stored.state.version == NextVersion(s.state))
               && (r.Failure? ==> r.error == MismatchingLTHash)
               && (DistinctIndexes(ms) ==> r.Success?)
  {
    hide EncodeMutations, EncodePatch, AllSent, ApplyPatch, StateAfter, ReplacesSame, DistinctIndexes;
    var ms := EncodeMutations(env, env.keys[keyID], keyID, infos, ivs, timestamp);
    EncodedPatchDecodes(env, keyID, s, name, infos, ivs, timestamp, validate);
    StatesAgreeIff(env, s, ms);
    SameVersion(env, s, ms);
    StateBytesDiffer(StateAfter(env, s, StoreOnly, ms), StateAfter(env, s, PatchThenStore, ms), name);
    if DistinctIndexes(ms) {
      DistinctIndexesReplaceSame(env.expand, s.macs, ms);
    }
  }

  /** Sending a patch of one's own and decoding it keeps the stored hash equal to the sum over the stored table,
      repeated indexes included. */
  lemma EncodedPatchKeepsHash(env: Env, keyID: Bytes, s: Stored, name: Bytes, infos: seq<MutationInfo>,
                              ivs: seq<Bytes>, timestamp: int, validate: bool)
    requires env.Sized() && env.Inverts() && s.Valid() && keyID in env.keys && Represents(env.expand, s)
    requires |ivs| == |infos| && forall iv :: iv in ivs ==> |iv| == IV_SIZE
    ensures var patch := EncodePatch(env, keyID, s, name, infos, ivs, timestamp);
            && patch.Success?
            && var r := ApplyPatch(env, name, s, patch.value.(version := NextVersion(s.state)), validate);
               r.Success? ==> Represents(env.expand, r.value.stored)
  {
    hide EncodePatch, EncodeMutations, AllSent, ApplyPatch, Represents, StateAfter;
    EncodedPatchDecodes(env, keyID, s, name, infos, ivs, timestamp, validate);
    MutationsRoundTrip(env, keyID, infos, ivs, timestamp, validate);
    var patch := EncodePatch(env, keyID, s, name, infos, ivs, timestamp).value.(version := NextVersion(s.state));
    if ApplyPatch(env, name, s, patch, validate).Success? {
      PatchKeepsHash(env, name, s, patch, validate);
    }
  }

  // ---- A patch of one's own that is refused ----

  lemma TwiceParts(env: Env, keyID: Bytes, infos: seq<MutationInfo>, ivs: seq<Bytes>, timestamp: int)
    requires env.Sized() && keyID in env.keys && |infos| == |ivs| == 2 && infos[0].index == infos[1].index
    ensures var keys := env.keys[keyID];
            var first := EncodeMutation(env, keys, keyID, infos[0], ivs[0], timestamp);
            var second := EncodeMutation(env, keys, keyID, infos[1], ivs[1], timestamp);
            && EncodeMutations(env, keys, keyID, infos, ivs, timestamp) == [first, second]
            && first.index == second.index == env.hmac256(keys.index, env.marshalIndex(infos[0].index))
  {
    hide ContentMAC;
    var keys := env.keys[keyID];
    assert infos[..1] == [infos[0]] && ivs[..1] == [ivs[0]];
    assert infos[..1][..0] == [] && ivs[..1][..0] == [];
    assert EncodeMutations(env, keys, keyID, infos[..1], ivs[..1], timestamp)
        == [] + [EncodeMutation(env, keys, keyID, infos[0], ivs[0], timestamp)];
  }

  lemma TwiceReplacedAgain(macs: Table, first: Mutation, second: Mutation)
    requires |first.blob| >= MAC_SIZE && |second.blob| >= MAC_SIZE
    requires first.index == second.index && first.index !in macs
    ensures ReplacedAgain(macs, [first, second]) == Replaced([ValueMAC(first.blob)], [])
  {
    hide ValueMAC;
    assert [first, second][..1] == [first] && [first][..0] == [];
    assert ReplacedAgain(macs, [first]) == Replaced([], []);
    assert LastMention([first], first.index) == Some(first);
  }

  lemma OneVanishesIff(expand: Expander, mac: Bytes, j: nat)
    requires ExpandsTo(expand, HASH_SIZE) && 2 * j + 1 < HASH_SIZE
    ensures Vanishes(Sum(expand, [mac], j) - Sum(expand, [], j)) <==> Lane(expand(mac), j) == 0
  {
    hide Sum, Lane;
    SumOne(expand, mac, j);
    SmallDrift(Lane(expand(mac), j));
  }

  lemma TwiceReplaces(expand: Expander, macs: Table, first: Mutation, second: Mutation)
    requires ExpandsTo(expand, HASH_SIZE) && |first.blob| >= MAC_SIZE && |second.blob| >= MAC_SIZE
    requires first.index == second.index && first.index !in macs
    ensures ReplacesSame(expand, macs, [first, second])
       <==> forall j: nat :: 2 * j + 1 < HASH_SIZE ==> Lane(expand(ValueMAC(first.blob)), j) == 0
  {
    hide ReplacedAgain, Sum, Lane, Vanishes, ValueMAC;
    TwiceReplacedAgain(macs, first, second);
    forall j: nat | 2 * j + 1 < HASH_SIZE
      ensures Vanishes(Sum(expand, [ValueMAC(first.blob)], j) - Sum(expand, [], j))
         <==> Lane(expand(ValueMAC(first.blob)), j) == 0
    {
      OneVanishesIff(expand, ValueMAC(first.blob), j);
    }
  }

  /** For example: one index that is not stored, set twice in one patch. It is refused with validation on, unless the
      first value expands to zeros or HMAC collides. */
  lemma IndexSetTwiceIsRefused(env: Env, keyID: Bytes, s: Stored, name: Bytes, infos: seq<MutationInfo>,
                               ivs: seq<Bytes>, timestamp: int)
    requires env.Sized() && env.Inverts() && s.Valid() && keyID in env.keys
    requires |infos| == |ivs| == 2 && |ivs[0]| == |ivs[1]| == IV_SIZE && infos[0].index == infos[1].index
    requires env.hmac256(env.keys[keyID].index, env.marshalIndex(infos[0].index)) !in s.macs
    ensures var ms := EncodeMutations(env, env.keys[keyID], keyID, infos, ivs, timestamp);
            var patch := EncodePatch(env, keyID, s, name, infos, ivs, timestamp);
            && Sound(ms) && |ms| == 2 && patch.Success?
            && var r := ApplyPatch(env, name, s, patch.value.(version := NextVersion(s.state)), true);
               var sent, seen := StateAfter(env, s, StoreOnly, ms), StateAfter(env, s, PatchThenStore, ms);
               r == Failure(MismatchingLTHash) <==>
                 && (exists j: nat :: 2 * j + 1 < HASH_SIZE && Lane(env.expand(ValueMAC(ms[0].blob)), j) != 0)
                 && !Collides(env, env.keys[keyID].snapshotMAC, StateBytes(sent, name), StateBytes(seen, name))
  {
    hide EncodeMutation, EncodeMutations, EncodePatch, AllSent, ApplyPatch, StateAfter, ReplacesSame, DistinctIndexes,
      ValueMAC, Lane;
    var ms := EncodeMutations(env, env.keys[keyID], keyID, infos, ivs, timestamp);
    EncodedPatchApplies(env, keyID, s, name, infos, ivs, timestamp, true);
    TwiceParts(env, keyID, infos, ivs, timestamp);
    assert ms == [ms[0], ms[1]];
    TwiceReplaces(env.expand, s.macs, ms[0], ms[1]);
  }
}
