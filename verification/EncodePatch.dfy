/** Outgoing patches (appstate/encode.go), and that the decoder accepts them and gives the mutations back. */
module EncodePatches {
  import opened Wrappers
  import opened Bytes
  import opened LtHash
  import opened AppState
  import opened HashInvariant
  import opened SyncHistory

  datatype MutationInfo = MutationInfo(index: seq<Bytes>, version: int, value: ActionValue)

  const UINT64_RANGE := 0x1_0000_0000_0000_0000

  /** `version + 1`, which wraps around. */
  function NextVersion(state: HashState): (version: Version)
    ensures version == if state.version == UINT64_RANGE - 1 then 0 else state.version + 1
  {
    (state.version + 1) % UINT64_RANGE
  }

  /** `iv` is the random initialisation vector that the cipher puts in front of the ciphertext. */
  function EncodeMutation(env: Env, keys: Keys, keyID: Bytes, info: MutationInfo, iv: Bytes, timestamp: int): Mutation
    requires env.Sized()
  {
    var index := env.marshalIndex(info.index);
    var plain := env.marshalAction(Action(index, info.value.(timestamp := timestamp), info.version));
    var content := iv + env.encrypt(keys.valueEncryption, iv, plain);
    var valueMAC := ContentMAC(env, SET, content, keyID, keys.valueMAC);
    Mutation(SET, env.hmac256(keys.index, index), content + valueMAC, keyID)
  }

  function EncodeMutations(env: Env, keys: Keys, keyID: Bytes, infos: seq<MutationInfo>, ivs: seq<Bytes>,
                           timestamp: int): (ms: seq<Mutation>)
    requires env.Sized() && |ivs| == |infos|
  {
    if infos == [] then []
    else
      var last := |infos| - 1;
      EncodeMutations(env, keys, keyID, infos[..last], ivs[..last], timestamp)
      + [EncodeMutation(env, keys, keyID, infos[last], ivs[last], timestamp)]
  }

  /** The patch before the server stamps a version on it. */
  function EncodePatch(env: Env, keyID: Bytes, s: Stored, name: Bytes, infos: seq<MutationInfo>, ivs: seq<Bytes>,
                       timestamp: int): Result<Patch, Error>
    requires env.Sized() && s.Valid() && |ivs| == |infos|
  {
    if keyID !in env.keys then Failure(KeyNotFound)
    else
      var keys := env.keys[keyID];
      var ms := EncodeMutations(env, keys, keyID, infos, ivs, timestamp);
      var hash :- UpdateHash(env, StoreOnly, s.macs, s.state.hash, ms);
      var state := HashState(NextVersion(s.state), hash);
      var patch := Patch(0, SnapshotMAC(env, state, name, keys.snapshotMAC), [], keyID, ms);
      if exists m :: m in ms && |m.blob| < MAC_SIZE then Failure(Fault)
      else Success(patch.(patchMAC := PatchMAC(env, patch, name, keys.patchMAC, state.version)))
  }

  function Sent(env: Env, keys: Keys, keyID: Bytes, info: MutationInfo, iv: Bytes, timestamp: int): Decoded
    requires env.Sized()
  {
    var m := EncodeMutation(env, keys, keyID, info, iv, timestamp);
    Decoded(SET, info.value.(timestamp := timestamp), info.version, info.index, m.index,
            ContentMAC(env, SET, iv + env.encrypt(keys.valueEncryption, iv,
              env.marshalAction(Action(env.marshalIndex(info.index), info.value.(timestamp := timestamp), info.version))),
              keyID, keys.valueMAC))
  }

  /** The mutations that were put in, in order, with the timestamp and the MACs they were sent with. */
  function AllSent(env: Env, keys: Keys, keyID: Bytes, infos: seq<MutationInfo>, ivs: seq<Bytes>,
                   timestamp: int): (ds: seq<Decoded>)
    requires env.Sized() && |ivs| == |infos|
    ensures |ds| == |infos|
    ensures forall i :: 0 <= i < |ds| ==>
              ds[i].op == SET && ds[i].value == infos[i].value.(timestamp := timestamp)
              && ds[i].version == infos[i].version && ds[i].index == infos[i].index
  {
    seq(|infos|, i requires 0 <= i < |infos| => Sent(env, keys, keyID, infos[i], ivs[i], timestamp))
  }

  lemma MutationRoundTrip(env: Env, keyID: Bytes, info: MutationInfo, iv: Bytes, timestamp: int, validate: bool)
    requires env.Sized() && env.Inverts() && keyID in env.keys && |iv| == IV_SIZE
    ensures var keys := env.keys[keyID];
            var m := EncodeMutation(env, keys, keyID, info, iv, timestamp);
            |m.blob| >= MAC_SIZE
            && DecodeMutation(env, m, validate) == Success(Sent(env, keys, keyID, info, iv, timestamp))
  {
    hide ContentMAC;
    var keys := env.keys[keyID];
    var m := EncodeMutation(env, keys, keyID, info, iv, timestamp);
    var index := env.marshalIndex(info.index);
    var plain := env.marshalAction(Action(index, info.value.(timestamp := timestamp), info.version));
    var cipher := env.encrypt(keys.valueEncryption, iv, plain);
    var mac := ContentMAC(env, SET, iv + cipher, keyID, keys.valueMAC);
    assert m.blob[..|m.blob| - MAC_SIZE] == iv + cipher;
    assert ValueMAC(m.blob) == mac;
    assert (iv + cipher)[..IV_SIZE] == iv && (iv + cipher)[IV_SIZE..] == cipher;
  }

  lemma {:induction false} MutationsRoundTrip(env: Env, keyID: Bytes, infos: seq<MutationInfo>, ivs: seq<Bytes>,
                                              timestamp: int, validate: bool)
    requires env.Sized() && env.Inverts() && keyID in env.keys
    requires |ivs| == |infos| && forall iv :: iv in ivs ==> |iv| == IV_SIZE
    ensures var keys := env.keys[keyID];
            var ms := EncodeMutations(env, keys, keyID, infos, ivs, timestamp);
            && Sound(ms) && AllSets(ms)
            && DecodeMutations(env, ms, validate) == Success(AllSent(env, keys, keyID, infos, ivs, timestamp))
  {
    hide EncodeMutation, Sent, AllSent, DecodeMutation, DecodeMutations, Sound, AllSets;
    var keys := env.keys[keyID];
    if infos == [] {
      NothingSent(env, keys, keyID, timestamp, validate);
    } else {
      var last := |infos| - 1;
      MutationsRoundTrip(env, keyID, infos[..last], ivs[..last], timestamp, validate);
      LastSent(env, keyID, infos[last], ivs[last], timestamp, validate);
      DecodeAppend(env, EncodeMutations(env, keys, keyID, infos[..last], ivs[..last], timestamp),
                   EncodeMutation(env, keys, keyID, infos[last], ivs[last], timestamp), validate);
      AllSentStep(env, keys, keyID, infos, ivs, timestamp);
    }
  }

  lemma NothingSent(env: Env, keys: Keys, keyID: Bytes, timestamp: int, validate: bool)
    requires env.Sized()
    ensures Sound([]) && AllSets([])
    ensures DecodeMutations(env, [], validate) == Success(AllSent(env, keys, keyID, [], [], timestamp))
  {
  }

  lemma AllSentStep(env: Env, keys: Keys, keyID: Bytes, infos: seq<MutationInfo>, ivs: seq<Bytes>, timestamp: int)
    requires env.Sized() && |ivs| == |infos| && infos != []
    ensures var last := |infos| - 1;
            AllSent(env, keys, keyID, infos, ivs, timestamp)
            == AllSent(env, keys, keyID, infos[..last], ivs[..last], timestamp)
               + [Sent(env, keys, keyID, infos[last], ivs[last], timestamp)]
  {
    hide Sent;
  }

  lemma DecodeAppend(env: Env, front: seq<Mutation>, m: Mutation, validate: bool)
    requires env.Sized() && Sound(front) && AllSets(front) && |m.blob| >= MAC_SIZE && m.op == SET
    requires DecodeMutations(env, front, validate).Success? && DecodeMutation(env, m, validate).Success?
    ensures Sound(front + [m]) && AllSets(front + [m])
    ensures DecodeMutations(env, front + [m], validate)
         == Success(DecodeMutations(env, front, validate).value + [DecodeMutation(env, m, validate).value])
  {
    hide DecodeMutation;
    assert (front + [m])[..|front + [m]| - 1] == front;
  }

  lemma LastSent(env: Env, keyID: Bytes, info: MutationInfo, iv: Bytes, timestamp: int, validate: bool)
    requires env.Sized() && env.Inverts() && keyID in env.keys && |iv| == IV_SIZE
    ensures var keys := env.keys[keyID];
            var m := EncodeMutation(env, keys, keyID, info, iv, timestamp);
            |m.blob| >= MAC_SIZE && m.op == SET
            && DecodeMutation(env, m, validate) == Success(Sent(env, keys, keyID, info, iv, timestamp))
  {
    hide DecodeMutation, Sent;
    MutationRoundTrip(env, keyID, info, iv, timestamp, validate);
  }

  lemma {:induction false} CollectSucceeds(lookup: Lookup, macs: Table, ms: seq<Mutation>)
    requires Sound(ms)
    ensures Collect(lookup, macs, ms).Success?
  {
    if ms != [] {
      SoundPrefix(ms);
      CollectSucceeds(lookup, macs, ms[..|ms| - 1]);
      if lookup == PatchThenStore {
        PreviousIsLastMention(macs, ms[..|ms| - 1], ms[|ms| - 1].index);
      }
    }
  }

  /** The state that a patch leads to from `s`, the values it replaces being looked up as given. */
  function StateAfter(env: Env, s: Stored, lookup: Lookup, ms: seq<Mutation>): (state: HashState)
    requires env.Sized() && s.Valid() && Sound(ms)
    ensures |state.hash| == HASH_SIZE
  {
    CollectSucceeds(lookup, s.macs, ms);
    HashState(NextVersion(s.state), UpdateHash(env, lookup, s.macs, s.state.hash, ms).value)
  }

  /** The decoder reports the original mutations in order whenever it accepts what the encoder made, and it accepts that
      unless it validates and gets another snapshot MAC. */
  lemma EncodedPatchDecodes(env: Env, keyID: Bytes, s: Stored, name: Bytes, infos: seq<MutationInfo>, ivs: seq<Bytes>,
                            timestamp: int, validate: bool)
    requires env.Sized() && env.Inverts() && s.Valid() && keyID in env.keys
    requires |ivs| == |infos| && forall iv :: iv in ivs ==> |iv| == IV_SIZE
    ensures var ms := EncodeMutations(env, env.keys[keyID], keyID, infos, ivs, timestamp);
            var patch := EncodePatch(env, keyID, s, name, infos, ivs, timestamp);
            && Sound(ms) && patch.Success? && patch.value.mutations == ms
            && var r := ApplyPatch(env, name, s, patch.value.(version := NextVersion(s.state)), validate);
               var key := env.keys[keyID].snapshotMAC;
               && (r.Success? <==>
                     || !validate
                     || SnapshotMAC(env, StateAfter(env, s, PatchThenStore, ms), name, key)
                        == SnapshotMAC(env, StateAfter(env, s, StoreOnly, ms), name, key))
               && (r.Success? ==>
                     && r.value.mutations == AllSent(env, env.keys[keyID], keyID, infos, ivs, timestamp)
                     && r.value.stored.state.version == NextVersion(s.state))
               && (r.Failure? ==> r.error == MismatchingLTHash)
  {
    hide EncodeMutations, AllSent, Collect, Update, SnapshotMAC, After, DecodeMutations, ValueMACs;
    var ms := EncodeMutations(env, env.keys[keyID], keyID, infos, ivs, timestamp);
    MutationsRoundTrip(env, keyID, infos, ivs, timestamp, validate);
    CollectSucceeds(StoreOnly, s.macs, ms);
    CollectSucceeds(PatchThenStore, s.macs, ms);
  }
}
