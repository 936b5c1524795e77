/**
 What the MACs of app-state sync cover (appstate/hash.go), byte by byte, and so what cannot be changed under an accepted
 MAC unless HMAC collides.
 */
module Macs {
  import opened Wrappers
  import opened Bytes
  import opened AppState
  import opened HashInvariant
  import opened SyncHistory
  import opened EncodePatches

  /** Two different inputs have the same MAC. */
  ghost predicate Collides(env: Env, key: Bytes, a: Bytes, b: Bytes) {
    a != b && env.hmac256(key, a) == env.hmac256(key, b)
  }

  /** The same for the content MAC, of which 32 bytes are kept. */
  ghost predicate ContentCollides(env: Env, key: Bytes, a: Bytes, b: Bytes)
    requires env.Sized()
  {
    a != b && env.hmac512(key, a)[..32] == env.hmac512(key, b)[..32]
  }

  lemma Pow256Eight()
    ensures Pow256(8) == 0x1_0000_0000_0000_0000
  {
    assert Pow256(2) == 256 * Pow256(1) && Pow256(1) == 256 * Pow256(0);
    assert Pow256(4) == 256 * Pow256(3) && Pow256(3) == 256 * Pow256(2);
    assert Pow256(6) == 256 * Pow256(5) && Pow256(5) == 256 * Pow256(4);
    assert Pow256(8) == 256 * Pow256(7) && Pow256(7) == 256 * Pow256(6);
  }

  lemma Uint64Reads(v: nat)
    requires v < 0x1_0000_0000_0000_0000
    ensures |Uint64(v)| == 8 && FromBigEndian(Uint64(v)) == v
  {
    Pow256Eight();
    BigEndianRoundTrip(v, 8);
  }

  // ---- The input of the three MACs ----

  /** A hash, a version and a name. */
  ghost predicate StateInput(d: Bytes, hash: Bytes, version: Version, name: Bytes) {
    && |d| == |hash| + 8 + |name|
    && d[..|hash|] == hash
    && FromBigEndian(d[|hash|..|hash| + 8]) == version
    && d[|hash| + 8..] == name
  }

  /** A snapshot MAC, the last 32 bytes of every mutation's blob, a version and a name. */
  ghost predicate PatchInput(d: Bytes, snapshotMAC: Bytes, ms: seq<Mutation>, version: Version, name: Bytes)
    requires Sound(ms)
  {
    var start := |snapshotMAC|;
    var end := start + 32 * |ms|;
    && |d| == end + 8 + |name|
    && d[..start] == snapshotMAC
    && (forall i :: 0 <= i < |ms| ==> d[start + 32 * i..start + 32 * i + 32] == ms[i].blob[|ms[i].blob| - 32..])
    && FromBigEndian(d[end..end + 8]) == version
    && d[end + 8..] == name
  }

  /** An operation, 1 for SET and 2 for REMOVE, a key id, the content, and the length of the first two. */
  ghost predicate ContentInput(d: Bytes, op: Op, keyID: Bytes, content: Bytes) {
    var end := 1 + |keyID| + |content|;
    && |d| == end + 8
    && d[0] == (match op case SET => 1 case REMOVE => 2)
    && d[1..1 + |keyID|] == keyID
    && d[1 + |keyID|..end] == content
    && FromBigEndian(d[end..]) == |keyID| + 1
  }

  lemma StateMAC(env: Env, state: HashState, name: Bytes, key: Bytes) returns (d: Bytes)
    ensures StateInput(d, state.hash, state.version, name) && SnapshotMAC(env, state, name, key) == env.hmac256(key, d)
  {
    hide FromBigEndian, Uint64;
    Uint64Reads(state.version);
    d := state.hash + Uint64(state.version) + name;
    assert d[|state.hash|..|state.hash| + 8] == Uint64(state.version);
    assert d[..|state.hash|] == state.hash && d[|state.hash| + 8..] == name;
  }

  lemma {:induction false} ValueMACsAt(ms: seq<Mutation>)
    requires Sound(ms)
    ensures |ValueMACs(ms)| == 32 * |ms|
    ensures forall i :: 0 <= i < |ms| ==> ValueMACs(ms)[32 * i..32 * i + 32] == ms[i].blob[|ms[i].blob| - 32..]
  {
    if ms != [] {
      SoundPrefix(ms);
      var front, m := ms[..|ms| - 1], ms[|ms| - 1];
      ValueMACsAt(front);
      forall i | 0 <= i < |ms|
        ensures ValueMACs(ms)[32 * i..32 * i + 32] == ms[i].blob[|ms[i].blob| - 32..]
      {
        if i < |front| {
          assert front[i] == ms[i];
          assert (ValueMACs(front) + ValueMAC(m.blob))[32 * i..32 * i + 32] == ValueMACs(front)[32 * i..32 * i + 32];
        } else {
          assert (ValueMACs(front) + ValueMAC(m.blob))[32 * i..32 * i + 32] == ValueMAC(m.blob);
        }
      }
    }
  }

  lemma PatchMACInput(env: Env, p: Patch, name: Bytes, key: Bytes, version: Version) returns (d: Bytes)
    requires Sound(p.mutations)
    ensures PatchInput(d, p.snapshotMAC, p.mutations, version, name)
    ensures PatchMAC(env, p, name, key, version) == env.hmac256(key, d)
  {
    hide FromBigEndian, Uint64, ValueMACs;
    Uint64Reads(version);
    ValueMACsAt(p.mutations);
    var macs, start := ValueMACs(p.mutations), |p.snapshotMAC|;
    d := p.snapshotMAC + macs + Uint64(version) + name;
    var end := start + |macs|;
    assert d[..start] == p.snapshotMAC && d[start..end] == macs;
    assert d[end..end + 8] == Uint64(version) && d[end + 8..] == name;
    forall i | 0 <= i < |p.mutations|
      ensures d[start + 32 * i..start + 32 * i + 32] == macs[32 * i..32 * i + 32]
    {
    }
  }

  lemma ContentMACInput(env: Env, op: Op, content: Bytes, keyID: Bytes, key: Bytes) returns (d: Bytes)
    requires env.Sized() && |keyID| < INT64_RANGE
    ensures ContentInput(d, op, keyID, content) && ContentMAC(env, op, content, keyID, key) == env.hmac512(key, d)[..32]
  {
    hide FromBigEndian, Uint64;
    Uint64Reads(|keyID| + 1);
    d := [if op == SET then 1 else 2] + keyID + content + Uint64(|keyID| + 1);
    var end := 1 + |keyID| + |content|;
    assert d[1..1 + |keyID|] == keyID && d[1 + |keyID|..end] == content && d[end..] == Uint64(|keyID| + 1);
  }

  /** The lengths of Go's slices. */
  const INT64_RANGE := 0x8000_0000_0000_0000

  // ---- What an input determines ----

  lemma PatchInputDetermines(d: Bytes, a: Bytes, b: Bytes, ms: seq<Mutation>, ns: seq<Mutation>, v: Version, w: Version,
                             name: Bytes)
    requires Sound(ms) && Sound(ns) && |a| == |b|
    requires PatchInput(d, a, ms, v, name) && PatchInput(d, b, ns, w, name)
    ensures a == b && v == w && |ms| == |ns|
    ensures forall i :: 0 <= i < |ms| ==> ms[i].blob[|ms[i].blob| - 32..] == ns[i].blob[|ns[i].blob| - 32..]
  {
    hide FromBigEndian;
    forall i | 0 <= i < |ms|
      ensures ms[i].blob[|ms[i].blob| - 32..] == ns[i].blob[|ns[i].blob| - 32..]
    {
      assert d[|a| + 32 * i..|a| + 32 * i + 32] == ns[i].blob[|ns[i].blob| - 32..];
    }
  }

  lemma ContentInputDetermines(d: Bytes, op: Op, op': Op, keyID: Bytes, keyID': Bytes, content: Bytes, content': Bytes)
    requires ContentInput(d, op, keyID, content) && ContentInput(d, op', keyID', content')
    ensures op == op' && keyID == keyID' && content == content'
  {
    hide FromBigEndian;
    assert d[|d| - 8..] == d[1 + |keyID| + |content|..] == d[1 + |keyID'| + |content'|..];
  }

  // ---- Accepted patches ----

  /** With validation on, the two MACs of an accepted patch are HMACs of what they cover. */
  lemma AcceptedPatchMACs(env: Env, name: Bytes, s: Stored, p: Patch) returns (state: Bytes, d: Bytes)
    requires env.Sized() && s.Valid() && ApplyPatch(env, name, s, p, true).Success?
    ensures Sound(p.mutations) && p.keyID in env.keys
    ensures StateInput(state, ApplyPatch(env, name, s, p, true).value.stored.state.hash, p.version, name)
    ensures |state| == 128 + 8 + |name|
    ensures p.snapshotMAC == env.hmac256(env.keys[p.keyID].snapshotMAC, state)
    ensures PatchInput(d, p.snapshotMAC, p.mutations, p.version, name)
    ensures p.patchMAC == env.hmac256(env.keys[p.keyID].patchMAC, d)
  {
    hide ApplyPatch, PatchInput, SnapshotMAC, PatchMAC, MutationVerified, FromBigEndian;
    AppliedIsVerified(env, name, s, p);
    PatchParts(env, name, s, p, true);
    state := StateMAC(env, ApplyPatch(env, name, s, p, true).value.stored.state, name, env.keys[p.keyID].snapshotMAC);
    d := PatchMACInput(env, p, name, env.keys[p.keyID].patchMAC, p.version);
  }

  lemma AcceptedSnapshotMAC(env: Env, name: Bytes, s: Stored, ss: Snapshot) returns (d: Bytes)
    requires env.Sized() && s.Valid() && ApplySnapshot(env, name, s, ss, true).Success?
    ensures ss.keyID in env.keys
    ensures StateInput(d, ApplySnapshot(env, name, s, ss, true).value.stored.state.hash, ss.version, name)
    ensures ss.mac == env.hmac256(env.keys[ss.keyID].snapshotMAC, d)
  {
    hide ApplySnapshot, StateInput, SnapshotMAC, MutationVerified, SnapshotMutations;
    SnapshotIsVerified(env, name, s, ss);
    SnapshotParts(env, name, s, ss, true);
    d := StateMAC(env, ApplySnapshot(env, name, s, ss, true).value.stored.state, name, env.keys[ss.keyID].snapshotMAC);
  }

  lemma AcceptedContentMAC(env: Env, m: Mutation) returns (d: Bytes)
    requires env.Sized() && |m.keyID| < INT64_RANGE && DecodeMutation(env, m, true).Success?
    ensures m.keyID in env.keys && |m.blob| >= 32
    ensures ContentInput(d, m.op, m.keyID, m.blob[..|m.blob| - 32])
    ensures m.blob[|m.blob| - 32..] == env.hmac512(env.keys[m.keyID].valueMAC, d)[..32]
  {
    hide ContentMAC, ContentInput;
    d := ContentMACInput(env, m.op, m.blob[..|m.blob| - 32], m.keyID, env.keys[m.keyID].valueMAC);
  }

  /** The value MACs of two patches agree in order. */
  ghost predicate SameValueMACs(ms: seq<Mutation>, ns: seq<Mutation>)
    requires Sound(ms) && Sound(ns)
  {
    |ms| == |ns| && forall i :: 0 <= i < |ms| ==> ms[i].blob[|ms[i].blob| - 32..] == ns[i].blob[|ns[i].blob| - 32..]
  }

  /** Two patches accepted for one name under one key and with one patch MAC have the same snapshot MAC, version and value
      MACs in order, or HMAC collides. */
  lemma PatchMACIsTamperEvident(env: Env, name: Bytes, s: Stored, p: Patch, s': Stored, p': Patch)
    returns (d: Bytes, d': Bytes)
    requires env.Sized() && s.Valid() && s'.Valid()
    requires ApplyPatch(env, name, s, p, true).Success? && ApplyPatch(env, name, s', p', true).Success?
    requires p.keyID == p'.keyID && p.patchMAC == p'.patchMAC
    ensures Sound(p.mutations) && Sound(p'.mutations) && p.keyID in env.keys
    ensures || (p.snapshotMAC == p'.snapshotMAC && p.version == p'.version && SameValueMACs(p.mutations, p'.mutations))
            || Collides(env, env.keys[p.keyID].patchMAC, d, d')
  {
    hide ApplyPatch, StateInput, PatchInput;
    var state, state';
    state, d := AcceptedPatchMACs(env, name, s, p);
    state', d' := AcceptedPatchMACs(env, name, s', p');
    if d == d' {
      PatchInputDetermines(d, p.snapshotMAC, p'.snapshotMAC, p.mutations, p'.mutations, p.version, p'.version, name);
    }
  }

  /** Two mutations accepted under one key with one value MAC have the same operation and content, or HMAC collides. */
  lemma ContentMACIsTamperEvident(env: Env, m: Mutation, m': Mutation) returns (d: Bytes, d': Bytes)
    requires env.Sized() && |m.keyID| < INT64_RANGE && m.keyID == m'.keyID
    requires DecodeMutation(env, m, true).Success? && DecodeMutation(env, m', true).Success?
    requires |m.blob| >= 32 && |m'.blob| >= 32 && m.blob[|m.blob| - 32..] == m'.blob[|m'.blob| - 32..]
    ensures m.keyID in env.keys
    ensures || (m.op == m'.op && m.blob[..|m.blob| - 32] == m'.blob[..|m'.blob| - 32])
            || ContentCollides(env, env.keys[m.keyID].valueMAC, d, d')
  {
    hide DecodeMutation, ContentInput;
    d := AcceptedContentMAC(env, m);
    d' := AcceptedContentMAC(env, m');
    if d == d' {
      ContentInputDetermines(d, m.op, m'.op, m.keyID, m'.keyID, m.blob[..|m.blob| - 32], m'.blob[..|m'.blob| - 32]);
    }
  }

  // ---- Outgoing patches ----

  /** What an outgoing patch carries: its MACs cover the state it leads to, its mutations and the next version. */
  lemma EncodedPatchMACs(env: Env, keyID: Bytes, s: Stored, name: Bytes, infos: seq<MutationInfo>, ivs: seq<Bytes>,
                         timestamp: int) returns (state: Bytes, d: Bytes)
    requires env.Sized() && s.Valid() && |ivs| == |infos|
    requires EncodePatch(env, keyID, s, name, infos, ivs, timestamp).Success?
    ensures var p := EncodePatch(env, keyID, s, name, infos, ivs, timestamp).value;
            && keyID in env.keys && p.keyID == keyID && Sound(p.mutations) && |p.mutations| == |infos|
            && StateInput(state, StateAfter(env, s, StoreOnly, p.mutations).hash, NextVersion(s.state), name)
            && p.snapshotMAC == env.hmac256(env.keys[keyID].snapshotMAC, state)
            && PatchInput(d, p.snapshotMAC, p.mutations, NextVersion(s.state), name)
            && p.patchMAC == env.hmac256(env.keys[keyID].patchMAC, d)
  {
    hide StateInput, PatchInput, SnapshotMAC, EncodeMutations, Collect;
    var p := EncodePatch(env, keyID, s, name, infos, ivs, timestamp).value;
    EncodedCount(env, env.keys[keyID], keyID, infos, ivs, timestamp);
    state := StateMAC(env, StateAfter(env, s, StoreOnly, p.mutations), name, env.keys[keyID].snapshotMAC);
    d := PatchMACInput(env, p, name, env.keys[keyID].patchMAC, NextVersion(s.state));
  }

  lemma {:induction false} EncodedCount(env: Env, keys: Keys, keyID: Bytes, infos: seq<MutationInfo>, ivs: seq<Bytes>,
                                        timestamp: int)
    requires env.Sized() && |ivs| == |infos|
    ensures |EncodeMutations(env, keys, keyID, infos, ivs, timestamp)| == |infos|
  {
    hide EncodeMutation;
    if infos != [] {
      EncodedCount(env, keys, keyID, infos[..|infos| - 1], ivs[..|infos| - 1], timestamp);
    }
  }

  /** An outgoing mutation is a SET under the index MAC of its index; its blob is the initialisation vector, the encrypted
      action, and the content MAC of both. */
  lemma EncodedMutationParts(env: Env, keys: Keys, keyID: Bytes, info: MutationInfo, iv: Bytes, timestamp: int)
    returns (d: Bytes)
    requires env.Sized() && |keyID| < INT64_RANGE
    ensures var m := EncodeMutation(env, keys, keyID, info, iv, timestamp);
            var index := env.marshalIndex(info.index);
            var action := Action(index, ActionValue(timestamp, info.value.body), info.version);
            var content := iv + env.encrypt(keys.valueEncryption, iv, env.marshalAction(action));
            && m.op == SET && m.keyID == keyID && m.index == env.hmac256(keys.index, index)
            && ContentInput(d, SET, keyID, content)
            && m.blob == content + env.hmac512(keys.valueMAC, d)[..32]
  {
    hide ContentMAC, ContentInput;
    var index := env.marshalIndex(info.index);
    var action := Action(index, ActionValue(timestamp, info.value.body), info.version);
    var content := iv + env.encrypt(keys.valueEncryption, iv, env.marshalAction(action));
    d := ContentMACInput(env, SET, content, keyID, keys.valueMAC);
  }
}
