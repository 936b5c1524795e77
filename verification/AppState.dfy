/**
 App-state sync (appstate/hash.go, appstate/decode.go, appstate/encode.go): what one snapshot, one patch and a
 list of patches do to the stored version, hash and table of value MACs.
 */
module AppState {
  import opened Wrappers
  import opened Bytes
  import opened LtHash

  const HASH_SIZE := 128
  const MAC_SIZE := 32
  const IV_SIZE := 16

  datatype Op = SET | REMOVE

  /** Go's `uint64`. */
  type Version = x: int | 0 <= x < 0x1_0000_0000_0000_0000

  /** An encrypted mutation: `blob` is the initialisation vector, the ciphertext and the value MAC. */
  datatype Mutation = Mutation(op: Op, index: Bytes, blob: Bytes, keyID: Bytes)

  datatype Record = Record(index: Bytes, blob: Bytes, keyID: Bytes)

  datatype Patch = Patch(version: Version, snapshotMAC: Bytes, patchMAC: Bytes, keyID: Bytes, mutations: seq<Mutation>)

  datatype Snapshot = Snapshot(version: Version, records: seq<Record>, mac: Bytes, keyID: Bytes)

  datatype PatchList = PatchList(name: Bytes, snapshot: Option<Snapshot>, patches: seq<Patch>)

  datatype ActionValue = ActionValue(timestamp: int, body: Bytes)

  /** `SyncActionData`: `index` is JSON text. */
  datatype Action = Action(index: Bytes, value: ActionValue, version: int)

  datatype Decoded = Decoded(op: Op, value: ActionValue, version: int, index: seq<Bytes>, indexMAC: Bytes, valueMAC: Bytes)

  datatype Keys = Keys(index: Bytes, valueEncryption: Bytes, valueMAC: Bytes, snapshotMAC: Bytes, patchMAC: Bytes)

  /** `Fault` is a Go panic on a blob too short to hold its MAC or its initialisation vector. */
  datatype Error =
    | KeyNotFound | MismatchingLTHash | MismatchingPatchMAC | MismatchingContentMAC | MismatchingIndexMAC
    | BadCiphertext | BadAction | BadIndex | Fault

  /** Cryptography, protobuf and JSON, and the key store, as functions. */
  datatype Env = Env(
    expand: Expander,
    hmac256: (Bytes, Bytes) -> Bytes,
    hmac512: (Bytes, Bytes) -> Bytes,
    encrypt: (Bytes, Bytes, Bytes) -> Bytes,
    decrypt: (Bytes, Bytes, Bytes) -> Option<Bytes>,
    marshalAction: Action -> Bytes,
    unmarshalAction: Bytes -> Option<Action>,
    marshalIndex: seq<Bytes> -> Bytes,
    unmarshalIndex: Bytes -> Option<seq<Bytes>>,
    keys: map<Bytes, Keys>
  ) {
    /** The output sizes of HKDF and HMAC. */
    ghost predicate Sized() {
      && ExpandsTo(expand, HASH_SIZE)
      && (forall key, data :: |hmac256(key, data)| == 32)
      && (forall key, data :: |hmac512(key, data)| == 64)
    }

    /** Decoding undoes encoding. */
    ghost predicate Inverts() {
      && (forall key, iv, plain :: decrypt(key, iv, encrypt(key, iv, plain)) == Some(plain))
      && (forall action :: unmarshalAction(marshalAction(action)) == Some(action))
      && (forall index :: unmarshalIndex(marshalIndex(index)) == Some(index))
    }
  }

  datatype HashState = HashState(version: Version, hash: Bytes)

  type Table = map<Bytes, Bytes>

  /** What is stored for one name: the state and the value MAC of every index. */
  datatype Stored = Stored(state: HashState, macs: Table) {
    ghost predicate Valid() {
      |state.hash| == HASH_SIZE
    }
  }

  // ---- MACs ----

  function ValueMAC(blob: Bytes): (mac: Bytes)
    requires |blob| >= MAC_SIZE
    ensures |mac| == MAC_SIZE
  {
    blob[|blob| - MAC_SIZE..]
  }

  function Uint64(v: nat): Bytes {
    BigEndian(v, 8)
  }

  function SnapshotMAC(env: Env, state: HashState, name: Bytes, key: Bytes): Bytes {
    env.hmac256(key, state.hash + Uint64(state.version) + name)
  }

  function ValueMACs(ms: seq<Mutation>): Bytes
    requires forall m :: m in ms ==> |m.blob| >= MAC_SIZE
  {
    if ms == [] then [] else ValueMACs(ms[..|ms| - 1]) + ValueMAC(ms[|ms| - 1].blob)
  }

  function PatchMAC(env: Env, p: Patch, name: Bytes, key: Bytes, version: Version): Bytes
    requires forall m :: m in p.mutations ==> |m.blob| >= MAC_SIZE
  {
    env.hmac256(key, p.snapshotMAC + ValueMACs(p.mutations) + Uint64(version) + name)
  }

  function ContentMAC(env: Env, op: Op, content: Bytes, keyID: Bytes, key: Bytes): (mac: Bytes)
    requires env.Sized()
    ensures |mac| == MAC_SIZE
  {
    env.hmac512(key, [if op == SET then 1 else 2] + keyID + content + Uint64(|keyID| + 1))[..MAC_SIZE]
  }

  // ---- The incremental hash ----

  /** Where a mutation looks for the value it replaces: earlier in the patch and then in the store, only in the
      store, or nowhere. */
  datatype Lookup = PatchThenStore | StoreOnly | Nowhere

  datatype Previous = Absent | Present(mac: Bytes) | TooShort

  function FindPrevious(lookup: Lookup, macs: Table, before: seq<Mutation>, index: Bytes): Previous {
    match lookup
    case Nowhere => Absent
    case StoreOnly => if index in macs then Present(macs[index]) else Absent
    case PatchThenStore =>
      if before == [] then if index in macs then Present(macs[index]) else Absent
      else
        var last := before[|before| - 1];
        if last.index != index then FindPrevious(lookup, macs, before[..|before| - 1], index)
        else if |last.blob| < MAC_SIZE then TooShort
        else Present(ValueMAC(last.blob))
  }

  datatype Lists = Lists(removed: seq<Bytes>, added: seq<Bytes>)

  /** The lists that `updateHash` builds before it touches the hash. */
  function Collect(lookup: Lookup, macs: Table, ms: seq<Mutation>): Result<Lists, Error> {
    if ms == [] then Success(Lists([], []))
    else
      var lists :- Collect(lookup, macs, ms[..|ms| - 1]);
      var m := ms[|ms| - 1];
      if m.op == SET && |m.blob| < MAC_SIZE then Failure(Fault)
      else
        var added := if m.op == SET then lists.added + [ValueMAC(m.blob)] else lists.added;
        match FindPrevious(lookup, macs, ms[..|ms| - 1], m.index)
        case TooShort => Failure(Fault)
        case Present(mac) => Success(Lists(lists.removed + [mac], added))
        case Absent => Success(Lists(lists.removed, added))
  }

  function UpdateHash(env: Env, lookup: Lookup, macs: Table, hash: Bytes, ms: seq<Mutation>): (r: Result<Bytes, Error>)
    requires env.Sized() && |hash| == HASH_SIZE
    ensures r.Success? ==> |r.value| == HASH_SIZE
  {
    var lists :- Collect(lookup, macs, ms);
    Success(Update(env.expand, hash, lists.removed, lists.added))
  }

  // ---- Decoding mutations ----

  function DecodeMutation(env: Env, m: Mutation, validate: bool): (r: Result<Decoded, Error>)
    requires env.Sized()
    ensures r.Success? ==> |m.blob| >= MAC_SIZE && r.value.op == m.op && r.value.indexMAC == m.index
                           && r.value.valueMAC == ValueMAC(m.blob)
  {
    if m.keyID !in env.keys then Failure(KeyNotFound)
    else if |m.blob| < MAC_SIZE then Failure(Fault)
    else
      var keys := env.keys[m.keyID];
      var content, valueMAC := m.blob[..|m.blob| - MAC_SIZE], ValueMAC(m.blob);
      if validate && ContentMAC(env, m.op, content, m.keyID, keys.valueMAC) != valueMAC then
        Failure(MismatchingContentMAC)
      else if |content| < IV_SIZE then Failure(Fault)
      else match env.decrypt(keys.valueEncryption, content[..IV_SIZE], content[IV_SIZE..])
        case None => Failure(BadCiphertext)
        case Some(plain) =>
          match env.unmarshalAction(plain)
          case None => Failure(BadAction)
          case Some(action) =>
            if validate && env.hmac256(keys.index, action.index) != m.index then Failure(MismatchingIndexMAC)
            else match env.unmarshalIndex(action.index)
              case None => Failure(BadIndex)
              case Some(index) =>
                Success(Decoded(m.op, action.value, action.version, index, m.index, valueMAC))
  }

  function DecodeMutations(env: Env, ms: seq<Mutation>, validate: bool): (r: Result<seq<Decoded>, Error>)
    requires env.Sized()
    ensures r.Success? ==> |r.value| == |ms| && forall m :: m in ms ==> |m.blob| >= MAC_SIZE
  {
    if ms == [] then Success([])
    else
      var before :- DecodeMutations(env, ms[..|ms| - 1], validate);
      var last :- DecodeMutation(env, ms[|ms| - 1], validate);
      assert ms == ms[..|ms| - 1] + [ms[|ms| - 1]];
      Success(before + [last])
  }

  /** The index MACs that a successful decoding reports as removed. */
  function RemovedMACs(ms: seq<Mutation>): seq<Bytes> {
    if ms == [] then []
    else if ms[|ms| - 1].op == REMOVE then RemovedMACs(ms[..|ms| - 1]) + [ms[|ms| - 1].index]
    else RemovedMACs(ms[..|ms| - 1])
  }

  /** The index and value MACs that a successful decoding reports as added. */
  function AddedMACs(ms: seq<Mutation>): seq<(Bytes, Bytes)>
    requires forall m :: m in ms ==> |m.blob| >= MAC_SIZE
  {
    if ms == [] then []
    else
      var m := ms[|ms| - 1];
      if m.op == SET then AddedMACs(ms[..|ms| - 1]) + [(m.index, ValueMAC(m.blob))] else AddedMACs(ms[..|ms| - 1])
  }

  // ---- Storing ----

  function DeleteMACs(macs: Table, removed: seq<Bytes>): Table {
    macs - set i | i in removed
  }

  function PutMACs(macs: Table, added: seq<(Bytes, Bytes)>): Table {
    if added == [] then macs
    else PutMACs(macs, added[..|added| - 1])[added[|added| - 1].0 := added[|added| - 1].1]
  }

  /** The table after a successful element: deletions are stored before additions. */
  function After(macs: Table, ms: seq<Mutation>): Table
    requires forall m :: m in ms ==> |m.blob| >= MAC_SIZE
  {
    PutMACs(DeleteMACs(macs, RemovedMACs(ms)), AddedMACs(ms))
  }

  // ---- Applying a snapshot or a patch ----

  datatype Applied = Applied(stored: Stored, mutations: seq<Decoded>)

  function CheckSnapshotMAC(env: Env, name: Bytes, state: HashState, keyID: Bytes, mac: Bytes): Result<Keys, Error> {
    if keyID !in env.keys then Failure(KeyNotFound)
    else if SnapshotMAC(env, state, name, env.keys[keyID].snapshotMAC) != mac then Failure(MismatchingLTHash)
    else Success(env.keys[keyID])
  }

  function SnapshotMutations(records: seq<Record>): (ms: seq<Mutation>)
    ensures |ms| == |records|
  {
    seq(|records|, i requires 0 <= i < |records| => Mutation(SET, records[i].index, records[i].blob, records[i].keyID))
  }

  /** `decodeSnapshot`, up to and including the store. */
  function ApplySnapshot(env: Env, name: Bytes, s: Stored, ss: Snapshot, validate: bool): (r: Result<Applied, Error>)
    requires env.Sized() && s.Valid()
    ensures r.Success? ==> r.value.stored.Valid()
  {
    var ms := SnapshotMutations(ss.records);
    var hash :- UpdateHash(env, Nowhere, s.macs, s.state.hash, ms);
    var state := HashState(ss.version, hash);
    var check := CheckSnapshotMAC(env, name, state, ss.keyID, ss.mac);
    if validate && check.Failure? then Failure(check.error)
    else
      var mutations :- DecodeMutations(env, ms, validate);
      Success(Applied(Stored(state, After(s.macs, ms)), mutations))
  }

  /** `patchMAC` is only computed when MACs are validated; it needs every value MAC. */
  function CheckPatchMACs(env: Env, name: Bytes, state: HashState, p: Patch): Result<Keys, Error> {
    var keys :- CheckSnapshotMAC(env, name, state, p.keyID, p.snapshotMAC);
    if exists m :: m in p.mutations && |m.blob| < MAC_SIZE then Failure(Fault)
    else if PatchMAC(env, p, name, keys.patchMAC, p.version) != p.patchMAC then Failure(MismatchingPatchMAC)
    else Success(keys)
  }

  /** One turn of the patch loop of `DecodePatches`, up to and including the store. */
  function ApplyPatch(env: Env, name: Bytes, s: Stored, p: Patch, validate: bool): (r: Result<Applied, Error>)
    requires env.Sized() && s.Valid()
    ensures r.Success? ==> r.value.stored.Valid()
  {
    var hash :- UpdateHash(env, PatchThenStore, s.macs, s.state.hash, p.mutations);
    var state := HashState(p.version, hash);
    var check := CheckPatchMACs(env, name, state, p);
    if validate && check.Failure? then Failure(check.error)
    else
      var mutations :- DecodeMutations(env, p.mutations, validate);
      Success(Applied(Stored(state, After(s.macs, p.mutations)), mutations))
  }

  // ---- A list of patches ----

  /** What a list of patches leaves stored, how many of its patches were applied, and why it stopped. */
  datatype Run = Run(stored: Stored, applied: nat, mutations: seq<Decoded>, error: Option<Error>)

  function ApplyPatches(env: Env, name: Bytes, s: Stored, patches: seq<Patch>, validate: bool): (r: Run)
    requires env.Sized() && s.Valid()
    ensures r.stored.Valid() && r.applied <= |patches| && (r.error.None? ==> r.applied == |patches|)
  {
    if patches == [] then Run(s, 0, [], None)
    else
      var r := ApplyPatches(env, name, s, patches[..|patches| - 1], validate);
      if r.error.Some? then r
      else match ApplyPatch(env, name, r.stored, patches[|patches| - 1], validate)
        case Failure(e) => r.(error := Some(e))
        case Success(a) => Run(a.stored, r.applied + 1, r.mutations + a.mutations, None)
  }

  /** `DecodePatches`, started from the state that is stored. */
  function ApplyList(env: Env, s: Stored, list: PatchList, validate: bool): (r: Run)
    requires env.Sized() && s.Valid()
    ensures r.stored.Valid() && r.applied <= |list.patches|
  {
    match list.snapshot
    case None => ApplyPatches(env, list.name, s, list.patches, validate)
    case Some(ss) =>
      match ApplySnapshot(env, list.name, s, ss, validate)
      case Failure(e) => Run(s, 0, [], Some(e))
      case Success(a) =>
        var r := ApplyPatches(env, list.name, a.stored, list.patches, validate);
        r.(mutations := a.mutations + r.mutations)
  }

  /** One list after another, each from what the previous one left stored, whether it succeeded or not. */
  function Replay(env: Env, s: Stored, lists: seq<PatchList>, validate: bool): (r: Stored)
    requires env.Sized() && s.Valid()
    ensures r.Valid()
  {
    if lists == [] then s
    else ApplyList(env, Replay(env, s, lists[..|lists| - 1], validate), lists[|lists| - 1], validate).stored
  }
}
