/**
 What decoding app-state patches reports (appstate/decode.go), mutation by mutation, and when it accepts: both said of the
 bytes of the mutations.
 */
module ReportedMutations {
  import opened Wrappers
  import opened Bytes
  import opened LtHash
  import opened AppState
  import opened HashInvariant
  import opened SyncHistory
  import opened EncodePatches
  import opened Macs

  // ---- One mutation ----

  /** The action in the ciphertext of a blob: 16 bytes of initialisation vector, the ciphertext, 32 bytes of MAC. */
  function ActionIn(env: Env, blob: Bytes, keyID: Bytes): Option<Action> {
    if keyID !in env.keys || |blob| < 48 then None
    else match env.decrypt(env.keys[keyID].valueEncryption, blob[..16], blob[16..|blob| - 32])
      case None => None
      case Some(plain) => env.unmarshalAction(plain)
  }

  /** `d` reports an operation on an index with a blob: the operation, both MACs, and what the action says. */
  ghost predicate Reports(env: Env, d: Decoded, op: Op, index: Bytes, blob: Bytes, keyID: Bytes) {
    var action := ActionIn(env, blob, keyID);
    && action.Some?
    && d.op == op && d.indexMAC == index && d.valueMAC == blob[|blob| - 32..]
    && d.value == action.value.value && d.version == action.value.version
    && env.unmarshalIndex(action.value.index) == Some(d.index)
  }

  lemma Slices(blob: Bytes)
    requires |blob| >= 48
    ensures blob[..|blob| - 32][..16] == blob[..16] && blob[..|blob| - 32][16..] == blob[16..|blob| - 32]
  {
  }

  lemma MutationReports(env: Env, m: Mutation, validate: bool)
    requires env.Sized() && DecodeMutation(env, m, validate).Success?
    ensures Reports(env, DecodeMutation(env, m, validate).value, m.op, m.index, m.blob, m.keyID)
  {
    hide ContentMAC;
    Slices(m.blob);
  }

  lemma {:induction false} MutationsReport(env: Env, ms: seq<Mutation>, validate: bool)
    requires env.Sized() && DecodeMutations(env, ms, validate).Success?
    ensures var ds := DecodeMutations(env, ms, validate).value;
            |ds| == |ms| && forall i :: 0 <= i < |ms| ==> Reports(env, ds[i], ms[i].op, ms[i].index, ms[i].blob, ms[i].keyID)
  {
    hide DecodeMutation, Reports;
    if ms != [] {
      MutationsReport(env, ms[..|ms| - 1], validate);
      MutationReports(env, ms[|ms| - 1], validate);
    }
  }

  // ---- Snapshots, patches and lists ----

  /** An applied snapshot reports a SET for each of its records, in order. */
  lemma SnapshotReports(env: Env, name: Bytes, s: Stored, ss: Snapshot, validate: bool)
    requires env.Sized() && s.Valid() && ApplySnapshot(env, name, s, ss, validate).Success?
    ensures var ds := ApplySnapshot(env, name, s, ss, validate).value.mutations;
            && |ds| == |ss.records|
            && forall i :: 0 <= i < |ds| ==>
                 Reports(env, ds[i], SET, ss.records[i].index, ss.records[i].blob, ss.records[i].keyID)
  {
    MutationsReport(env, SnapshotMutations(ss.records), validate);
    hide Reports, DecodeMutations, UpdateHash, CheckSnapshotMAC, After;
  }

  /** An applied patch reports each of its mutations, in order. */
  lemma PatchReports(env: Env, name: Bytes, s: Stored, p: Patch, validate: bool)
    requires env.Sized() && s.Valid() && ApplyPatch(env, name, s, p, validate).Success?
    ensures var ds, ms := ApplyPatch(env, name, s, p, validate).value.mutations, p.mutations;
            && |ds| == |ms|
            && forall i :: 0 <= i < |ds| ==> Reports(env, ds[i], ms[i].op, ms[i].index, ms[i].blob, ms[i].keyID)
  {
    MutationsReport(env, p.mutations, validate);
    hide Reports, DecodeMutations, UpdateHash, CheckPatchMACs, After;
  }

  /** All records of a snapshot as mutations, and all mutations of some patches. */
  function OfRecords(records: seq<Record>): seq<Mutation> {
    if records == [] then []
    else OfRecords(records[..|records| - 1])
         + [Mutation(SET, records[|records| - 1].index, records[|records| - 1].blob, records[|records| - 1].keyID)]
  }

  function OfPatches(patches: seq<Patch>): seq<Mutation> {
    if patches == [] then [] else OfPatches(patches[..|patches| - 1]) + patches[|patches| - 1].mutations
  }

  lemma {:induction false} OfRecordsAt(records: seq<Record>)
    ensures |OfRecords(records)| == |records|
    ensures forall i :: 0 <= i < |records| ==>
              OfRecords(records)[i] == Mutation(SET, records[i].index, records[i].blob, records[i].keyID)
  {
    if records != [] {
      OfRecordsAt(records[..|records| - 1]);
    }
  }

  ghost predicate ReportAll(env: Env, ds: seq<Decoded>, ms: seq<Mutation>) {
    |ds| == |ms| && forall i :: 0 <= i < |ds| ==> Reports(env, ds[i], ms[i].op, ms[i].index, ms[i].blob, ms[i].keyID)
  }

  lemma ReportBoth(env: Env, ds: seq<Decoded>, ms: seq<Mutation>, ds': seq<Decoded>, ms': seq<Mutation>)
    requires ReportAll(env, ds, ms) && ReportAll(env, ds', ms')
    ensures ReportAll(env, ds + ds', ms + ms')
  {
    hide Reports;
  }

  lemma {:induction false} PatchesReport(env: Env, name: Bytes, s: Stored, patches: seq<Patch>, validate: bool)
    requires env.Sized() && s.Valid()
    ensures var r := ApplyPatches(env, name, s, patches, validate);
            ReportAll(env, r.mutations, OfPatches(patches[..r.applied]))
  {
    hide ApplyPatch, ReportAll;
    if patches == [] {
      NothingReported(env);
    } else {
      var front, p := patches[..|patches| - 1], patches[|patches| - 1];
      var r := ApplyPatches(env, name, s, front, validate);
      PatchesReport(env, name, s, front, validate);
      assert front[..r.applied] == patches[..r.applied];
      if r.error.None? && ApplyPatch(env, name, r.stored, p, validate).Success? {
        ReportsOfPatch(env, name, r.stored, p, validate);
        var a := ApplyPatch(env, name, r.stored, p, validate).value;
        ReportBoth(env, r.mutations, OfPatches(front), a.mutations, p.mutations);
        assert patches[..|patches|] == patches && front[..|front|] == front;
      }
    }
  }

  lemma NothingReported(env: Env)
    ensures ReportAll(env, [], OfPatches([])) && ReportAll(env, [], OfRecords([]))
  {
  }

  lemma ReportsOfPatch(env: Env, name: Bytes, s: Stored, p: Patch, validate: bool)
    requires env.Sized() && s.Valid() && ApplyPatch(env, name, s, p, validate).Success?
    ensures ReportAll(env, ApplyPatch(env, name, s, p, validate).value.mutations, p.mutations)
  {
    hide ApplyPatch, Reports;
    PatchReports(env, name, s, p, validate);
  }

  lemma ReportsOfSnapshot(env: Env, name: Bytes, s: Stored, ss: Snapshot, validate: bool)
    requires env.Sized() && s.Valid() && ApplySnapshot(env, name, s, ss, validate).Success?
    ensures ReportAll(env, ApplySnapshot(env, name, s, ss, validate).value.mutations, OfRecords(ss.records))
  {
    hide ApplySnapshot, Reports;
    SnapshotReports(env, name, s, ss, validate);
    OfRecordsAt(ss.records);
  }

  /** Whatever the outcome of a list: what is reported is, in order, every record of its snapshot if that was applied, and
      then every mutation of the applied patches; nothing at all if the snapshot failed. */
  lemma ListReports(env: Env, s: Stored, list: PatchList, validate: bool)
    requires env.Sized() && s.Valid()
    ensures var r := ApplyList(env, s, list, validate);
            match list.snapshot
            case None => ReportAll(env, r.mutations, OfPatches(list.patches[..r.applied]))
            case Some(ss) =>
              if ApplySnapshot(env, list.name, s, ss, validate).Success? then
                ReportAll(env, r.mutations, OfRecords(ss.records) + OfPatches(list.patches[..r.applied]))
              else r.mutations == [] && r.applied == 0
  {
    hide ApplySnapshot, ApplyPatches, ReportAll;
    match list.snapshot
    case None => PatchesReport(env, list.name, s, list.patches, validate);
    case Some(ss) =>
      var a := ApplySnapshot(env, list.name, s, ss, validate);
      if a.Success? {
        ReportsOfSnapshot(env, list.name, s, ss, validate);
        PatchesReport(env, list.name, a.value.stored, list.patches, validate);
        var r := ApplyPatches(env, list.name, a.value.stored, list.patches, validate);
        ReportBoth(env, a.value.mutations, OfRecords(ss.records), r.mutations, OfPatches(list.patches[..r.applied]));
      }
  }

  // ---- Versions ----

  lemma {:induction false} PatchesStoreVersion(env: Env, name: Bytes, s: Stored, patches: seq<Patch>, validate: bool)
    requires env.Sized() && s.Valid()
    ensures var r := ApplyPatches(env, name, s, patches, validate);
            if r.applied == 0 then r.stored == s else r.stored.state.version == patches[r.applied - 1].version
  {
    hide UpdateHash, CheckPatchMACs, DecodeMutations, After;
    if patches != [] {
      PatchesStoreVersion(env, name, s, patches[..|patches| - 1], validate);
    }
  }

  /** The stored version is that of the last element that was applied; when none was, nothing is stored. */
  lemma ListStoresVersion(env: Env, s: Stored, list: PatchList, validate: bool)
    requires env.Sized() && s.Valid()
    ensures var r := ApplyList(env, s, list, validate);
            if r.applied > 0 then r.stored.state.version == list.patches[r.applied - 1].version
            else if list.snapshot.Some? && ApplySnapshot(env, list.name, s, list.snapshot.value, validate).Success? then
              r.stored.state.version == list.snapshot.value.version
            else r.stored == s
  {
    hide UpdateHash, CheckSnapshotMAC, DecodeMutations, After, ApplyPatches;
    match list.snapshot
    case None => PatchesStoreVersion(env, list.name, s, list.patches, validate);
    case Some(ss) =>
      var a := ApplySnapshot(env, list.name, s, ss, validate);
      if a.Success? {
        PatchesStoreVersion(env, list.name, a.value.stored, list.patches, validate);
      }
  }

  // ---- Acceptance ----

  /** The key is known, the ciphertext holds an action, and the action an index. */
  predicate Readable(env: Env, m: Mutation) {
    ActionIn(env, m.blob, m.keyID).Some? && env.unmarshalIndex(ActionIn(env, m.blob, m.keyID).value.index).Some?
  }

  /** The last 32 bytes of the blob are the content MAC over operation, key id and the rest of the blob. */
  ghost predicate ContentAuthentic(env: Env, m: Mutation, key: Bytes)
    requires env.Sized() && |m.blob| >= 32
  {
    exists d ::
      && ContentInput(d, m.op, m.keyID, m.blob[..|m.blob| - 32])
      && m.blob[|m.blob| - 32..] == env.hmac512(key, d)[..32]
  }

  /** The content is authentic, and the index MAC is that of the index in the action. */
  ghost predicate Authentic(env: Env, m: Mutation)
    requires env.Sized() && Readable(env, m)
  {
    && ContentAuthentic(env, m, env.keys[m.keyID].valueMAC)
    && m.index == env.hmac256(env.keys[m.keyID].index, ActionIn(env, m.blob, m.keyID).value.index)
  }

  lemma ContentInputIsUnique(d: Bytes, d': Bytes, op: Op, keyID: Bytes, content: Bytes)
    requires ContentInput(d, op, keyID, content) && ContentInput(d', op, keyID, content)
    ensures d == d'
  {
    var end := 1 + |keyID| + |content|;
    FromBigEndianIsUnique(d[end..], d'[end..]);
    hide FromBigEndian;
    assert d == d[..1] + d[1..1 + |keyID|] + d[1 + |keyID|..end] + d[end..];
    assert d' == d'[..1] + d'[1..1 + |keyID|] + d'[1 + |keyID|..end] + d'[end..];
    assert d[..1] == [d[0]] && d'[..1] == [d'[0]];
  }

  lemma {:induction false} FromBigEndianIsUnique(a: Bytes, b: Bytes)
    requires |a| == |b| && FromBigEndian(a) == FromBigEndian(b)
    ensures a == b
  {
    if a != [] {
      assert FromBigEndian(a) / 256 == FromBigEndian(a[..|a| - 1]) && FromBigEndian(a) % 256 == a[|a| - 1];
      assert FromBigEndian(b) / 256 == FromBigEndian(b[..|b| - 1]) && FromBigEndian(b) % 256 == b[|b| - 1];
      FromBigEndianIsUnique(a[..|a| - 1], b[..|b| - 1]);
      assert a == a[..|a| - 1] + [a[|a| - 1]] && b == b[..|b| - 1] + [b[|b| - 1]];
    }
  }

  lemma ContentMACIff(env: Env, m: Mutation, key: Bytes)
    requires env.Sized() && |m.keyID| < INT64_RANGE && |m.blob| >= 32
    ensures ContentMAC(env, m.op, m.blob[..|m.blob| - 32], m.keyID, key) == ValueMAC(m.blob)
       <==> ContentAuthentic(env, m, key)
  {
    var content := m.blob[..|m.blob| - 32];
    var d := ContentMACInput(env, m.op, content, m.keyID, key);
    hide ContentMAC, ContentInput;
    if ContentAuthentic(env, m, key) {
      var d' :| ContentInput(d', m.op, m.keyID, content) && m.blob[|m.blob| - 32..] == env.hmac512(key, d')[..32];
      ContentInputIsUnique(d, d', m.op, m.keyID, content);
    }
  }

  /** A mutation is decoded exactly when it is readable and, with validation on, authentic. */
  lemma MutationAcceptedIff(env: Env, m: Mutation, validate: bool)
    requires env.Sized() && |m.keyID| < INT64_RANGE
    ensures DecodeMutation(env, m, validate).Success? <==> Readable(env, m) && (validate ==> Authentic(env, m))
  {
    hide ContentMAC, ContentAuthentic, ValueMAC;
    if |m.blob| >= 48 && m.keyID in env.keys {
      Slices(m.blob);
      ContentMACIff(env, m, env.keys[m.keyID].valueMAC);
    }
  }

  lemma {:induction false} MutationsAcceptedIff(env: Env, ms: seq<Mutation>, validate: bool)
    requires env.Sized() && forall m :: m in ms ==> |m.keyID| < INT64_RANGE
    ensures DecodeMutations(env, ms, validate).Success?
       <==> forall m :: m in ms ==> Readable(env, m) && (validate ==> Authentic(env, m))
  {
    hide DecodeMutation, Readable, Authentic;
    if ms != [] {
      var front, last := ms[..|ms| - 1], ms[|ms| - 1];
      MutationsAcceptedIff(env, front, validate);
      MutationAcceptedIff(env, last, validate);
      assert ms == front + [last];
    }
  }

  /** The MACs of a patch, for the state it leads to. */
  ghost predicate PatchAuthentic(env: Env, name: Bytes, p: Patch, hash: Bytes)
    requires Sound(p.mutations)
  {
    && p.keyID in env.keys
    && StateAuthentic(env, hash, p.version, name, env.keys[p.keyID].snapshotMAC, p.snapshotMAC)
    && MutationsAuthentic(env, name, p, env.keys[p.keyID].patchMAC)
  }

  lemma StateInputIsUnique(d: Bytes, d': Bytes, hash: Bytes, version: Version, name: Bytes)
    requires StateInput(d, hash, version, name) && StateInput(d', hash, version, name)
    ensures d == d'
  {
    FromBigEndianIsUnique(d[|hash|..|hash| + 8], d'[|hash|..|hash| + 8]);
    hide FromBigEndian;
    assert d == d[..|hash|] + d[|hash|..|hash| + 8] + d[|hash| + 8..];
    assert d' == d'[..|hash|] + d'[|hash|..|hash| + 8] + d'[|hash| + 8..];
  }

  /** Inputs with the same value MACs at the same places agree in that stretch. */
  lemma SameStretch(d: Bytes, d': Bytes, start: nat, macs: seq<Bytes>)
    requires start + 32 * |macs| <= |d| && start + 32 * |macs| <= |d'|
    requires forall i :: 0 <= i < |macs| ==> d[start + 32 * i..start + 32 * i + 32] == macs[i]
    requires forall i :: 0 <= i < |macs| ==> d'[start + 32 * i..start + 32 * i + 32] == macs[i]
    ensures d[start..start + 32 * |macs|] == d'[start..start + 32 * |macs|]
  {
    forall k | start <= k < start + 32 * |macs|
      ensures d[k] == d'[k]
    {
      var i, r := (k - start) / 32, (k - start) % 32;
      assert k == start + 32 * i + r;
      assert d[k] == d[start + 32 * i..start + 32 * i + 32][r] == macs[i][r];
      assert d'[k] == d'[start + 32 * i..start + 32 * i + 32][r] == macs[i][r];
    }
  }

  lemma PatchInputIsUnique(d: Bytes, d': Bytes, mac: Bytes, ms: seq<Mutation>, version: Version, name: Bytes)
    requires Sound(ms) && PatchInput(d, mac, ms, version, name) && PatchInput(d', mac, ms, version, name)
    ensures d == d'
  {
    var start, end := |mac|, |mac| + 32 * |ms|;
    FromBigEndianIsUnique(d[end..end + 8], d'[end..end + 8]);
    hide FromBigEndian;
    SameStretch(d, d', start, seq(|ms|, i requires 0 <= i < |ms| => ms[i].blob[|ms[i].blob| - 32..]));
    hide PatchInput;
    assert d == d[..start] + d[start..end] + d[end..end + 8] + d[end + 8..];
    assert d' == d'[..start] + d'[start..end] + d'[end..end + 8] + d'[end + 8..];
  }

  /** A patch is applied exactly when all its mutations are readable and, with validation on, it is authentic for the
      state it leads to and so are they. */
  lemma PatchAcceptedIff(env: Env, name: Bytes, s: Stored, p: Patch, validate: bool)
    requires env.Sized() && s.Valid() && forall m :: m in p.mutations ==> |m.keyID| < INT64_RANGE
    ensures ApplyPatch(env, name, s, p, validate).Success?
       <==> && Sound(p.mutations) && (forall m :: m in p.mutations ==> Readable(env, m))
            && (validate ==>
                  && PatchAuthentic(env, name, p, StateAfter(env, s, PatchThenStore, p.mutations).hash)
                  && forall m :: m in p.mutations ==> Authentic(env, m))
  {
    hide Readable, Authentic, DecodeMutations, Collect, Update, SnapshotMAC, PatchMAC, After, PatchAuthentic;
    MutationsAcceptedIff(env, p.mutations, validate);
    if Sound(p.mutations) {
      CollectSucceeds(PatchThenStore, s.macs, p.mutations);
      var hash := StateAfter(env, s, PatchThenStore, p.mutations).hash;
      PatchChecksIff(env, name, p, hash);
    } else {
      ReadableIsSound(env, p.mutations);
    }
  }

  lemma ReadableIsSound(env: Env, ms: seq<Mutation>)
    ensures (forall m :: m in ms ==> Readable(env, m)) ==> Sound(ms)
  {
  }

  lemma PatchChecksIff(env: Env, name: Bytes, p: Patch, hash: Bytes)
    requires Sound(p.mutations)
    ensures CheckPatchMACs(env, name, HashState(p.version, hash), p).Success? <==> PatchAuthentic(env, name, p, hash)
  {
    hide StateAuthentic, MutationsAuthentic, SnapshotMAC, PatchMAC;
    if p.keyID in env.keys {
      var keys := env.keys[p.keyID];
      StateMACIff(env, HashState(p.version, hash), name, keys.snapshotMAC, p.snapshotMAC);
      PatchMACIff(env, name, p, keys.patchMAC);
    }
  }

  // ---- Snapshots ----

  /** A snapshot is applied exactly when all its records are readable and, with validation on, its MAC is that of the state
      it leads to and the records are authentic as SETs. */
  lemma SnapshotAcceptedIff(env: Env, name: Bytes, s: Stored, ss: Snapshot, validate: bool)
    requires env.Sized() && s.Valid() && forall r :: r in ss.records ==> |r.keyID| < INT64_RANGE
    ensures var ms := OfRecords(ss.records);
            (ApplySnapshot(env, name, s, ss, validate).Success? <==>
               && Sound(ms) && (forall m :: m in ms ==> Readable(env, m))
               && (validate ==>
                     && ss.keyID in env.keys
                     && StateAuthentic(env, StateAfter(env, s, Nowhere, ms).hash, ss.version, name,
                                       env.keys[ss.keyID].snapshotMAC, ss.mac)
                     && forall m :: m in ms ==> Authentic(env, m)))
  {
    hide Readable, Authentic, DecodeMutations, Collect, Update, SnapshotMAC, After, StateAuthentic, SnapshotMutations;
    var ms := OfRecords(ss.records);
    SameRecords(ss.records);
    MutationsAcceptedIff(env, ms, validate);
    if Sound(ms) {
      CollectSucceeds(Nowhere, s.macs, ms);
      if ss.keyID in env.keys {
        StateMACIff(env, HashState(ss.version, StateAfter(env, s, Nowhere, ms).hash), name,
                    env.keys[ss.keyID].snapshotMAC, ss.mac);
      }
    } else {
      ReadableIsSound(env, ms);
    }
  }

  ghost predicate StateAuthentic(env: Env, hash: Bytes, version: Version, name: Bytes, key: Bytes, mac: Bytes) {
    exists d :: StateInput(d, hash, version, name) && mac == env.hmac256(key, d)
  }

  lemma StateMACIff(env: Env, state: HashState, name: Bytes, key: Bytes, mac: Bytes)
    ensures SnapshotMAC(env, state, name, key) == mac <==> StateAuthentic(env, state.hash, state.version, name, key, mac)
  {
    var d := StateMAC(env, state, name, key);
    hide StateInput, SnapshotMAC;
    if StateAuthentic(env, state.hash, state.version, name, key, mac) {
      var d' :| StateInput(d', state.hash, state.version, name) && mac == env.hmac256(key, d');
      StateInputIsUnique(d, d', state.hash, state.version, name);
    }
  }

  lemma SameRecords(records: seq<Record>)
    ensures SnapshotMutations(records) == OfRecords(records)
    ensures (forall r :: r in records ==> |r.keyID| < INT64_RANGE) ==>
              forall m :: m in OfRecords(records) ==> |m.keyID| < INT64_RANGE
  {
    OfRecordsAt(records);
    forall m | m in OfRecords(records)
      ensures exists r :: r in records && r.keyID == m.keyID
    {
      var i :| 0 <= i < |records| && m == OfRecords(records)[i];
      assert records[i] in records;
    }
  }

  // ---- Errors ----

  /** What is wrong with a mutation, in the order in which it is looked for. */
  lemma MutationErrors(env: Env, m: Mutation, validate: bool)
    requires env.Sized() && |m.keyID| < INT64_RANGE
    ensures var r := DecodeMutation(env, m, validate);
            if m.keyID !in env.keys then r == Failure(KeyNotFound)
            else if |m.blob| < 32 then r == Failure(Fault)
            else
              var keys := env.keys[m.keyID];
              if validate && !ContentAuthentic(env, m, keys.valueMAC) then r == Failure(MismatchingContentMAC)
              else if |m.blob| < 48 then r == Failure(Fault)
              else if env.decrypt(keys.valueEncryption, m.blob[..16], m.blob[16..|m.blob| - 32]).None? then
                r == Failure(BadCiphertext)
              else match ActionIn(env, m.blob, m.keyID)
                case None => r == Failure(BadAction)
                case Some(action) =>
                  if validate && env.hmac256(keys.index, action.index) != m.index then r == Failure(MismatchingIndexMAC)
                  else if env.unmarshalIndex(action.index).None? then r == Failure(BadIndex)
                  else r.Success?
  {
    hide ContentMAC, ContentAuthentic, ValueMAC;
    if |m.blob| >= 32 && m.keyID in env.keys {
      ContentMACIff(env, m, env.keys[m.keyID].valueMAC);
      if |m.blob| >= 48 {
        Slices(m.blob);
      }
    }
  }

  /** The error of a list of mutations is that of the first one that is not decoded. */
  lemma {:induction false} FirstError(env: Env, ms: seq<Mutation>, validate: bool) returns (i: nat)
    requires env.Sized() && DecodeMutations(env, ms, validate).Failure?
    ensures i < |ms| && DecodeMutations(env, ms[..i], validate).Success?
    ensures DecodeMutation(env, ms[i], validate) == Failure(DecodeMutations(env, ms, validate).error)
  {
    hide DecodeMutation;
    var front := ms[..|ms| - 1];
    if DecodeMutations(env, front, validate).Success? {
      i := |ms| - 1;
    } else {
      i := FirstError(env, front, validate);
      assert front[..i] == ms[..i];
    }
  }

  /** The error of a patch whose blobs are long enough: an unknown key, the snapshot MAC, the patch MAC, and then what is
      wrong with its mutations. */
  lemma PatchErrors(env: Env, name: Bytes, s: Stored, p: Patch, validate: bool)
    requires env.Sized() && s.Valid() && Sound(p.mutations)
    ensures var r := ApplyPatch(env, name, s, p, validate);
            if validate && p.keyID !in env.keys then r == Failure(KeyNotFound)
            else if validate && !StateAuthentic(env, StateAfter(env, s, PatchThenStore, p.mutations).hash, p.version, name,
                                                env.keys[p.keyID].snapshotMAC, p.snapshotMAC) then
              r == Failure(MismatchingLTHash)
            else if validate && !MutationsAuthentic(env, name, p, env.keys[p.keyID].patchMAC) then
              r == Failure(MismatchingPatchMAC)
            else match DecodeMutations(env, p.mutations, validate)
              case Failure(e) => r == Failure(e)
              case Success(_) => r.Success?
  {
    hide DecodeMutations, Collect, Update, SnapshotMAC, PatchMAC, After, StateAuthentic, MutationsAuthentic;
    CollectSucceeds(PatchThenStore, s.macs, p.mutations);
    if p.keyID in env.keys {
      var keys := env.keys[p.keyID];
      StateMACIff(env, HashState(p.version, StateAfter(env, s, PatchThenStore, p.mutations).hash), name,
                  keys.snapshotMAC, p.snapshotMAC);
      PatchMACIff(env, name, p, keys.patchMAC);
    }
  }

  lemma SnapshotErrors(env: Env, name: Bytes, s: Stored, ss: Snapshot, validate: bool)
    requires env.Sized() && s.Valid() && Sound(OfRecords(ss.records))
    ensures var r, ms := ApplySnapshot(env, name, s, ss, validate), OfRecords(ss.records);
            if validate && ss.keyID !in env.keys then r == Failure(KeyNotFound)
            else if validate && !StateAuthentic(env, StateAfter(env, s, Nowhere, ms).hash, ss.version, name,
                                                env.keys[ss.keyID].snapshotMAC, ss.mac) then
              r == Failure(MismatchingLTHash)
            else match DecodeMutations(env, ms, validate)
              case Failure(e) => r == Failure(e)
              case Success(_) => r.Success?
  {
    hide DecodeMutations, Collect, Update, SnapshotMAC, After, StateAuthentic, SnapshotMutations;
    var ms := OfRecords(ss.records);
    SameRecords(ss.records);
    CollectSucceeds(Nowhere, s.macs, ms);
    if ss.keyID in env.keys {
      StateMACIff(env, HashState(ss.version, StateAfter(env, s, Nowhere, ms).hash), name,
                  env.keys[ss.keyID].snapshotMAC, ss.mac);
    }
  }

  ghost predicate MutationsAuthentic(env: Env, name: Bytes, p: Patch, key: Bytes)
    requires Sound(p.mutations)
  {
    exists d :: PatchInput(d, p.snapshotMAC, p.mutations, p.version, name) && p.patchMAC == env.hmac256(key, d)
  }

  lemma PatchMACIff(env: Env, name: Bytes, p: Patch, key: Bytes)
    requires Sound(p.mutations)
    ensures PatchMAC(env, p, name, key, p.version) == p.patchMAC <==> MutationsAuthentic(env, name, p, key)
  {
    var d := PatchMACInput(env, p, name, key, p.version);
    hide PatchInput, PatchMAC;
    if MutationsAuthentic(env, name, p, key) {
      var d' :| PatchInput(d', p.snapshotMAC, p.mutations, p.version, name) && p.patchMAC == env.hmac256(key, d');
      PatchInputIsUnique(d, d', p.snapshotMAC, p.mutations, p.version, name);
    }
  }
}
