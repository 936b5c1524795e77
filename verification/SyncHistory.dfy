/** Snapshots, lists of patches and whole histories: what is stored always matches, and nothing half-applied is. */
module SyncHistory {
  import opened Wrappers
  import opened Bytes
  import opened LtHash
  import opened AppState
  import opened HashInvariant

  // ---- Snapshots ----

  /** A snapshot only adds, so an index that was already there is counted twice. */
  function Overwritten(expand: Expander, macs: Table, ms: seq<Mutation>, j: nat): int
    requires Sound(ms) && forall item :: 2 * j + 1 < |expand(item)|
  {
    if ms == [] then 0
    else
      var before := ms[..|ms| - 1];
      var table := After(macs, before);
      var index := ms[|ms| - 1].index;
      Overwritten(expand, macs, before, j) + if index in table then Lane(expand(table[index]), j) else 0
  }

  predicate AllSets(ms: seq<Mutation>) {
    forall m :: m in ms ==> m.op == SET
  }

  lemma {:induction false} SnapshotChange(expand: Expander, macs: Table, ms: seq<Mutation>, j: nat)
    requires forall item :: 2 * j + 1 < |expand(item)|
    requires Sound(ms) && AllSets(ms) && Collect(Nowhere, macs, ms).Success?
    ensures var lists := Collect(Nowhere, macs, ms).value;
            Sum(expand, lists.added, j) - Sum(expand, lists.removed, j)
            == TableSum(expand, After(macs, ms), j) - TableSum(expand, macs, j) + Overwritten(expand, macs, ms, j)
  {
    if ms == [] {
      assert After(macs, ms) == macs;
    } else {
      var before, m := ms[..|ms| - 1], ms[|ms| - 1];
      CollectStep(expand, Nowhere, macs, ms, j);
      SoundPrefix(ms);
      assert m in ms;
      SnapshotChange(expand, macs, before, j);
      AfterStep(macs, ms);
      TableSumPut(expand, After(macs, before), m.index, ValueMAC(m.blob), j);
    }
  }

  predicate DistinctIndexes(ms: seq<Mutation>) {
    forall i, k :: 0 <= i < k < |ms| ==> ms[i].index != ms[k].index
  }

  lemma {:induction false} NothingOverwritten(expand: Expander, macs: Table, ms: seq<Mutation>, j: nat)
    requires forall item :: 2 * j + 1 < |expand(item)|
    requires Sound(ms) && DistinctIndexes(ms) && forall m :: m in ms ==> m.index !in macs
    ensures Overwritten(expand, macs, ms, j) == 0
  {
    if ms != [] {
      SoundPrefix(ms);
      var before, m := ms[..|ms| - 1], ms[|ms| - 1];
      assert m in ms;
      NothingOverwritten(expand, macs, before, j);
      AfterLookup(macs, before, m.index);
      if LastMention(before, m.index).Some? {
        var i := LastMentionAt(before, m.index);
        assert false;
      }
    }
  }

  lemma SnapshotParts(env: Env, name: Bytes, s: Stored, ss: Snapshot, validate: bool)
    requires env.Sized() && s.Valid() && ApplySnapshot(env, name, s, ss, validate).Success?
    ensures var ms := SnapshotMutations(ss.records);
            && Sound(ms) && AllSets(ms) && Collect(Nowhere, s.macs, ms).Success?
            && var after := ApplySnapshot(env, name, s, ss, validate).value.stored;
               var lists := Collect(Nowhere, s.macs, ms).value;
               && after.macs == After(s.macs, ms)
               && after.state.version == ss.version
               && after.state.hash == Update(env.expand, s.state.hash, lists.removed, lists.added)
  {
    hide CheckSnapshotMAC, After, Update, Collect;
  }

  /** The hash is the sum over the table, plus what the snapshot `ms` overwrote in `macs`, in every lane. */
  ghost predicate OffByOverwritten(expand: Expander, macs: Table, after: Stored, ms: seq<Mutation>)
    requires ExpandsTo(expand, HASH_SIZE) && after.Valid() && Sound(ms)
  {
    forall j: nat :: 2 * j + 1 < HASH_SIZE ==>
      Lane(after.state.hash, j) == (TableSum(expand, after.macs, j) + Overwritten(expand, macs, ms, j)) % MODULUS
  }

  lemma SnapshotHash(env: Env, name: Bytes, s: Stored, ss: Snapshot, validate: bool)
    requires env.Sized() && s.Valid() && Represents(env.expand, s)
    requires ApplySnapshot(env, name, s, ss, validate).Success?
    ensures Sound(SnapshotMutations(ss.records))
    ensures OffByOverwritten(env.expand, s.macs, ApplySnapshot(env, name, s, ss, validate).value.stored,
                             SnapshotMutations(ss.records))
  {
    hide ApplySnapshot, After, Update, Collect, TableSum, Overwritten;
    SnapshotParts(env, name, s, ss, validate);
    var ms := SnapshotMutations(ss.records);
    var lists := Collect(Nowhere, s.macs, ms).value;
    var after := ApplySnapshot(env, name, s, ss, validate).value.stored;
    forall j: nat | 2 * j + 1 < HASH_SIZE
      ensures Lane(after.state.hash, j)
           == (TableSum(env.expand, after.macs, j) + Overwritten(env.expand, s.macs, ms, j)) % MODULUS
    {
      SnapshotChange(env.expand, s.macs, ms, j);
      HashMod(Lane(s.state.hash, j), TableSum(env.expand, s.macs, j), Sum(env.expand, lists.removed, j),
              Sum(env.expand, lists.added, j), TableSum(env.expand, after.macs, j),
              Overwritten(env.expand, s.macs, ms, j));
    }
  }

  /** A snapshot keeps the hash equal to the sum over the table exactly when what it overwrites adds up to nothing. */
  lemma SnapshotKeepsHashIff(env: Env, name: Bytes, s: Stored, ss: Snapshot, validate: bool)
    requires env.Sized() && s.Valid() && Represents(env.expand, s)
    requires ApplySnapshot(env, name, s, ss, validate).Success?
    ensures Sound(SnapshotMutations(ss.records))
    ensures Represents(env.expand, ApplySnapshot(env, name, s, ss, validate).value.stored)
       <==> forall j: nat :: 2 * j + 1 < HASH_SIZE ==>
              Overwritten(env.expand, s.macs, SnapshotMutations(ss.records), j) % MODULUS == 0
  {
    hide ApplySnapshot, TableSum, Overwritten;
    SnapshotHash(env, name, s, ss, validate);
    var ms := SnapshotMutations(ss.records);
    var after := ApplySnapshot(env, name, s, ss, validate).value.stored;
    if Represents(env.expand, after) {
      forall j: nat | 2 * j + 1 < HASH_SIZE
        ensures Overwritten(env.expand, s.macs, ms, j) % MODULUS == 0
      {
        assert Lane(after.state.hash, j) == TableSum(env.expand, after.macs, j) % MODULUS;
        ModZero(TableSum(env.expand, after.macs, j), Overwritten(env.expand, s.macs, ms, j));
      }
    } else {
      var j: nat :|
        2 * j + 1 < HASH_SIZE && Lane(after.state.hash, j) != TableSum(env.expand, after.macs, j) % MODULUS;
      ModZero(TableSum(env.expand, after.macs, j), Overwritten(env.expand, s.macs, ms, j));
      assert Overwritten(env.expand, s.macs, ms, j) % MODULUS != 0;
    }
  }

  /** A snapshot of distinct indexes, none of them stored yet, overwrites nothing. */
  lemma SnapshotKeepsHash(env: Env, name: Bytes, s: Stored, ss: Snapshot, validate: bool)
    requires env.Sized() && s.Valid() && Represents(env.expand, s)
    requires ApplySnapshot(env, name, s, ss, validate).Success?
    requires DistinctIndexes(SnapshotMutations(ss.records))
    requires forall r :: r in ss.records ==> r.index !in s.macs
    ensures Represents(env.expand, ApplySnapshot(env, name, s, ss, validate).value.stored)
  {
    hide ApplySnapshot, Represents, Overwritten;
    SnapshotKeepsHashIff(env, name, s, ss, validate);
    var ms := SnapshotMutations(ss.records);
    forall j: nat | 2 * j + 1 < HASH_SIZE
      ensures Overwritten(env.expand, s.macs, ms, j) == 0
    {
      NothingOverwritten(env.expand, s.macs, ms, j);
    }
  }

  // ---- Lists of patches ----

  /** Success, or a failure that leaves exactly the patches before the failing one applied. */
  lemma {:induction false} StopsAtFailure(env: Env, name: Bytes, s: Stored, patches: seq<Patch>, validate: bool)
    requires env.Sized() && s.Valid()
    ensures var r := ApplyPatches(env, name, s, patches, validate);
            var applied := ApplyPatches(env, name, s, patches[..r.applied], validate);
            && applied.error.None? && r.stored == applied.stored && r.mutations == applied.mutations
            && (r.error.None? ==> r.applied == |patches|)
            && (r.error.Some? ==>
                  && r.applied < |patches|
                  && ApplyPatch(env, name, r.stored, patches[r.applied], validate) == Failure(r.error.value))
  {
    hide ApplyPatch;
    if patches != [] {
      var front := patches[..|patches| - 1];
      StopsAtFailure(env, name, s, front, validate);
      var before := ApplyPatches(env, name, s, front, validate);
      assert front[..before.applied] == patches[..before.applied];
      assert before.error.None? ==> patches[..before.applied] == front;
      assert patches[..|patches|] == patches;
    } else {
      assert patches[..0] == [];
    }
  }

  /** With validation on, an applied patch carried the right snapshot and patch MACs, and every mutation in it the
      right content and index MACs. */
  ghost predicate Verified(env: Env, name: Bytes, p: Patch, state: HashState)
    requires env.Sized() && Sound(p.mutations)
  {
    && p.keyID in env.keys
    && SnapshotMAC(env, state, name, env.keys[p.keyID].snapshotMAC) == p.snapshotMAC
    && PatchMAC(env, p, name, env.keys[p.keyID].patchMAC, p.version) == p.patchMAC
    && forall m :: m in p.mutations ==> MutationVerified(env, m)
  }

  /** The action that a mutation's ciphertext holds. */
  function DecryptedAction(env: Env, m: Mutation): Option<Action>
    requires m.keyID in env.keys && |m.blob| >= MAC_SIZE + IV_SIZE
  {
    var content := m.blob[..|m.blob| - MAC_SIZE];
    match env.decrypt(env.keys[m.keyID].valueEncryption, content[..IV_SIZE], content[IV_SIZE..])
    case None => None
    case Some(plain) => env.unmarshalAction(plain)
  }

  ghost predicate MutationVerified(env: Env, m: Mutation)
    requires env.Sized() && |m.blob| >= MAC_SIZE
  {
    && m.keyID in env.keys
    && ContentMAC(env, m.op, m.blob[..|m.blob| - MAC_SIZE], m.keyID, env.keys[m.keyID].valueMAC) == ValueMAC(m.blob)
    && |m.blob| >= MAC_SIZE + IV_SIZE
    && DecryptedAction(env, m).Some?
    && env.hmac256(env.keys[m.keyID].index, DecryptedAction(env, m).value.index) == m.index
  }

  lemma {:induction false} MutationsVerified(env: Env, ms: seq<Mutation>)
    requires env.Sized() && DecodeMutations(env, ms, true).Success?
    ensures Sound(ms) && forall m :: m in ms ==> MutationVerified(env, m)
  {
    if ms != [] {
      MutationsVerified(env, ms[..|ms| - 1]);
      MutationDecodes(env, ms[|ms| - 1]);
      assert ms == ms[..|ms| - 1] + [ms[|ms| - 1]];
    }
  }

  lemma MutationDecodes(env: Env, m: Mutation)
    requires env.Sized() && DecodeMutation(env, m, true).Success?
    ensures |m.blob| >= MAC_SIZE && MutationVerified(env, m)
  {
    hide ContentMAC;
  }

  lemma AppliedIsVerified(env: Env, name: Bytes, s: Stored, p: Patch)
    requires env.Sized() && s.Valid() && ApplyPatch(env, name, s, p, true).Success?
    ensures Sound(p.mutations)
    ensures Verified(env, name, p, ApplyPatch(env, name, s, p, true).value.stored.state)
  {
    hide UpdateHash, After, SnapshotMAC, PatchMAC, MutationVerified, DecodeMutations;
    MutationsVerified(env, p.mutations);
  }

  /** The same of a snapshot: its own MAC, and those of every record. */
  ghost predicate SnapshotVerified(env: Env, name: Bytes, ss: Snapshot, state: HashState)
    requires env.Sized() && Sound(SnapshotMutations(ss.records))
  {
    && ss.keyID in env.keys
    && SnapshotMAC(env, state, name, env.keys[ss.keyID].snapshotMAC) == ss.mac
    && forall m :: m in SnapshotMutations(ss.records) ==> MutationVerified(env, m)
  }

  lemma SnapshotIsVerified(env: Env, name: Bytes, s: Stored, ss: Snapshot)
    requires env.Sized() && s.Valid() && ApplySnapshot(env, name, s, ss, true).Success?
    ensures Sound(SnapshotMutations(ss.records))
    ensures SnapshotVerified(env, name, ss, ApplySnapshot(env, name, s, ss, true).value.stored.state)
  {
    hide UpdateHash, After, SnapshotMAC, MutationVerified, DecodeMutations, SnapshotMutations;
    MutationsVerified(env, SnapshotMutations(ss.records));
  }

  /** Each of the first `applied` patches was verified in the state that it left. */
  ghost predicate AllVerified(env: Env, name: Bytes, s: Stored, patches: seq<Patch>, applied: nat)
    requires env.Sized() && s.Valid() && applied <= |patches|
  {
    forall i :: 0 <= i < applied ==>
      Sound(patches[i].mutations)
      && Verified(env, name, patches[i], ApplyPatches(env, name, s, patches[..i + 1], true).stored.state)
  }

  lemma VerifiedInFront(env: Env, name: Bytes, s: Stored, patches: seq<Patch>, applied: nat)
    requires env.Sized() && s.Valid() && applied < |patches|
    requires AllVerified(env, name, s, patches[..|patches| - 1], applied)
    ensures AllVerified(env, name, s, patches, applied)
  {
    hide ApplyPatches, Verified, Sound;
    var front := patches[..|patches| - 1];
    forall i | 0 <= i < applied
      ensures Sound(patches[i].mutations)
      ensures Verified(env, name, patches[i], ApplyPatches(env, name, s, patches[..i + 1], true).stored.state)
    {
      assert front[i] == patches[i] && front[..i + 1] == patches[..i + 1];
    }
  }

  lemma {:induction false} EveryAppliedIsVerified(env: Env, name: Bytes, s: Stored, patches: seq<Patch>)
    requires env.Sized() && s.Valid()
    ensures AllVerified(env, name, s, patches, ApplyPatches(env, name, s, patches, true).applied)
  {
    hide ApplyPatch, Verified, Sound;
    if patches != [] {
      var front, p := patches[..|patches| - 1], patches[|patches| - 1];
      EveryAppliedIsVerified(env, name, s, front);
      var before := ApplyPatches(env, name, s, front, true);
      VerifiedInFront(env, name, s, patches, before.applied);
      if before.error.None? && ApplyPatch(env, name, before.stored, p, true).Success? {
        AppliedIsVerified(env, name, before.stored, p);
        assert patches[..|patches|] == patches;
      }
    }
  }

  /** What the patches of a list start from: what is stored, or what its snapshot makes of that. */
  function AfterSnapshot(env: Env, s: Stored, list: PatchList, validate: bool): (r: Result<Applied, Error>)
    requires env.Sized() && s.Valid()
    ensures r.Success? ==> r.value.stored.Valid()
  {
    match list.snapshot
    case None => Success(Applied(s, []))
    case Some(ss) => ApplySnapshot(env, list.name, s, ss, validate)
  }

  /**
   A snapshot that fails leaves what was stored. Otherwise what is stored and reported is the snapshot and a prefix of
   the patches, and nothing of the patch after it, which failed; with validation on, the snapshot and every patch of the
   prefix passed all their MAC checks.
   */
  ghost predicate StoresVerifiedPrefix(env: Env, s: Stored, list: PatchList, validate: bool, r: Run)
    requires env.Sized() && s.Valid() && r.applied <= |list.patches|
  {
    match AfterSnapshot(env, s, list, validate)
    case Failure(e) => r == Run(s, 0, [], Some(e))
    case Success(start) =>
      var prefix := ApplyPatches(env, list.name, start.stored, list.patches[..r.applied], validate);
      && prefix.error.None? && r.stored == prefix.stored && r.mutations == start.mutations + prefix.mutations
      && (r.error.None? ==> r.applied == |list.patches|)
      && (r.error.Some? ==>
            && r.applied < |list.patches|
            && ApplyPatch(env, list.name, r.stored, list.patches[r.applied], validate) == Failure(r.error.value))
      && (validate && list.snapshot.Some? ==>
            && Sound(SnapshotMutations(list.snapshot.value.records))
            && SnapshotVerified(env, list.name, list.snapshot.value, start.stored.state))
      && (validate ==> AllVerified(env, list.name, start.stored, list.patches, r.applied))
  }

  /** For every list, whatever its outcome. */
  lemma OnlyVerifiedIsStored(env: Env, s: Stored, list: PatchList, validate: bool)
    requires env.Sized() && s.Valid()
    ensures StoresVerifiedPrefix(env, s, list, validate, ApplyList(env, s, list, validate))
  {
    hide ApplySnapshot, ApplyPatch, ApplyPatches, Sound, SnapshotVerified, AllVerified;
    var start := AfterSnapshot(env, s, list, validate);
    if start.Success? {
      StopsAtFailure(env, list.name, start.value.stored, list.patches, validate);
      if validate {
        EveryAppliedIsVerified(env, list.name, start.value.stored, list.patches);
        if list.snapshot.Some? {
          SnapshotIsVerified(env, list.name, s, list.snapshot.value);
        }
      }
    }
  }

  lemma {:induction false} PatchesKeepHash(env: Env, name: Bytes, s: Stored, patches: seq<Patch>, validate: bool)
    requires env.Sized() && s.Valid() && Represents(env.expand, s)
    requires forall p :: p in patches ==> RemovedOnce(p.mutations)
    ensures Represents(env.expand, ApplyPatches(env, name, s, patches, validate).stored)
  {
    hide ApplyPatch, Represents, RemovedOnce;
    if patches != [] {
      var front, p := patches[..|patches| - 1], patches[|patches| - 1];
      PatchesKeepHash(env, name, s, front, validate);
      var r := ApplyPatches(env, name, s, front, validate);
      if r.error.None? && ApplyPatch(env, name, r.stored, p, validate).Success? {
        PatchKeepsHash(env, name, r.stored, p, validate);
      }
    }
  }

  lemma PatchKeepsHash(env: Env, name: Bytes, s: Stored, p: Patch, validate: bool)
    requires env.Sized() && s.Valid() && Represents(env.expand, s) && RemovedOnce(p.mutations)
    requires ApplyPatch(env, name, s, p, validate).Success?
    ensures Represents(env.expand, ApplyPatch(env, name, s, p, validate).value.stored)
  {
    hide ApplyPatch, Represents, RemovedOnce, Drift;
    PatchKeepsHashIff(env, name, s, p, validate);
    forall j: nat | 2 * j + 1 < HASH_SIZE
      ensures Drift(env.expand, p.mutations, j) == 0
    {
      NoDrift(env.expand, p.mutations, j);
    }
  }

  // ---- Histories ----

  /** Nothing is stored yet, or a full sync has just reset what was. */
  ghost predicate Cleared(s: Stored) {
    s.macs == map[] && |s.state.hash| == HASH_SIZE && forall i :: 0 <= i < HASH_SIZE ==> s.state.hash[i] == 0
  }

  /** A snapshot may only open the history; no patch mentions a removed index twice. */
  ghost predicate Allowed(lists: seq<PatchList>) {
    && (forall i :: 0 <= i < |lists| ==> forall p :: p in lists[i].patches ==> RemovedOnce(p.mutations))
    && (forall i :: 0 < i < |lists| ==> lists[i].snapshot.None?)
    && (lists != [] && lists[0].snapshot.Some? ==> DistinctIndexes(SnapshotMutations(lists[0].snapshot.value.records)))
  }

  lemma ClearedRepresents(expand: Expander, s: Stored)
    requires ExpandsTo(expand, HASH_SIZE) && Cleared(s)
    ensures s.Valid() && Represents(expand, s)
  {
  }

  lemma ListKeepsHash(env: Env, s: Stored, list: PatchList, validate: bool)
    requires env.Sized() && s.Valid() && Represents(env.expand, s)
    requires forall p :: p in list.patches ==> RemovedOnce(p.mutations)
    requires list.snapshot.Some? ==>
               s.macs == map[] && DistinctIndexes(SnapshotMutations(list.snapshot.value.records))
    ensures Represents(env.expand, ApplyList(env, s, list, validate).stored)
  {
    hide Represents, RemovedOnce, DistinctIndexes, ApplySnapshot, ApplyPatches;
    match list.snapshot
    case None => PatchesKeepHash(env, list.name, s, list.patches, validate);
    case Some(ss) =>
      var r := ApplySnapshot(env, list.name, s, ss, validate);
      if r.Success? {
        SnapshotKeepsHash(env, list.name, s, ss, validate);
        PatchesKeepHash(env, list.name, r.value.stored, list.patches, validate);
      }
  }

  /** Over any allowed history, failed decodes included, the stored hash is the sum over the stored table. */
  lemma {:induction false} HistoryKeepsHash(env: Env, s: Stored, lists: seq<PatchList>, validate: bool)
    requires env.Sized() && Cleared(s) && Allowed(lists)
    ensures s.Valid() && Represents(env.expand, Replay(env, s, lists, validate))
  {
    hide Represents, ApplyList, RemovedOnce, DistinctIndexes;
    ClearedRepresents(env.expand, s);
    if lists != [] {
      var front, list := lists[..|lists| - 1], lists[|lists| - 1];
      assert forall i :: 0 <= i < |front| ==> front[i] == lists[i];
      HistoryKeepsHash(env, s, front, validate);
      ListKeepsHash(env, Replay(env, s, front, validate), list, validate);
    }
  }

  /** So two histories that end with the same table and version end with the same hash. */
  lemma HistoriesAgree(env: Env, s: Stored, lists: seq<PatchList>, lists': seq<PatchList>, validate: bool)
    requires env.Sized() && Cleared(s) && s.Valid() && Allowed(lists) && Allowed(lists')
    requires Replay(env, s, lists, validate).macs == Replay(env, s, lists', validate).macs
    ensures Replay(env, s, lists, validate).state.hash == Replay(env, s, lists', validate).state.hash
  {
    hide Represents, Replay, Allowed;
    HistoryKeepsHash(env, s, lists, validate);
    HistoryKeepsHash(env, s, lists', validate);
    SameTableSameHash(env.expand, Replay(env, s, lists, validate), Replay(env, s, lists', validate));
  }
}
