/** The full account: after any history of snapshots and patches, how far the stored hash is from the stored table. */
module HistoryDrifts {
  import opened Wrappers
  import opened Bytes
  import opened LtHash
  import opened AppState
  import opened HashInvariant
  import opened SyncHistory

  /** Lane `j` of the stored hash is the sum over the stored table, off by `off`. */
  ghost predicate OffBy(expand: Expander, s: Stored, j: nat, off: int)
    requires ExpandsTo(expand, HASH_SIZE) && s.Valid() && 2 * j + 1 < HASH_SIZE
  {
    Lane(s.state.hash, j) == (TableSum(expand, s.macs, j) + off) % MODULUS
  }

  lemma UpdateAccount(expand: Expander, s: Stored, after: Stored, lists: Lists, j: nat, off: int, change: int)
    requires ExpandsTo(expand, HASH_SIZE) && s.Valid() && after.Valid() && 2 * j + 1 < HASH_SIZE
    requires OffBy(expand, s, j, off) && after.state.hash == Update(expand, s.state.hash, lists.removed, lists.added)
    requires Sum(expand, lists.added, j) - Sum(expand, lists.removed, j)
          == TableSum(expand, after.macs, j) - TableSum(expand, s.macs, j) + change
    ensures OffBy(expand, after, j, off + change)
  {
    hide Update, TableSum, Sum, Lane;
    HashMod(Lane(s.state.hash, j), TableSum(expand, s.macs, j) + off, Sum(expand, lists.removed, j),
            Sum(expand, lists.added, j), TableSum(expand, after.macs, j) + off, change);
  }

  lemma PatchAccount(env: Env, name: Bytes, s: Stored, p: Patch, validate: bool, j: nat, off: int)
    requires env.Sized() && s.Valid() && 2 * j + 1 < HASH_SIZE && OffBy(env.expand, s, j, off)
    requires ApplyPatch(env, name, s, p, validate).Success?
    ensures Sound(p.mutations)
    ensures var after := ApplyPatch(env, name, s, p, validate).value.stored;
            OffBy(env.expand, after, j, off + Drift(env.expand, p.mutations, j))
  {
    hide ApplyPatch, After, Collect, Drift, TableSum, Sum, Update, OffBy;
    PatchParts(env, name, s, p, validate);
    HashChange(env.expand, s.macs, p.mutations, j);
    UpdateAccount(env.expand, s, ApplyPatch(env, name, s, p, validate).value.stored,
                  Collect(PatchThenStore, s.macs, p.mutations).value, j, off, Drift(env.expand, p.mutations, j));
  }

  lemma SnapshotAccount(env: Env, name: Bytes, s: Stored, ss: Snapshot, validate: bool, j: nat, off: int)
    requires env.Sized() && s.Valid() && 2 * j + 1 < HASH_SIZE && OffBy(env.expand, s, j, off)
    requires ApplySnapshot(env, name, s, ss, validate).Success?
    ensures Sound(SnapshotMutations(ss.records))
    ensures var after := ApplySnapshot(env, name, s, ss, validate).value.stored;
            OffBy(env.expand, after, j, off + Overwritten(env.expand, s.macs, SnapshotMutations(ss.records), j))
  {
    hide ApplySnapshot, After, Collect, Overwritten, TableSum, Sum, Update, OffBy;
    SnapshotParts(env, name, s, ss, validate);
    var ms := SnapshotMutations(ss.records);
    SnapshotChange(env.expand, s.macs, ms, j);
    UpdateAccount(env.expand, s, ApplySnapshot(env, name, s, ss, validate).value.stored,
                  Collect(Nowhere, s.macs, ms).value, j, off, Overwritten(env.expand, s.macs, ms, j));
  }

  /** The drifts of the patches of a list that are applied. */
  function PatchesDrift(env: Env, name: Bytes, s: Stored, patches: seq<Patch>, validate: bool, j: nat): int
    requires env.Sized() && s.Valid() && 2 * j + 1 < HASH_SIZE
  {
    if patches == [] then 0
    else
      var front, p := patches[..|patches| - 1], patches[|patches| - 1];
      var r := ApplyPatches(env, name, s, front, validate);
      PatchesDrift(env, name, s, front, validate, j)
      + if r.error.None? && ApplyPatch(env, name, r.stored, p, validate).Success? then
          PatchParts(env, name, r.stored, p, validate);
          Drift(env.expand, p.mutations, j)
        else 0
  }

  /** What an applied snapshot overwrites, and the drifts of the patches applied after it. */
  function ListDrift(env: Env, s: Stored, list: PatchList, validate: bool, j: nat): int
    requires env.Sized() && s.Valid() && 2 * j + 1 < HASH_SIZE
  {
    match AfterSnapshot(env, s, list, validate)
    case Failure(_) => 0
    case Success(start) =>
      (match list.snapshot
       case None => 0
       case Some(ss) =>
         SnapshotParts(env, list.name, s, ss, validate);
         Overwritten(env.expand, s.macs, SnapshotMutations(ss.records), j))
      + PatchesDrift(env, list.name, start.stored, list.patches, validate, j)
  }

  function HistoryDrift(env: Env, s: Stored, lists: seq<PatchList>, validate: bool, j: nat): int
    requires env.Sized() && s.Valid() && 2 * j + 1 < HASH_SIZE
  {
    if lists == [] then 0
    else
      var front, list := lists[..|lists| - 1], lists[|lists| - 1];
      HistoryDrift(env, s, front, validate, j) + ListDrift(env, Replay(env, s, front, validate), list, validate, j)
  }

  lemma {:induction false} PatchesAccount(env: Env, name: Bytes, s: Stored, patches: seq<Patch>, validate: bool, j: nat,
                                          off: int)
    requires env.Sized() && s.Valid() && 2 * j + 1 < HASH_SIZE && OffBy(env.expand, s, j, off)
    ensures OffBy(env.expand, ApplyPatches(env, name, s, patches, validate).stored, j,
                  off + PatchesDrift(env, name, s, patches, validate, j))
  {
    hide ApplyPatch, OffBy, Drift;
    if patches != [] {
      var front, p := patches[..|patches| - 1], patches[|patches| - 1];
      PatchesAccount(env, name, s, front, validate, j, off);
      var r := ApplyPatches(env, name, s, front, validate);
      if r.error.None? && ApplyPatch(env, name, r.stored, p, validate).Success? {
        PatchAccount(env, name, r.stored, p, validate, j, off + PatchesDrift(env, name, s, front, validate, j));
      }
    }
  }

  lemma ListAccount(env: Env, s: Stored, list: PatchList, validate: bool, j: nat, off: int)
    requires env.Sized() && s.Valid() && 2 * j + 1 < HASH_SIZE && OffBy(env.expand, s, j, off)
    ensures OffBy(env.expand, ApplyList(env, s, list, validate).stored, j, off + ListDrift(env, s, list, validate, j))
  {
    hide ApplySnapshot, ApplyPatches, OffBy, Overwritten, PatchesDrift, SnapshotMutations;
    match list.snapshot
    case None => PatchesAccount(env, list.name, s, list.patches, validate, j, off);
    case Some(ss) =>
      var r := ApplySnapshot(env, list.name, s, ss, validate);
      if r.Success? {
        SnapshotAccount(env, list.name, s, ss, validate, j, off);
        var more := Overwritten(env.expand, s.macs, SnapshotMutations(ss.records), j);
        PatchesAccount(env, list.name, r.value.stored, list.patches, validate, j, off + more);
      }
  }

  /** For every history of lists, failed ones included, every lane of the stored hash is the sum over the stored table
      plus the drifts of the applied patches and what the applied snapshots overwrote. */
  lemma {:induction false} HistoryAccount(env: Env, s: Stored, lists: seq<PatchList>, validate: bool, j: nat, off: int)
    requires env.Sized() && s.Valid() && 2 * j + 1 < HASH_SIZE && OffBy(env.expand, s, j, off)
    ensures OffBy(env.expand, Replay(env, s, lists, validate), j, off + HistoryDrift(env, s, lists, validate, j))
  {
    hide ApplyList, OffBy, ListDrift;
    if lists != [] {
      var front, list := lists[..|lists| - 1], lists[|lists| - 1];
      HistoryAccount(env, s, front, validate, j, off);
      ListAccount(env, Replay(env, s, front, validate), list, validate, j,
                  off + HistoryDrift(env, s, front, validate, j));
    }
  }

  /** So a history keeps hash and table together exactly when all of that adds up to nothing in every lane. */
  lemma HistoryKeepsHashIff(env: Env, s: Stored, lists: seq<PatchList>, validate: bool)
    requires env.Sized() && s.Valid() && Represents(env.expand, s)
    ensures Represents(env.expand, Replay(env, s, lists, validate))
       <==> forall j: nat :: 2 * j + 1 < HASH_SIZE ==> HistoryDrift(env, s, lists, validate, j) % MODULUS == 0
  {
    hide Replay, TableSum, Lane;
    var after := Replay(env, s, lists, validate);
    if Represents(env.expand, after) {
      forall j: nat | 2 * j + 1 < HASH_SIZE
        ensures HistoryDrift(env, s, lists, validate, j) % MODULUS == 0
      {
        assert OffBy(env.expand, s, j, 0) && OffBy(env.expand, after, j, 0);
        LaneKeptIff(env, s, lists, validate, j);
      }
    } else {
      var j: nat :|
        2 * j + 1 < HASH_SIZE && Lane(after.state.hash, j) != TableSum(env.expand, after.macs, j) % MODULUS;
      assert OffBy(env.expand, s, j, 0) && !OffBy(env.expand, after, j, 0);
      LaneKeptIff(env, s, lists, validate, j);
      assert HistoryDrift(env, s, lists, validate, j) % MODULUS != 0;
    }
  }

  /** The lane is right exactly when it is off by nothing. */
  lemma OffByIff(expand: Expander, s: Stored, j: nat, off: int)
    requires ExpandsTo(expand, HASH_SIZE) && s.Valid() && 2 * j + 1 < HASH_SIZE && OffBy(expand, s, j, off)
    ensures OffBy(expand, s, j, 0) <==> off % MODULUS == 0
  {
    hide TableSum, Lane;
    ModZero(TableSum(expand, s.macs, j), off);
  }

  lemma LaneKeptIff(env: Env, s: Stored, lists: seq<PatchList>, validate: bool, j: nat)
    requires env.Sized() && s.Valid() && 2 * j + 1 < HASH_SIZE && OffBy(env.expand, s, j, 0)
    ensures OffBy(env.expand, Replay(env, s, lists, validate), j, 0)
       <==> HistoryDrift(env, s, lists, validate, j) % MODULUS == 0
  {
    hide Replay, OffBy;
    HistoryAccount(env, s, lists, validate, j, 0);
    OffByIff(env.expand, Replay(env, s, lists, validate), j, HistoryDrift(env, s, lists, validate, j));
  }
}
