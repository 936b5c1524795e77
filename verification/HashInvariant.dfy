/**
 The incremental hash against the stored table: how far the hash moves away from the sum over the table when a
 patch is applied, and that nothing else moves it.
 */
module HashInvariant {
  import opened Wrappers
  import opened Bytes
  import opened LtHash
  import opened AppState

  // ---- The sum over a table ----

  /** Lane `j` of the plain sum of the expanded value MACs of all indexes in the table. */
  ghost function TableSum(expand: Expander, macs: Table, j: nat): int
    requires forall item :: 2 * j + 1 < |expand(item)|
    decreases |macs|
  {
    if macs == map[] then 0
    else Lane(expand(macs[SomeKey(macs)]), j) + TableSum(expand, macs - {SomeKey(macs)}, j)
  }

  ghost function SomeKey(macs: Table): (k: Bytes)
    requires macs != map[]
    ensures k in macs
  {
    assert macs.Keys != {};
    var k :| k in macs;
    k
  }

  ghost function Contribution(expand: Expander, macs: Table, k: Bytes, j: nat): int
    requires forall item :: 2 * j + 1 < |expand(item)|
  {
    if k in macs then Lane(expand(macs[k]), j) else 0
  }

  lemma {:induction false} TableSumWithout(expand: Expander, macs: Table, k: Bytes, j: nat)
    requires forall item :: 2 * j + 1 < |expand(item)|
    ensures TableSum(expand, macs, j) == TableSum(expand, macs - {k}, j) + Contribution(expand, macs, k, j)
    decreases |macs|
  {
    if k !in macs {
      assert macs - {k} == macs;
    } else {
      var first := SomeKey(macs);
      if first != k {
        TableSumWithout(expand, macs - {first}, k, j);
        TableSumWithout(expand, macs - {k}, first, j);
        assert macs - {first} - {k} == macs - {k} - {first};
      }
    }
  }

  lemma TableSumPut(expand: Expander, macs: Table, k: Bytes, mac: Bytes, j: nat)
    requires forall item :: 2 * j + 1 < |expand(item)|
    ensures TableSum(expand, macs[k := mac], j)
         == TableSum(expand, macs, j) - Contribution(expand, macs, k, j) + Lane(expand(mac), j)
  {
    TableSumWithout(expand, macs, k, j);
    TableSumWithout(expand, macs[k := mac], k, j);
    assert macs[k := mac] - {k} == macs - {k};
  }

  /** The stored hash is the lane-wise sum over the stored table. */
  ghost predicate Represents(expand: Expander, s: Stored)
    requires ExpandsTo(expand, HASH_SIZE) && s.Valid()
  {
    forall j: nat :: 2 * j + 1 < HASH_SIZE ==>
      Lane(s.state.hash, j) == TableSum(expand, s.macs, j) % MODULUS
  }

  /** So the hash, and with it the snapshot MAC, is determined by the table: the way to it does not matter. */
  lemma SameTableSameHash(expand: Expander, a: Stored, b: Stored)
    requires ExpandsTo(expand, HASH_SIZE) && a.Valid() && b.Valid()
    requires Represents(expand, a) && Represents(expand, b) && a.macs == b.macs
    ensures a.state.hash == b.state.hash
    ensures a.state.version == b.state.version ==>
              forall env: Env, name, key :: SnapshotMAC(env, a.state, name, key) == SnapshotMAC(env, b.state, name, key)
  {
    LanesDetermine(a.state.hash, b.state.hash);
  }

  // ---- One mutation after another ----

  /** The last earlier mutation of an index, and the last one that sets it. */
  function LastMention(before: seq<Mutation>, index: Bytes): Option<Mutation> {
    if before == [] then None
    else if before[|before| - 1].index == index then Some(before[|before| - 1])
    else LastMention(before[..|before| - 1], index)
  }

  function LastSet(before: seq<Mutation>, index: Bytes): Option<Mutation> {
    if before == [] then None
    else if before[|before| - 1].index == index && before[|before| - 1].op == SET then Some(before[|before| - 1])
    else LastSet(before[..|before| - 1], index)
  }

  predicate Sound(ms: seq<Mutation>) {
    forall m :: m in ms ==> |m.blob| >= MAC_SIZE
  }

  lemma SoundPrefix(ms: seq<Mutation>)
    requires Sound(ms) && ms != []
    ensures Sound(ms[..|ms| - 1]) && |ms[|ms| - 1].blob| >= MAC_SIZE
  {
  }

  /** The table holds what the last SET put there; an index that was only removed is gone; others are untouched. */
  lemma {:induction false} AfterLookup(macs: Table, ms: seq<Mutation>, index: Bytes)
    requires Sound(ms)
    ensures LastSet(ms, index).Some? ==>
              |LastSet(ms, index).value.blob| >= MAC_SIZE &&
              index in After(macs, ms) && After(macs, ms)[index] == ValueMAC(LastSet(ms, index).value.blob)
    ensures LastSet(ms, index).None? && LastMention(ms, index).Some? ==> index !in After(macs, ms)
    ensures LastMention(ms, index).None? ==>
              (index in After(macs, ms) <==> index in macs) && (index in macs ==> After(macs, ms)[index] == macs[index])
  {
    if ms != [] {
      SoundPrefix(ms);
      AfterLookup(macs, ms[..|ms| - 1], index);
      AfterStep(macs, ms);
    } else {
      assert After(macs, []) == macs;
    }
  }

  lemma {:induction false} DeleteBeforePut(macs: Table, removed: set<Bytes>, added: seq<(Bytes, Bytes)>, x: Bytes)
    ensures PutMACs(macs - (removed + {x}), added)
         == if exists p :: p in added && p.0 == x then PutMACs(macs - removed, added)
            else PutMACs(macs - removed, added) - {x}
  {
    if added == [] {
      assert macs - (removed + {x}) == macs - removed - {x};
    } else {
      var front, last := added[..|added| - 1], added[|added| - 1];
      assert added == front + [last];
      DeleteBeforePut(macs, removed, front, x);
      if last.0 == x {
        assert last in added;
        assert PutMACs(macs - (removed + {x}), front)[x := last.1] == PutMACs(macs - removed, front)[x := last.1];
      } else {
        assert (exists p :: p in added && p.0 == x) <==> exists p :: p in front && p.0 == x;
      }
    }
  }

  lemma {:induction false} AddedIsSet(ms: seq<Mutation>, index: Bytes)
    requires Sound(ms)
    ensures (exists p :: p in AddedMACs(ms) && p.0 == index) <==> LastSet(ms, index).Some?
  {
    if ms != [] {
      SoundPrefix(ms);
      AddedIsSet(ms[..|ms| - 1], index);
      if ms[|ms| - 1].op == SET {
        var p := (ms[|ms| - 1].index, ValueMAC(ms[|ms| - 1].blob));
        assert p in AddedMACs(ms);
      }
    }
  }

  /** What the last mutation of a patch does to the table. */
  lemma AfterStep(macs: Table, ms: seq<Mutation>)
    requires Sound(ms) && ms != []
    ensures Sound(ms[..|ms| - 1]) && |ms[|ms| - 1].blob| >= MAC_SIZE
    ensures var before, m := ms[..|ms| - 1], ms[|ms| - 1];
            After(macs, ms) == if m.op == SET then After(macs, before)[m.index := ValueMAC(m.blob)]
                               else if LastSet(before, m.index).Some? then After(macs, before)
                               else After(macs, before) - {m.index}
  {
    SoundPrefix(ms);
    var before, m := ms[..|ms| - 1], ms[|ms| - 1];
    if m.op == REMOVE {
      var removed := set i | i in RemovedMACs(before);
      assert (set i | i in RemovedMACs(ms)) == removed + {m.index};
      DeleteBeforePut(macs, removed, AddedMACs(before), m.index);
      AddedIsSet(before, m.index);
    }
  }

  // ---- The drift of a patch ----

  function BlobLane(expand: Expander, m: Mutation, j: nat): int
    requires |m.blob| >= MAC_SIZE && forall item :: 2 * j + 1 < |expand(item)|
  {
    Lane(expand(ValueMAC(m.blob)), j)
  }

  /**
   How far one mutation moves the hash away from the table. A mutation subtracts the value MAC of the previous
   mention of its index, whether that was a SET or a REMOVE, while in the table a REMOVE only undoes what was
   stored before the patch.
   */
  function DriftStep(expand: Expander, before: seq<Mutation>, m: Mutation, j: nat): int
    requires Sound(before) && forall item :: 2 * j + 1 < |expand(item)|
  {
    LastSound(before, m.index);
    match LastMention(before, m.index)
    case None => 0
    case Some(previous) =>
      if m.op == REMOVE then -BlobLane(expand, previous, j)
      else if previous.op == SET then 0
      else match LastSet(before, m.index)
        case None => -BlobLane(expand, previous, j)
        case Some(stored) => BlobLane(expand, stored, j) - BlobLane(expand, previous, j)
  }

  lemma {:induction false} LastSound(before: seq<Mutation>, index: Bytes)
    requires Sound(before)
    ensures LastMention(before, index).Some? ==> |LastMention(before, index).value.blob| >= MAC_SIZE
                                                 && LastMention(before, index).value in before
    ensures LastSet(before, index).Some? ==> |LastSet(before, index).value.blob| >= MAC_SIZE
    ensures LastMention(before, index).Some? && LastMention(before, index).value.op == SET ==>
              LastSet(before, index) == LastMention(before, index)
    ensures LastMention(before, index).None? ==> LastSet(before, index).None?
  {
    if before != [] {
      LastSound(before[..|before| - 1], index);
    }
  }

  /** The drift of a whole patch, computed from the patch alone. */
  function Drift(expand: Expander, ms: seq<Mutation>, j: nat): int
    requires Sound(ms) && forall item :: 2 * j + 1 < |expand(item)|
  {
    if ms == [] then 0
    else Drift(expand, ms[..|ms| - 1], j) + DriftStep(expand, ms[..|ms| - 1], ms[|ms| - 1], j)
  }

  lemma {:induction false} PreviousIsLastMention(macs: Table, before: seq<Mutation>, index: Bytes)
    requires Sound(before)
    ensures LastMention(before, index).Some? ==> |LastMention(before, index).value.blob| >= MAC_SIZE
    ensures FindPrevious(PatchThenStore, macs, before, index)
         == match LastMention(before, index)
            case Some(m) => Present(ValueMAC(m.blob))
            case None => if index in macs then Present(macs[index]) else Absent
  {
    if before != [] {
      PreviousIsLastMention(macs, before[..|before| - 1], index);
    }
  }

  ghost function PreviousLane(expand: Expander, previous: Previous, j: nat): int
    requires forall item :: 2 * j + 1 < |expand(item)|
  {
    if previous.Present? then Lane(expand(previous.mac), j) else 0
  }

  lemma CollectStep(expand: Expander, lookup: Lookup, macs: Table, ms: seq<Mutation>, j: nat)
    requires forall item :: 2 * j + 1 < |expand(item)|
    requires ms != [] && Sound(ms) && Collect(lookup, macs, ms).Success?
    ensures var before, m := ms[..|ms| - 1], ms[|ms| - 1];
            && Collect(lookup, macs, before).Success? && |m.blob| >= MAC_SIZE
            && var lists, next := Collect(lookup, macs, before).value, Collect(lookup, macs, ms).value;
               && Sum(expand, next.added, j)
                  == Sum(expand, lists.added, j) + (if m.op == SET then BlobLane(expand, m, j) else 0)
               && Sum(expand, next.removed, j)
                  == Sum(expand, lists.removed, j) + PreviousLane(expand, FindPrevious(lookup, macs, before, m.index), j)
  {
    hide Sum, FindPrevious, ValueMAC;
    SoundPrefix(ms);
    var before, m := ms[..|ms| - 1], ms[|ms| - 1];
    var lists := Collect(lookup, macs, before).value;
    SumPush(expand, lists.added, ValueMAC(m.blob), j);
    match FindPrevious(lookup, macs, before, m.index)
    case Present(mac) => SumPush(expand, lists.removed, mac, j);
    case _ =>
  }

  /** The change of the hash is the change of the table sum plus the drift: an exact account, for every patch. */
  lemma {:induction false} HashChange(expand: Expander, macs: Table, ms: seq<Mutation>, j: nat)
    requires forall item :: 2 * j + 1 < |expand(item)|
    requires Sound(ms) && Collect(PatchThenStore, macs, ms).Success?
    ensures var lists := Collect(PatchThenStore, macs, ms).value;
            Sum(expand, lists.added, j) - Sum(expand, lists.removed, j)
            == TableSum(expand, After(macs, ms), j) - TableSum(expand, macs, j) + Drift(expand, ms, j)
  {
    if ms == [] {
      assert After(macs, ms) == macs;
    } else {
      var before, m := ms[..|ms| - 1], ms[|ms| - 1];
      CollectStep(expand, PatchThenStore, macs, ms, j);
      SoundPrefix(ms);
      HashChange(expand, macs, before, j);
      TableChange(expand, macs, ms, j);
    }
  }

  lemma TableChange(expand: Expander, macs: Table, ms: seq<Mutation>, j: nat)
    requires forall item :: 2 * j + 1 < |expand(item)|
    requires Sound(ms) && ms != []
    ensures Sound(ms[..|ms| - 1]) && |ms[|ms| - 1].blob| >= MAC_SIZE
    ensures var before, m := ms[..|ms| - 1], ms[|ms| - 1];
            TableSum(expand, After(macs, ms), j) - TableSum(expand, After(macs, before), j)
            == (if m.op == SET then BlobLane(expand, m, j) else 0)
               - PreviousLane(expand, FindPrevious(PatchThenStore, macs, before, m.index), j)
               - DriftStep(expand, before, m, j)
  {
    var before, m := ms[..|ms| - 1], ms[|ms| - 1];
    AfterStep(macs, ms);
    AfterLookup(macs, before, m.index);
    LastSound(before, m.index);
    PreviousIsLastMention(macs, before, m.index);
    hide After, LastMention, LastSet, FindPrevious, TableSum;
    if m.op == SET {
      TableSumPut(expand, After(macs, before), m.index, ValueMAC(m.blob), j);
    } else {
      TableSumWithout(expand, After(macs, before), m.index, j);
    }
  }

  lemma HashMod(h: int, before: int, removed: int, added: int, after: int, drift: int)
    requires h == before % MODULUS && added - removed == after - before + drift
    ensures (h - removed + added) % MODULUS == (after + drift) % MODULUS
  {
  }

  lemma PatchParts(env: Env, name: Bytes, s: Stored, p: Patch, validate: bool)
    requires env.Sized() && s.Valid() && ApplyPatch(env, name, s, p, validate).Success?
    ensures Sound(p.mutations) && Collect(PatchThenStore, s.macs, p.mutations).Success?
    ensures var after := ApplyPatch(env, name, s, p, validate).value.stored;
            var lists := Collect(PatchThenStore, s.macs, p.mutations).value;
            && after.macs == After(s.macs, p.mutations)
            && after.state.version == p.version
            && after.state.hash == Update(env.expand, s.state.hash, lists.removed, lists.added)
  {
    hide CheckPatchMACs, After, Update, Collect;
  }

  /** The hash is the sum over the table, off by exactly the drift of `ms`, in every lane. */
  ghost predicate OffByDrift(expand: Expander, s: Stored, ms: seq<Mutation>)
    requires ExpandsTo(expand, HASH_SIZE) && s.Valid() && Sound(ms)
  {
    forall j: nat :: 2 * j + 1 < HASH_SIZE ==>
      Lane(s.state.hash, j) == (TableSum(expand, s.macs, j) + Drift(expand, ms, j)) % MODULUS
  }

  lemma UpdateOffByDrift(expand: Expander, s: Stored, ms: seq<Mutation>, after: Stored)
    requires ExpandsTo(expand, HASH_SIZE) && s.Valid() && Represents(expand, s) && after.Valid()
    requires Sound(ms) && Collect(PatchThenStore, s.macs, ms).Success? && after.macs == After(s.macs, ms)
    requires var lists := Collect(PatchThenStore, s.macs, ms).value;
             after.state.hash == Update(expand, s.state.hash, lists.removed, lists.added)
    ensures OffByDrift(expand, after, ms)
  {
    hide After, Update, Collect, Drift, TableSum;
    var lists := Collect(PatchThenStore, s.macs, ms).value;
    forall j: nat | 2 * j + 1 < HASH_SIZE
      ensures Lane(after.state.hash, j) == (TableSum(expand, after.macs, j) + Drift(expand, ms, j)) % MODULUS
    {
      HashChange(expand, s.macs, ms, j);
      HashMod(Lane(s.state.hash, j), TableSum(expand, s.macs, j), Sum(expand, lists.removed, j),
              Sum(expand, lists.added, j), TableSum(expand, after.macs, j), Drift(expand, ms, j));
    }
  }

  /** After any successful patch the hash is the sum over the new table, off by exactly the drift of the patch. */
  lemma PatchHash(env: Env, name: Bytes, s: Stored, p: Patch, validate: bool)
    requires env.Sized() && s.Valid() && Represents(env.expand, s)
    requires ApplyPatch(env, name, s, p, validate).Success?
    ensures Sound(p.mutations)
    ensures OffByDrift(env.expand, ApplyPatch(env, name, s, p, validate).value.stored, p.mutations)
  {
    hide ApplyPatch, After, Update, Collect, OffByDrift, Represents;
    PatchParts(env, name, s, p, validate);
    UpdateOffByDrift(env.expand, s, p.mutations, ApplyPatch(env, name, s, p, validate).value.stored);
  }

  lemma ModZero(a: int, b: int)
    ensures (a + b) % MODULUS == a % MODULUS <==> b % MODULUS == 0
  {
  }

  lemma OffByNothing(expand: Expander, s: Stored, ms: seq<Mutation>)
    requires ExpandsTo(expand, HASH_SIZE) && s.Valid() && Sound(ms) && OffByDrift(expand, s, ms)
    ensures Represents(expand, s) <==> forall j: nat :: 2 * j + 1 < HASH_SIZE ==> Drift(expand, ms, j) % MODULUS == 0
  {
    hide Drift, TableSum;
    if Represents(expand, s) {
      forall j: nat | 2 * j + 1 < HASH_SIZE
        ensures Drift(expand, ms, j) % MODULUS == 0
      {
        assert Lane(s.state.hash, j) == TableSum(expand, s.macs, j) % MODULUS;
        ModZero(TableSum(expand, s.macs, j), Drift(expand, ms, j));
      }
    } else {
      var j: nat :| 2 * j + 1 < HASH_SIZE && Lane(s.state.hash, j) != TableSum(expand, s.macs, j) % MODULUS;
      ModZero(TableSum(expand, s.macs, j), Drift(expand, ms, j));
      assert Drift(expand, ms, j) % MODULUS != 0;
    }
  }

  /** A patch keeps the hash equal to the sum over the table exactly when its drift vanishes in every lane. */
  lemma PatchKeepsHashIff(env: Env, name: Bytes, s: Stored, p: Patch, validate: bool)
    requires env.Sized() && s.Valid() && Represents(env.expand, s)
    requires ApplyPatch(env, name, s, p, validate).Success?
    ensures Sound(p.mutations)
    ensures Represents(env.expand, ApplyPatch(env, name, s, p, validate).value.stored)
       <==> forall j: nat :: 2 * j + 1 < HASH_SIZE ==> Drift(env.expand, p.mutations, j) % MODULUS == 0
  {
    hide ApplyPatch, Drift, OffByDrift, Represents;
    PatchHash(env, name, s, p, validate);
    OffByNothing(env.expand, ApplyPatch(env, name, s, p, validate).value.stored, p.mutations);
  }

  // ---- Which patches have no drift ----

  /** No index that a patch removes is mentioned twice in it. */
  predicate RemovedOnce(ms: seq<Mutation>) {
    forall i, k :: 0 <= i < k < |ms| && ms[i].index == ms[k].index ==> ms[i].op == SET && ms[k].op == SET
  }

  lemma {:induction false} LastMentionAt(before: seq<Mutation>, index: Bytes) returns (i: nat)
    requires LastMention(before, index).Some?
    ensures i < |before| && LastMention(before, index).value == before[i] && before[i].index == index
    ensures forall k :: i < k < |before| ==> before[k].index != index
  {
    if before[|before| - 1].index == index {
      i := |before| - 1;
    } else {
      i := LastMentionAt(before[..|before| - 1], index);
    }
  }

  lemma {:induction false} NoMention(before: seq<Mutation>, index: Bytes, i: nat)
    requires LastMention(before, index).None? && i < |before|
    ensures before[i].index != index
  {
    if i < |before| - 1 {
      NoMention(before[..|before| - 1], index, i);
    }
  }

  lemma {:induction false} NoDrift(expand: Expander, ms: seq<Mutation>, j: nat)
    requires forall item :: 2 * j + 1 < |expand(item)|
    requires Sound(ms) && RemovedOnce(ms)
    ensures Drift(expand, ms, j) == 0
  {
    if ms != [] {
      SoundPrefix(ms);
      var before, m := ms[..|ms| - 1], ms[|ms| - 1];
      NoDrift(expand, before, j);
      if LastMention(before, m.index).Some? {
        var i := LastMentionAt(before, m.index);
        assert ms[i] == before[i];
      }
    }
  }
}
