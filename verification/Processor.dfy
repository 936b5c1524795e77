/** The app-state processor (appstate/decode.go, appstate/hash.go), step by step over its store. */
module Processors {
  import opened Wrappers
  import opened Bytes
  import opened LtHash
  import opened AppState

  /** `patchOutput`. */
  datatype Output = Output(removed: seq<Bytes>, added: seq<(Bytes, Bytes)>, mutations: seq<Decoded>)

  /** `before` was decoded before `ms` was. */
  ghost predicate Decodes(env: Env, before: seq<Decoded>, ms: seq<Mutation>, validate: bool, r: Result<Output, Error>)
    requires env.Sized()
  {
    match DecodeMutations(env, ms, validate)
    case Failure(e) => r == Failure(e)
    case Success(ds) => r == Success(Output(RemovedMACs(ms), AddedMACs(ms), before + ds))
  }

  /** A successful run applied its snapshot or at least one patch. */
  function Touched(env: Env, s: Stored, list: PatchList, validate: bool): bool
    requires env.Sized() && s.Valid()
  {
    || ApplyList(env, s, list, validate).applied > 0
    || (list.snapshot.Some? && ApplySnapshot(env, list.name, s, list.snapshot.value, validate).Success?)
  }

  lemma {:induction false} FailureStays(env: Env, ms: seq<Mutation>, i: nat, validate: bool)
    requires env.Sized() && i <= |ms| && DecodeMutations(env, ms[..i], validate).Failure?
    ensures DecodeMutations(env, ms, validate) == Failure(DecodeMutations(env, ms[..i], validate).error)
    decreases |ms| - i
  {
    hide DecodeMutation;
    if i == |ms| {
      assert ms[..i] == ms;
    } else {
      assert ms[..i + 1][..i] == ms[..i];
      FailureStays(env, ms, i + 1, validate);
    }
  }

  lemma {:induction false} CollectFailureStays(lookup: Lookup, macs: Table, ms: seq<Mutation>, i: nat)
    requires i <= |ms| && Collect(lookup, macs, ms[..i]).Failure?
    ensures Collect(lookup, macs, ms) == Failure(Fault)
    decreases |ms| - i
  {
    if i == |ms| {
      assert ms[..i] == ms;
      CollectFault(lookup, macs, ms);
    } else {
      assert ms[..i + 1][..i] == ms[..i];
      CollectFailureStays(lookup, macs, ms, i + 1);
    }
  }

  lemma {:induction false} CollectFault(lookup: Lookup, macs: Table, ms: seq<Mutation>)
    ensures Collect(lookup, macs, ms).Failure? ==> Collect(lookup, macs, ms) == Failure(Fault)
  {
    if ms != [] {
      CollectFault(lookup, macs, ms[..|ms| - 1]);
    }
  }

  lemma {:induction false} RunFailureStays(env: Env, name: Bytes, s: Stored, patches: seq<Patch>, i: nat, validate: bool)
    requires env.Sized() && s.Valid() && i <= |patches|
    requires ApplyPatches(env, name, s, patches[..i], validate).error.Some?
    ensures ApplyPatches(env, name, s, patches, validate) == ApplyPatches(env, name, s, patches[..i], validate)
    decreases |patches| - i
  {
    hide ApplyPatch;
    if i == |patches| {
      assert patches[..i] == patches;
    } else {
      assert patches[..i + 1][..i] == patches[..i];
      RunFailureStays(env, name, s, patches, i + 1, validate);
    }
  }

  lemma RunStep(env: Env, name: Bytes, s: Stored, patches: seq<Patch>, i: nat, validate: bool)
    requires env.Sized() && s.Valid() && i < |patches|
    requires ApplyPatches(env, name, s, patches[..i], validate).error.None?
    ensures var r := ApplyPatches(env, name, s, patches[..i], validate);
            ApplyPatches(env, name, s, patches[..i + 1], validate)
            == match ApplyPatch(env, name, r.stored, patches[i], validate)
               case Failure(e) => r.(error := Some(e))
               case Success(a) => Run(a.stored, r.applied + 1, r.mutations + a.mutations, None)
  {
    hide ApplyPatch;
    assert patches[..i + 1][..i] == patches[..i];
  }

  lemma RunStart(env: Env, name: Bytes, s: Stored, patches: seq<Patch>, validate: bool)
    requires env.Sized() && s.Valid()
    ensures ApplyPatches(env, name, s, patches[..0], validate) == Run(s, 0, [], None)
    ensures patches[..|patches|] == patches
  {
  }

  lemma Associate<T>(a: seq<T>, b: seq<T>, c: seq<T>)
    ensures a + b + c == a + (b + c) && a + [] == a
  {
  }

  class Processor {
    const env: Env
    // The app-state store, for one patch name.
    var version: Version
    var hash: Bytes
    var macs: Table

    constructor (env: Env, version: Version, hash: Bytes, macs: Table)
      ensures this.env == env && this.version == version && this.hash == hash && this.macs == macs
    {
      this.env := env;
      this.version := version;
      this.hash := hash;
      this.macs := macs;
    }

    /** The callback that looks for the value MAC a mutation replaces: backwards through the patch, then the store. */
    method GetPrevious(lookup: Lookup, ms: seq<Mutation>, maxIndex: nat, index: Bytes) returns (p: Previous)
      requires maxIndex <= |ms|
      ensures p == FindPrevious(lookup, macs, ms[..maxIndex], index)
    {
      if lookup == Nowhere {
        return Absent;
      }
      if lookup == PatchThenStore {
        var i := maxIndex;
        while i > 0
          invariant 0 <= i <= maxIndex
          invariant FindPrevious(lookup, macs, ms[..maxIndex], index) == FindPrevious(lookup, macs, ms[..i], index)
        {
          i := i - 1;
          assert ms[..i + 1][..i] == ms[..i];
          if ms[i].index == index {
            if |ms[i].blob| < MAC_SIZE {
              return TooShort;
            }
            return Present(ValueMAC(ms[i].blob));
          }
        }
      }
      p := if index in macs then Present(macs[index]) else Absent;
    }

    /** Overwrites the hash in place; on a fault it is left as it was. */
    method UpdateHash(lookup: Lookup, hash: array<Byte>, ms: seq<Mutation>) returns (err: Option<Error>)
      requires env.Sized() && hash.Length == HASH_SIZE
      modifies hash
      ensures match AppState.UpdateHash(env, lookup, macs, old(hash[..]), ms)
        case Success(h) => err == None && hash[..] == h
        case Failure(e) => err == Some(e) && hash[..] == old(hash[..])
    {
      hide Update;
      var added, removed: seq<Bytes> := [], [];
      for i := 0 to |ms|
        invariant hash[..] == old(hash[..])
        invariant Collect(lookup, macs, ms[..i]) == Success(Lists(removed, added))
      {
        var m := ms[i];
        assert ms[..i + 1][..i] == ms[..i];
        if m.op == SET {
          if |m.blob| < MAC_SIZE {
            CollectFailureStays(lookup, macs, ms, i + 1);
            return Some(Fault);
          }
          added := added + [ValueMAC(m.blob)];
        }
        var removal := GetPrevious(lookup, ms, i, m.index);
        if removal.TooShort? {
          CollectFailureStays(lookup, macs, ms, i + 1);
          return Some(Fault);
        }
        if removal.Present? {
          removed := removed + [removal.mac];
        }
      }
      assert ms[..|ms|] == ms;
      SubtractThenAddInPlace(env.expand, hash, removed, added);
      err := None;
    }

    method DecodeMutations(ms: seq<Mutation>, before: seq<Decoded>, validate: bool) returns (r: Result<Output, Error>)
      requires env.Sized()
      ensures Decodes(env, before, ms, validate, r)
    {
      hide DecodeMutation;
      var removed: seq<Bytes> := [];
      var added: seq<(Bytes, Bytes)> := [];
      var mutations := before;
      assert before + [] == before;
      for i := 0 to |ms|
        invariant Decodes(env, before, ms[..i], validate, Success(Output(removed, added, mutations)))
      {
        assert ms[..i + 1][..i] == ms[..i];
        var d := DecodeMutation(env, ms[i], validate);
        if d.Failure? {
          FailureStays(env, ms, i + 1, validate);
          return Failure(d.error);
        }
        if d.value.op == REMOVE {
          removed := removed + [d.value.indexMAC];
        } else {
          added := added + [(d.value.indexMAC, d.value.valueMAC)];
        }
        ghost var ds := AppState.DecodeMutations(env, ms[..i], validate).value;
        assert before + ds + [d.value] == before + (ds + [d.value]);
        mutations := mutations + [d.value];
      }
      assert ms[..|ms|] == ms;
      r := Success(Output(removed, added, mutations));
    }

    method StoreMACs(version: Version, hash: array<Byte>, out: Output)
      modifies this
      ensures this.version == version && this.hash == hash[..]
      ensures macs == PutMACs(DeleteMACs(old(macs), out.removed), out.added)
    {
      this.version := version;
      this.hash := hash[..];
      macs := DeleteMACs(macs, out.removed);
      ghost var deleted := macs;
      for i := 0 to |out.added|
        invariant this.version == version && this.hash == hash[..]
        invariant macs == PutMACs(deleted, out.added[..i])
      {
        assert out.added[..i + 1][..i] == out.added[..i];
        macs := macs[out.added[i].0 := out.added[i].1];
      }
      assert out.added[..|out.added|] == out.added;
    }

    /** `hash` is the hash of the current state, which is overwritten in place. */
    method DecodeSnapshot(name: Bytes, ss: Snapshot, hash: array<Byte>, validate: bool)
      returns (r: Result<seq<Decoded>, Error>)
      requires env.Sized() && hash.Length == HASH_SIZE
      modifies this, hash
      ensures match ApplySnapshot(env, name, Stored(HashState(0, old(hash[..])), old(macs)), ss, validate)
        case Failure(e) =>
          r == Failure(e) && version == old(version) && this.hash == old(this.hash) && macs == old(macs)
        case Success(a) =>
          r == Success(a.mutations) && a.stored == Stored(HashState(version, this.hash), macs) && hash[..] == this.hash
    {
      hide CheckSnapshotMAC, AppState.DecodeMutations, AppState.UpdateHash, PutMACs, DeleteMACs;
      var ms := SnapshotMutations(ss.records);
      var err := UpdateHash(Nowhere, hash, ms);
      if err.Some? {
        return Failure(err.value);
      }
      if validate {
        var check := CheckSnapshotMAC(env, name, HashState(ss.version, hash[..]), ss.keyID, ss.mac);
        if check.Failure? {
          return Failure(check.error);
        }
      }
      var out := DecodeMutations(ms, [], validate);
      if out.Failure? {
        return Failure(out.error);
      }
      StoreMACs(ss.version, hash, out.value);
      assert [] + AppState.DecodeMutations(env, ms, validate).value == AppState.DecodeMutations(env, ms, validate).value;
      r := Success(out.value.mutations);
    }

    /** The body of the patch loop of `DecodePatches`. */
    method DecodePatch(name: Bytes, p: Patch, hash: array<Byte>, before: seq<Decoded>, validate: bool)
      returns (r: Result<seq<Decoded>, Error>)
      requires env.Sized() && hash.Length == HASH_SIZE
      modifies this, hash
      ensures match ApplyPatch(env, name, Stored(HashState(0, old(hash[..])), old(macs)), p, validate)
        case Failure(e) =>
          r == Failure(e) && version == old(version) && this.hash == old(this.hash) && macs == old(macs)
        case Success(a) =>
          && r == Success(before + a.mutations)
          && a.stored == Stored(HashState(version, this.hash), macs) && hash[..] == this.hash
    {
      hide CheckPatchMACs, AppState.DecodeMutations, AppState.UpdateHash, PutMACs, DeleteMACs;
      var err := UpdateHash(PatchThenStore, hash, p.mutations);
      if err.Some? {
        return Failure(err.value);
      }
      if validate {
        var check := CheckPatchMACs(env, name, HashState(p.version, hash[..]), p);
        if check.Failure? {
          return Failure(check.error);
        }
      }
      var out := DecodeMutations(p.mutations, before, validate);
      if out.Failure? {
        return Failure(out.error);
      }
      StoreMACs(p.version, hash, out.value);
      r := Success(out.value.mutations);
    }

    /** Started from `initialState`, which callers read from the store. */
    method DecodePatches(list: PatchList, initialState: HashState, validate: bool)
      returns (mutations: seq<Decoded>, state: HashState, err: Option<Error>)
      requires env.Sized() && |initialState.hash| == HASH_SIZE
      modifies this
      ensures
        var s := Stored(initialState, old(macs));
        var run := ApplyList(env, s, list, validate);
        && mutations == run.mutations && err == run.error && macs == run.stored.macs
        && (err.None? ==> state == run.stored.state)
        && (if Touched(env, s, list, validate) then HashState(version, hash) == run.stored.state
            else version == old(version) && hash == old(hash))
    {
      hide ApplySnapshot, ApplyPatch, ApplyPatches;
      var current := new Byte[HASH_SIZE](i requires 0 <= i < HASH_SIZE => initialState.hash[i]);
      assert current[..] == initialState.hash;
      state := initialState;
      mutations := [];
      ghost var s := Stored(initialState, macs);
      ghost var start := s;
      if list.snapshot.Some? {
        VersionUnusedBySnapshot(env, list.name, s, list.snapshot.value, validate);
        var r := DecodeSnapshot(list.name, list.snapshot.value, current, validate);
        if r.Failure? {
          return [], state, Some(r.error);
        }
        mutations := r.value;
        state := HashState(version, hash);
        start := Stored(state, macs);
      }
      ghost var first := mutations;
      RunStart(env, list.name, start, list.patches, validate);
      Associate(first, [], []);
      for i := 0 to |list.patches|
        invariant current[..] == state.hash && |state.hash| == HASH_SIZE
        invariant ApplyPatches(env, list.name, start, list.patches[..i], validate).error.None?
        invariant ApplyPatches(env, list.name, start, list.patches[..i], validate).stored == Stored(state, macs)
        invariant mutations == first + ApplyPatches(env, list.name, start, list.patches[..i], validate).mutations
        invariant if i > 0 || list.snapshot.Some? then HashState(version, hash) == state
                  else version == old(version) && hash == old(hash)
      {
        ghost var before := ApplyPatches(env, list.name, start, list.patches[..i], validate).mutations;
        RunStep(env, list.name, start, list.patches, i, validate);
        VersionUnused(env, list.name, Stored(state, macs), list.patches[i], validate);
        ghost var applied := ApplyPatch(env, list.name, Stored(state, macs), list.patches[i], validate);
        var r := DecodePatch(list.name, list.patches[i], current, mutations, validate);
        if r.Failure? {
          RunFailureStays(env, list.name, start, list.patches, i + 1, validate);
          return mutations, state, Some(r.error);
        }
        Associate(first, before, applied.value.mutations);
        mutations := r.value;
        state := HashState(version, hash);
      }
      err := None;
    }
  }

  /** The version that was stored before plays no part. */
  lemma VersionUnused(env: Env, name: Bytes, s: Stored, p: Patch, validate: bool)
    requires env.Sized() && s.Valid()
    ensures ApplyPatch(env, name, s, p, validate)
         == ApplyPatch(env, name, s.(state := HashState(0, s.state.hash)), p, validate)
  {
  }

  lemma VersionUnusedBySnapshot(env: Env, name: Bytes, s: Stored, ss: Snapshot, validate: bool)
    requires env.Sized() && s.Valid()
    ensures ApplySnapshot(env, name, s, ss, validate)
         == ApplySnapshot(env, name, s.(state := HashState(0, s.state.hash)), ss, validate)
  {
  }
}
