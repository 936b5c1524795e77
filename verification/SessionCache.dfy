/**
 The write-back cache of Signal sessions (store/sessioncache.go, store/signal.go): sessions are prefetched, used and
 changed in the cache, and written back at the end. To its one user it behaves like the store itself.
 */
module SessionCache {
  import opened Wrappers
  import opened Bytes

  /** A session record, known to this part of the program only through its serialised form. */
  datatype Session = Session(state: Bytes)

  datatype Serializer = Serializer(
    serialize: Session -> Bytes,
    deserialize: Bytes -> Option<Session>,
    newSession: Session
  ) {
    ghost predicate Inverts() {
      forall s :: deserialize(serialize(s)) == Some(s)
    }
  }

  datatype Entry = Entry(dirty: bool, found: bool, record: Session)

  type Store = map<Bytes, Bytes>
  type Entries = map<Bytes, Entry>

  // ---- What the operations compute ----

  /** A load, straight from the store; none if the stored bytes cannot be read. */
  function LoadFromStore(z: Serializer, store: Store, addr: Bytes): Option<Session> {
    if addr in store then z.deserialize(store[addr]) else Some(z.newSession)
  }

  /** A load with the cache in front; without a cache, the store alone. */
  function Load(z: Serializer, store: Store, cache: Option<Entries>, addr: Bytes): Option<Session> {
    if cache.Some? && addr in cache.value then Some(cache.value[addr].record) else LoadFromStore(z, store, addr)
  }

  /** The sessions of the wanted addresses that can be read; absent ones as new sessions. */
  function Prefetch(z: Serializer, store: Store, addresses: set<Bytes>): Entries {
    map addr | addr in addresses && LoadFromStore(z, store, addr).Some? ::
      Entry(false, addr in store, LoadFromStore(z, store, addr).value)
  }

  /** The serialised dirty sessions among some of the cached addresses. */
  function DirtyOf(z: Serializer, cache: Entries, addresses: set<Bytes>): Store {
    map addr | addr in addresses && addr in cache && cache[addr].dirty :: z.serialize(cache[addr].record)
  }

  function Dirty(z: Serializer, cache: Entries): Store {
    DirtyOf(z, cache, cache.Keys)
  }

  function Existing(store: Store, cache: Entries): map<Bytes, bool> {
    map addr | addr in cache :: addr in store
  }

  lemma PrefetchStep(z: Serializer, store: Store, done: set<Bytes>, addr: Bytes)
    ensures var before, after := Prefetch(z, store, done), Prefetch(z, store, done + {addr});
            match LoadFromStore(z, store, addr)
            case None => addr !in done ==> after == before
            case Some(record) =>
              && after == before[addr := Entry(false, addr in store, record)]
              && Existing(store, after) == Existing(store, before)[addr := addr in store]
  {
    hide LoadFromStore;
  }

  lemma PrefetchNothing(z: Serializer, store: Store)
    ensures Prefetch(z, store, {}) == map[] && Existing(store, map[]) == map[]
  {
  }

  lemma DirtyStep(z: Serializer, cache: Entries, done: set<Bytes>, addr: Bytes)
    requires addr in cache && addr !in done
    ensures DirtyOf(z, cache, done + {addr})
         == if cache[addr].dirty then DirtyOf(z, cache, done)[addr := z.serialize(cache[addr].record)]
            else DirtyOf(z, cache, done)
  {
  }

  lemma NothingDirty(z: Serializer, cache: Entries)
    ensures DirtyOf(z, cache, {}) == map[]
  {
  }

  // ---- The program ----

  class Context {
    var entries: Entries

    constructor (entries: Entries)
      ensures this.entries == entries
    {
      this.entries := entries;
    }
  }

  class Device {
    const z: Serializer
    var sessions: Store

    constructor (z: Serializer, sessions: Store)
      ensures this.z == z && this.sessions == sessions
    {
      this.z := z;
      this.sessions := sessions;
    }

    /** No cache is made for no addresses. */
    method WithCachedSessions(addresses: seq<Bytes>) returns (existing: map<Bytes, bool>, ctx: Context?)
      ensures addresses == [] ==> ctx == null
      ensures addresses != [] ==>
                ctx != null && fresh(ctx) && ctx.entries == Prefetch(z, sessions, set a | a in addresses)
                && existing.Keys == ctx.entries.Keys && forall a :: a in existing ==> existing[a] == (a in sessions)
    {
      hide Prefetch;
      if |addresses| == 0 {
        return map[], null;
      }
      var todo := set a | a in addresses;
      var wrapped: Entries := map[];
      existing := map[];
      ghost var done: set<Bytes> := {};
      PrefetchNothing(z, sessions);
      while todo != {}
        invariant todo !! done && todo + done == set a | a in addresses
        invariant wrapped == Prefetch(z, sessions, done)
        invariant existing == Existing(sessions, wrapped)
        decreases |todo|
      {
        var addr :| addr in todo;
        PrefetchStep(z, sessions, done, addr);
        todo, done := todo - {addr}, done + {addr};
        var found := addr in sessions;
        var record := if found then z.deserialize(sessions[addr]) else Some(z.newSession);
        if record.Some? {
          existing := existing[addr := found];
          wrapped := wrapped[addr := Entry(false, found, record.value)];
        }
      }
      assert done == set a | a in addresses;
      ctx := new Context(wrapped);
    }

    method LoadSession(ctx: Context?, addr: Bytes) returns (r: Option<Session>)
      ensures r == Load(z, sessions, if ctx == null then None else Some(ctx.entries), addr)
    {
      if ctx != null && addr in ctx.entries {
        return Some(ctx.entries[addr].record);
      }
      if addr !in sessions {
        return Some(z.newSession);
      }
      r := z.deserialize(sessions[addr]);
    }

    method StoreSession(ctx: Context?, addr: Bytes, record: Session)
      modifies this, ctx
      ensures if ctx == null then sessions == old(sessions)[addr := z.serialize(record)]
              else sessions == old(sessions) && ctx.entries == old(ctx.entries)[addr := Entry(true, true, record)]
    {
      if ctx != null {
        ctx.entries := ctx.entries[addr := Entry(true, true, record)];
      } else {
        sessions := sessions[addr := z.serialize(record)];
      }
    }

    method PutCachedSessions(ctx: Context?)
      modifies this, ctx
      ensures if ctx == null then sessions == old(sessions)
              else sessions == old(sessions) + Dirty(z, old(ctx.entries)) && ctx.entries == map[]
    {
      if ctx == null {
        return;
      }
      hide DirtyOf;
      var todo := ctx.entries.Keys;
      NothingDirty(z, ctx.entries);
      var dirtySessions: Store := map[];
      ghost var done: set<Bytes> := {};
      while todo != {}
        invariant todo !! done && todo + done == ctx.entries.Keys
        invariant sessions == old(sessions) && ctx.entries == old(ctx.entries)
        invariant dirtySessions == DirtyOf(z, ctx.entries, done)
        decreases |todo|
      {
        var addr :| addr in todo;
        DirtyStep(z, ctx.entries, done, addr);
        todo, done := todo - {addr}, done + {addr};
        if ctx.entries[addr].dirty {
          dirtySessions := dirtySessions[addr := z.serialize(ctx.entries[addr].record)];
        }
      }
      assert done == ctx.entries.Keys;
      assert dirtySessions == map[] ==> sessions + dirtySessions == sessions;
      if |dirtySessions| > 0 {
        sessions := sessions + dirtySessions;
      }
      ctx.entries := map[];
    }
  }

  // ---- Whole runs ----

  datatype Operation = LoadOp(addr: Bytes) | StoreOp(addr: Bytes, record: Session)

  /** The results of the loads, and the store and cache at the end. */
  datatype Run = Run(loads: seq<Option<Session>>, store: Store, cache: Option<Entries>)

  function RunAll(z: Serializer, store: Store, cache: Option<Entries>, ops: seq<Operation>): Run {
    if ops == [] then Run([], store, cache)
    else
      var r := RunAll(z, store, cache, ops[..|ops| - 1]);
      match ops[|ops| - 1]
      case LoadOp(addr) => r.(loads := r.loads + [Load(z, r.store, r.cache, addr)])
      case StoreOp(addr, record) =>
        if r.cache.Some? then r.(cache := Some(r.cache.value[addr := Entry(true, true, record)]))
        else r.(store := r.store[addr := z.serialize(record)])
  }

  /** `cache` in front of `store` stands for the store `direct`. */
  ghost predicate StandsFor(z: Serializer, store: Store, cache: Entries, direct: Store) {
    forall addr ::
      if addr in cache && cache[addr].dirty then addr in direct && direct[addr] == z.serialize(cache[addr].record)
      else
        && (addr in store <==> addr in direct)
        && (addr in store ==> store[addr] == direct[addr])
        && (addr in cache ==> LoadFromStore(z, store, addr) == Some(cache[addr].record))
  }

  lemma {:induction false} CachedRun(z: Serializer, store: Store, cache: Entries, ops: seq<Operation>)
    requires z.Inverts() && StandsFor(z, store, cache, store)
    ensures var cached, direct := RunAll(z, store, Some(cache), ops), RunAll(z, store, None, ops);
            && cached.loads == direct.loads && cached.store == store && cached.cache.Some? && direct.cache.None?
            && StandsFor(z, store, cached.cache.value, direct.store)
  {
    if ops != [] {
      CachedRun(z, store, cache, ops[..|ops| - 1]);
    }
  }

  lemma FlushGivesDirect(z: Serializer, store: Store, cache: Entries, direct: Store)
    requires StandsFor(z, store, cache, direct)
    ensures store + Dirty(z, cache) == direct
  {
    var flushed := store + Dirty(z, cache);
    forall addr
      ensures addr in flushed <==> addr in direct
      ensures addr in flushed ==> flushed[addr] == direct[addr]
    {
      assert addr in cache && cache[addr].dirty <==> addr in Dirty(z, cache);
    }
  }

  /** Prefetch any addresses, run any loads and stores on any addresses, write back: the loads give what they would
      have given on the store itself, and the store ends up the same. */
  lemma CacheIsTransparent(z: Serializer, store: Store, addresses: set<Bytes>, ops: seq<Operation>)
    requires z.Inverts()
    ensures var cached := RunAll(z, store, Some(Prefetch(z, store, addresses)), ops);
            var direct := RunAll(z, store, None, ops);
            && cached.loads == direct.loads && cached.cache.Some?
            && cached.store + Dirty(z, cached.cache.value) == direct.store
  {
    CachedRun(z, store, Prefetch(z, store, addresses), ops);
    FlushGivesDirect(z, store, RunAll(z, store, Some(Prefetch(z, store, addresses)), ops).cache.value,
                     RunAll(z, store, None, ops).store);
  }

  // ---- What the loads and the store hold ----

  /** The session of an address after some operations: the last one stored, or what the store began with, a new session if
      that was nothing. */
  function Latest(z: Serializer, store: Store, ops: seq<Operation>, addr: Bytes): Option<Session> {
    if ops == [] then if addr !in store then Some(z.newSession) else z.deserialize(store[addr])
    else
      match ops[|ops| - 1]
      case StoreOp(a, record) => if a == addr then Some(record) else Latest(z, store, ops[..|ops| - 1], addr)
      case LoadOp(_) => Latest(z, store, ops[..|ops| - 1], addr)
  }

  predicate Stores(ops: seq<Operation>, addr: Bytes) {
    exists i :: 0 <= i < |ops| && ops[i].StoreOp? && ops[i].addr == addr
  }

  lemma {:induction false} DirectRun(z: Serializer, store: Store, ops: seq<Operation>, addr: Bytes)
    requires z.Inverts()
    ensures var r := RunAll(z, store, None, ops);
            && r.cache.None? && Load(z, r.store, None, addr) == Latest(z, store, ops, addr)
            && (addr in r.store <==> addr in store || Stores(ops, addr))
            && (addr in r.store ==>
                  if Stores(ops, addr) then
                    Latest(z, store, ops, addr).Some? && r.store[addr] == z.serialize(Latest(z, store, ops, addr).value)
                  else r.store[addr] == store[addr])
  {
    if ops != [] {
      var front, last := ops[..|ops| - 1], ops[|ops| - 1];
      DirectRun(z, store, front, addr);
      assert Stores(ops, addr) <==> Stores(front, addr) || (last.StoreOp? && last.addr == addr) by {
        assert forall i :: 0 <= i < |front| ==> front[i] == ops[i];
        assert ops[|front|] == last;
      }
    }
  }

  /** With a cache of any addresses, and without one, a load gives the session of its address, and after writing back the
      store holds the last session stored for each address and is unchanged elsewhere. */
  lemma CachedRunHolds(z: Serializer, store: Store, addresses: set<Bytes>, ops: seq<Operation>, addr: Bytes)
    requires z.Inverts()
    ensures var cached := RunAll(z, store, Some(Prefetch(z, store, addresses)), ops + [LoadOp(addr)]);
            && cached.cache.Some? && cached.loads != [] && cached.loads[|cached.loads| - 1] == Latest(z, store, ops, addr)
            && var final := cached.store + Dirty(z, cached.cache.value);
               && (addr in final <==> addr in store || Stores(ops, addr))
               && (addr in final ==>
                     if Stores(ops, addr) then
                       Latest(z, store, ops, addr).Some? && final[addr] == z.serialize(Latest(z, store, ops, addr).value)
                     else final[addr] == store[addr])
  {
    hide Load, Latest, Stores, Prefetch, Dirty;
    DirectRun(z, store, ops, addr);
    CacheIsTransparent(z, store, addresses, ops + [LoadOp(addr)]);
    assert (ops + [LoadOp(addr)])[..|ops|] == ops;
  }

  /** Of the wanted addresses, the cache holds those that are absent or can be read, not dirty, with what a load gives. */
  lemma PrefetchHolds(z: Serializer, store: Store, addresses: set<Bytes>, addr: Bytes)
    ensures addr in Prefetch(z, store, addresses)
       <==> addr in addresses && (addr in store ==> z.deserialize(store[addr]).Some?)
    ensures addr in Prefetch(z, store, addresses) ==>
              Prefetch(z, store, addresses)[addr]
              == if addr in store then Entry(false, true, z.deserialize(store[addr]).value)
                 else Entry(false, false, z.newSession)
  {
  }
}
