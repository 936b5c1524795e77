/**
 Waiting for responses (request.go): channels with room for one node, registered by request id. Every lock-protected
 section is one step; taking a waiter out of the table and sending to it are two, between which others may run.
 */
module ResponseWaiters {
  import opened Wrappers
  import opened Bytes

  /** A channel with a buffer of one; `id` is what it was made for, `handed` how many nodes were ever sent to it. */
  datatype Channel = Channel(id: Bytes, open: bool, buffer: Option<Bytes>, handed: nat)

  /** `removed` are the channels taken out for a delivery that has not happened yet. */
  datatype Table = Table(waiters: map<Bytes, nat>, channels: seq<Channel>, removed: set<nat>)

  const NO_WAITERS: Table := Table(map[], [], {})

  datatype Step =
    | Wait(id: Bytes)
    | Cancel(ch: nat)
    | Remove(id: Bytes)
    | Deliver(ch: nat, node: Bytes)
    | GiveUp(ch: nat)
    | Clear(node: Bytes)
    | Take(ch: nat)

  /** `Blocked`: the step cannot be taken in this state. `Panic`: closing or sending to a closed channel. */
  datatype Result = Next(table: Table) | Blocked | Panic

  function Send(c: Channel, node: Bytes): Channel {
    c.(buffer := Some(node), handed := c.handed + 1)
  }

  /** The `select` of `clearResponseWaiters`: send if there is room, and close otherwise. */
  function SendOrClose(c: Channel, node: Bytes): Channel {
    if c.buffer.None? then Send(c, node) else c.(open := false)
  }

  /** A waiter is cancelled under the id it was registered with. */
  function CancelWaiter(t: Table, ch: nat): Result {
    if ch >= |t.channels| then Blocked
    else if !t.channels[ch].open then Panic
    else Next(t.(waiters := t.waiters - {t.channels[ch].id},
                 channels := t.channels[ch := t.channels[ch].(open := false)]))
  }

  function ClearChannels(t: Table, node: Bytes): seq<Channel> {
    seq(|t.channels|, i requires 0 <= i < |t.channels| =>
      if i in t.waiters.Values then SendOrClose(t.channels[i], node) else t.channels[i])
  }

  function Apply(t: Table, s: Step): Result {
    match s
    case Wait(id) =>
      Next(t.(waiters := t.waiters[id := |t.channels|], channels := t.channels + [Channel(id, true, None, 0)]))
    case Cancel(ch) => CancelWaiter(t, ch)
    case Remove(id) =>
      if id !in t.waiters then Next(t)
      else Next(t.(waiters := t.waiters - {id}, removed := t.removed + {t.waiters[id]}))
    case Deliver(ch, node) =>
      if ch !in t.removed || ch >= |t.channels| then Blocked
      else if !t.channels[ch].open then Panic
      else if t.channels[ch].buffer.Some? then Blocked
      else Next(t.(channels := t.channels[ch := Send(t.channels[ch], node)], removed := t.removed - {ch}))
    case GiveUp(ch) => if ch !in t.removed then Blocked else Next(t.(removed := t.removed - {ch}))
    case Clear(node) =>
      if exists i :: 0 <= i < |t.channels| && i in t.waiters.Values && !t.channels[i].open then Panic
      else Next(t.(waiters := map[], channels := ClearChannels(t, node)))
    case Take(ch) =>
      if ch >= |t.channels| || t.channels[ch].buffer.None? then Blocked
      else Next(t.(channels := t.channels[ch := t.channels[ch].(buffer := None)]))
  }

  function Run(steps: seq<Step>): Result {
    if steps == [] then Next(NO_WAITERS)
    else match Run(steps[..|steps| - 1])
      case Next(t) => Apply(t, steps[|steps| - 1])
      case other => other
  }

  ghost predicate Unused(t: Table, ch: nat) {
    ch < |t.channels| && t.channels[ch].buffer.None? && t.channels[ch].handed == 0
  }

  /** Registered channels are open, empty, registered once and under their own id; a channel that is registered or
      about to be delivered to was never handed anything; no channel was handed more than one node. */
  ghost predicate Sound(t: Table) {
    && (forall id :: id in t.waiters ==>
          Unused(t, t.waiters[id]) && t.channels[t.waiters[id]].open && t.channels[t.waiters[id]].id == id
          && t.waiters[id] !in t.removed)
    && (forall ch :: ch in t.removed ==> Unused(t, ch))
    && (forall ch :: 0 <= ch < |t.channels| ==> t.channels[ch].handed <= 1)
  }

  lemma StepKeepsSound(t: Table, s: Step)
    requires Sound(t) && Apply(t, s).Next?
    ensures Sound(Apply(t, s).table)
  {
    var t' := Apply(t, s).table;
    match s
    case Clear(node) =>
      forall ch | 0 <= ch < |t.channels| && ch in t.waiters.Values
        ensures Unused(t, ch) && ch !in t.removed
      {
        var id :| id in t.waiters && t.waiters[id] == ch;
      }
      forall ch | ch in t.removed
        ensures Unused(t', ch)
      {
        assert Unused(t, ch);
      }
    case Deliver(ch, node) =>
      forall c | c in t'.removed
        ensures Unused(t', c)
      {
        assert Unused(t, c);
      }
    case Cancel(ch) =>
      forall c | c in t'.removed
        ensures Unused(t', c)
      {
        assert Unused(t, c);
      }
      forall id | id in t'.waiters
        ensures Unused(t', t'.waiters[id]) && t'.waiters[id] != ch
      {
        assert Unused(t, t.waiters[id]);
      }
    case Take(ch) =>
      forall c | c in t'.removed
        ensures Unused(t', c)
      {
        assert Unused(t, c);
      }
    case _ =>
  }

  /** Over every interleaving: registered channels stay open and empty, and no channel is handed two nodes. */
  lemma {:induction false} AlwaysSound(steps: seq<Step>)
    requires Run(steps).Next?
    ensures Sound(Run(steps).table)
  {
    hide Apply;
    if steps != [] {
      AlwaysSound(steps[..|steps| - 1]);
      StepKeepsSound(Run(steps[..|steps| - 1]).table, steps[|steps| - 1]);
    }
  }

  /** So clearing never panics and never closes: every waiter is handed the node and stays open. */
  lemma ClearReachesAll(steps: seq<Step>, node: Bytes, id: Bytes)
    requires Run(steps).Next? && id in Run(steps).table.waiters
    ensures var t := Run(steps).table;
            var r := Apply(t, Clear(node));
            && r.Next? && t.waiters[id] < |t.channels| == |r.table.channels|
            && r.table.channels[t.waiters[id]] == Channel(id, true, Some(node), 1)
  {
    hide Run;
    AlwaysSound(steps);
    var t := Run(steps).table;
    assert Unused(t, t.waiters[id]);
    assert t.waiters[id] in t.waiters.Values;
    forall ch | 0 <= ch < |t.channels| && ch in t.waiters.Values
      ensures t.channels[ch].open
    {
      var other :| other in t.waiters && t.waiters[other] == ch;
    }
  }

  /** A registered request that is answered: its channel holds the node, it is forgotten, and the receiver takes the
      node. */
  lemma ResponseArrives(steps: seq<Step>, id: Bytes, node: Bytes)
    requires Run(steps).Next? && id in Run(steps).table.waiters
    ensures var t := Run(steps).table;
            var ch := t.waiters[id];
            var answered := Run(steps + [Remove(id), Deliver(ch, node)]);
            && answered.Next? && ch < |t.channels| == |answered.table.channels|
            && answered.table.channels == t.channels[ch := Channel(id, true, Some(node), 1)]
            && answered.table.waiters == t.waiters - {id} && answered.table.removed == t.removed
            && Apply(answered.table, Take(ch))
               == Next(answered.table.(channels := t.channels[ch := Channel(id, true, None, 1)]))
  {
    hide Run;
    AlwaysSound(steps);
    var t := Run(steps).table;
    var ch := t.waiters[id];
    assert Unused(t, ch);
    RunStep(steps, Remove(id));
    RunStep(steps + [Remove(id)], Deliver(ch, node));
    assert steps + [Remove(id)] + [Deliver(ch, node)] == steps + [Remove(id), Deliver(ch, node)];
    assert t.removed + {ch} - {ch} == t.removed;
  }

  lemma RunStep(steps: seq<Step>, s: Step)
    requires Run(steps).Next?
    ensures Run(steps + [s]) == Apply(Run(steps).table, s)
  {
    assert (steps + [s])[..|steps|] == steps;
  }

  /** A request is registered with a channel of its own, open and empty, and no other one changes. */
  lemma RequestIsRegistered(t: Table, id: Bytes)
    ensures var r := Apply(t, Wait(id));
            && r.Next? && id in r.table.waiters && r.table.waiters[id] == |t.channels|
            && r.table.channels == t.channels + [Channel(id, true, None, 0)] && r.table.removed == t.removed
            && forall other :: other != id ==>
                 (other in r.table.waiters <==> other in t.waiters)
                 && (other in t.waiters ==> r.table.waiters[other] == t.waiters[other])
  {
  }

  /** A cancelled request is forgotten and its channel closed: a response to it finds no waiter. */
  lemma CancelledGetsNothing(steps: seq<Step>, id: Bytes)
    requires Run(steps).Next? && id in Run(steps).table.waiters
    ensures var t := Run(steps).table;
            var ch := t.waiters[id];
            var r := Apply(t, Cancel(ch));
            && ch < |t.channels| && r.Next? && r.table.waiters == t.waiters - {id}
            && r.table.channels == t.channels[ch := t.channels[ch].(open := false)] && r.table.removed == t.removed
            && Apply(r.table, Remove(id)) == r
            && Apply(r.table, Cancel(ch)) == Panic
  {
    hide Run;
    AlwaysSound(steps);
    assert Unused(Run(steps).table, Run(steps).table.waiters[id]);
  }

  /** Clearing empties the table and leaves alone the channels that are not registered. */
  lemma ClearLeavesOthers(steps: seq<Step>, node: Bytes, ch: nat)
    requires Run(steps).Next? && ch < |Run(steps).table.channels| && ch !in Run(steps).table.waiters.Values
    ensures var t := Run(steps).table;
            var r := Apply(t, Clear(node));
            && r.Next? && r.table.waiters == map[] && r.table.removed == t.removed
            && |r.table.channels| == |t.channels| && r.table.channels[ch] == t.channels[ch]
  {
    hide Run;
    AlwaysSound(steps);
    AllOpen(Run(steps).table);
  }

  /** A delivery to a channel that is full or was cancelled, and what is not there to be delivered or taken. */
  lemma DeliveryOutcomes(t: Table, ch: nat, node: Bytes)
    ensures ch !in t.removed ==> Apply(t, Deliver(ch, node)) == Blocked && Apply(t, GiveUp(ch)) == Blocked
    ensures ch in t.removed ==> Apply(t, GiveUp(ch)) == Next(Table(t.waiters, t.channels, t.removed - {ch}))
    ensures ch in t.removed && ch < |t.channels| && !t.channels[ch].open ==> Apply(t, Deliver(ch, node)) == Panic
    ensures ch in t.removed && ch < |t.channels| && t.channels[ch].open && t.channels[ch].buffer.Some? ==>
              Apply(t, Deliver(ch, node)) == Blocked
    ensures ch < |t.channels| && t.channels[ch].buffer.None? ==> Apply(t, Take(ch)) == Blocked
  {
  }

  class Client {
    var table: Table

    constructor ()
      ensures table == NO_WAITERS
    {
      table := NO_WAITERS;
    }

    method WaitResponse(reqID: Bytes) returns (ch: nat)
      modifies this
      ensures Apply(old(table), Wait(reqID)) == Next(table) && ch == |old(table).channels|
    {
      ch := |table.channels|;
      table := table.(channels := table.channels + [Channel(reqID, true, None, 0)]);
      table := table.(waiters := table.waiters[reqID := ch]);
    }

    /** Closing a closed channel panics. */
    method CancelResponse(reqID: Bytes, ch: nat) returns (panic: bool)
      requires ch < |table.channels| && table.channels[ch].id == reqID
      modifies this
      ensures Apply(old(table), Cancel(ch)) == if panic then Panic else Next(table)
    {
      if !table.channels[ch].open {
        return true;
      }
      table := table.(channels := table.channels[ch := table.channels[ch].(open := false)]);
      table := table.(waiters := table.waiters - {reqID});
      panic := false;
    }

    /** The part of `receiveResponse` under the lock. */
    method TakeWaiter(id: Bytes) returns (ch: Option<nat>)
      modifies this
      ensures Apply(old(table), Remove(id)) == Next(table)
      ensures ch == if id in old(table).waiters then Some(old(table).waiters[id]) else None
    {
      if id !in table.waiters {
        return None;
      }
      ch := Some(table.waiters[id]);
      table := table.(waiters := table.waiters - {id}, removed := table.removed + {table.waiters[id]});
    }

    method ClearResponseWaiters(node: Bytes)
      requires Sound(table)
      modifies this
      ensures Apply(old(table), Clear(node)) == Next(table)
    {
      hide Sound, ClearedSoFar;
      var todo := table.waiters.Keys;
      ghost var done: set<Bytes> := {};
      var channels := table.channels;
      NothingCleared(table, node);
      while todo != {}
        invariant table == old(table) && todo !! done && todo + done == table.waiters.Keys
        invariant |channels| == |table.channels| && ClearedSoFar(table, node, done, channels)
        decreases |todo|
      {
        var id :| id in todo;
        ClearStep(table, node, done, channels, id);
        var ch := table.waiters[id];
        channels := channels[ch := SendOrClose(channels[ch], node)];
        todo, done := todo - {id}, done + {id};
      }
      assert done == table.waiters.Keys;
      AllCleared(table, node, channels);
      AllOpen(table);
      table := table.(waiters := map[], channels := channels);
    }
  }

  ghost predicate ClearedSoFar(t: Table, node: Bytes, done: set<Bytes>, channels: seq<Channel>)
    requires Sound(t) && done <= t.waiters.Keys && |channels| == |t.channels|
  {
    && (forall id :: id in done ==>
          Unused(t, t.waiters[id]) && channels[t.waiters[id]] == SendOrClose(t.channels[t.waiters[id]], node))
    && (forall i :: 0 <= i < |channels| && (forall id :: id in done ==> t.waiters[id] != i) ==>
          channels[i] == t.channels[i])
  }

  lemma NothingCleared(t: Table, node: Bytes)
    requires Sound(t)
    ensures ClearedSoFar(t, node, {}, t.channels)
  {
  }

  lemma ClearStep(t: Table, node: Bytes, done: set<Bytes>, channels: seq<Channel>, id: Bytes)
    requires Sound(t) && done <= t.waiters.Keys && |channels| == |t.channels| && ClearedSoFar(t, node, done, channels)
    requires id in t.waiters && id !in done
    ensures Unused(t, t.waiters[id])
    ensures ClearedSoFar(t, node, done + {id}, channels[t.waiters[id] := SendOrClose(channels[t.waiters[id]], node)])
  {
    OnlyOneId(t, done, id);
    hide SendOrClose;
    var after := channels[t.waiters[id] := SendOrClose(channels[t.waiters[id]], node)];
    forall i | 0 <= i < |after| && (forall other :: other in done + {id} ==> t.waiters[other] != i)
      ensures after[i] == t.channels[i]
    {
      assert id in done + {id};
      assert forall other :: other in done ==> other in done + {id};
    }
  }

  lemma OnlyOneId(t: Table, done: set<Bytes>, id: Bytes)
    requires Sound(t) && done <= t.waiters.Keys && id in t.waiters && id !in done
    ensures forall other :: other in done ==> t.waiters[other] != t.waiters[id]
  {
  }

  lemma AllOpen(t: Table)
    requires Sound(t)
    ensures !exists i :: 0 <= i < |t.channels| && i in t.waiters.Values && !t.channels[i].open
  {
    forall i | 0 <= i < |t.channels| && i in t.waiters.Values
      ensures t.channels[i].open
    {
      var id :| id in t.waiters && t.waiters[id] == i;
    }
  }

  lemma AllCleared(t: Table, node: Bytes, channels: seq<Channel>)
    requires Sound(t) && |channels| == |t.channels|
    requires ClearedSoFar(t, node, t.waiters.Keys, channels)
    ensures channels == ClearChannels(t, node)
  {
    forall i | 0 <= i < |channels|
      ensures channels[i] == ClearChannels(t, node)[i]
    {
      if i in t.waiters.Values {
        var id :| id in t.waiters && t.waiters[id] == i;
      } else {
        assert forall id :: id in t.waiters ==> t.waiters[id] in t.waiters.Values;
      }
    }
  }
}
