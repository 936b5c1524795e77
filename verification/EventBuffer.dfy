/**
 The buffer of decrypted events (message.go, `bufferedDecrypt` and the handling loop of `decryptMessages`): decrypting
 is not repeatable, so the plaintext is stored in the same transaction, and cleared once a handler has taken it.
 */
module EventBuffer {
  import opened Wrappers
  import opened Bytes

  /** A row of the buffer: the plaintext, or nothing any more once it was handled. */
  type Rows = map<Bytes, Option<Bytes>>

  /** What happens to a plaintext after decryption: the process stops first, it cannot be parsed, it is passed over
      (an unknown version, or an unparsable one of version 3), the handler fails, or the handler accepts it. When it was
      passed over or accepted the row is cleared, if clearing works. */
  datatype Handling = Stopped | Unparsed | PassedOver(cleared: bool) | HandlerFailed | Handled(cleared: bool)

  /** A delivery of a ciphertext, by its hash. `decrypted` is what decrypting it would give now; `stored` whether the
      transaction commits. Restarting the program changes no row, and so is no step. */
  datatype Step =
    | Delivery(hash: Bytes, decrypted: Option<Bytes>, stored: bool, handling: Handling)
    | DeleteOld(hash: Bytes)

  /** The rows, the plaintexts that were decrypted and committed, and those that handlers saw. */
  datatype World = World(rows: Rows, committed: seq<(Bytes, Bytes)>, seen: seq<(Bytes, Bytes)>)

  datatype Decrypted = Plaintext(data: Bytes) | AlreadyProcessed | Failed

  /** `bufferedDecrypt` with the buffer enabled: the row decides, and only without a row is anything decrypted. */
  function BufferedDecrypt(w: World, s: Step): (World, Decrypted)
    requires s.Delivery?
  {
    if s.hash in w.rows then (w, if w.rows[s.hash].None? then AlreadyProcessed else Plaintext(w.rows[s.hash].value))
    else if s.decrypted.None? || !s.stored then (w, Failed)
    else
      (w.(rows := w.rows[s.hash := s.decrypted], committed := w.committed + [(s.hash, s.decrypted.value)]),
       Plaintext(s.decrypted.value))
  }

  function Handle(w: World, hash: Bytes, plaintext: Bytes, h: Handling): World {
    match h
    case Stopped => w
    case Unparsed => w
    case PassedOver(cleared) => w.(rows := if cleared then w.rows[hash := None] else w.rows)
    case HandlerFailed => w.(seen := w.seen + [(hash, plaintext)])
    case Handled(cleared) =>
      w.(seen := w.seen + [(hash, plaintext)], rows := if cleared then w.rows[hash := None] else w.rows)
  }

  function Apply(w: World, s: Step): World {
    match s
    case DeleteOld(hash) => w.(rows := w.rows - {hash})
    case Delivery(hash, _, _, handling) =>
      var (w', r) := BufferedDecrypt(w, s);
      if r.Plaintext? then Handle(w', hash, r.data, handling) else w'
  }

  function Run(w: World, steps: seq<Step>): World {
    if steps == [] then w else Apply(Run(w, steps[..|steps| - 1]), steps[|steps| - 1])
  }

  function Of(log: seq<(Bytes, Bytes)>, hash: Bytes): seq<Bytes> {
    if log == [] then []
    else if log[|log| - 1].0 == hash then Of(log[..|log| - 1], hash) + [log[|log| - 1].1]
    else Of(log[..|log| - 1], hash)
  }

  lemma OfPush(log: seq<(Bytes, Bytes)>, x: (Bytes, Bytes), hash: Bytes)
    ensures Of(log + [x], hash) == if x.0 == hash then Of(log, hash) + [x.1] else Of(log, hash)
  {
    assert (log + [x])[..|log|] == log;
  }

  /** While the row of a hash is kept: one commit, and handlers have only seen what was committed. */
  ghost predicate Once(w: World, hash: Bytes) {
    && |Of(w.committed, hash)| == (if hash in w.rows then 1 else 0)
    && (hash !in w.rows ==> Of(w.seen, hash) == [])
    && (hash in w.rows && w.rows[hash].Some? ==> w.rows[hash].value == Of(w.committed, hash)[0])
    && (forall p :: p in Of(w.seen, hash) ==> hash in w.rows && p == Of(w.committed, hash)[0])
  }

  lemma {:induction false} DecryptKeepsOnce(w: World, s: Step, hash: Bytes)
    requires Once(w, hash) && s.Delivery?
    ensures var (w', r) := BufferedDecrypt(w, s);
            && Once(w', hash) && w'.seen == w.seen
            && (r.Plaintext? ==> s.hash in w'.rows && w'.rows[s.hash] == Some(r.data))
            && (hash in w.rows ==>
                  hash in w'.rows && w'.rows[hash] == w.rows[hash] && Of(w'.committed, hash) == Of(w.committed, hash))
  {
    hide Of;
    if s.decrypted.Some? {
      OfPush(w.committed, (s.hash, s.decrypted.value), hash);
    }
  }

  lemma HandleKeepsOnce(w: World, h: Bytes, plaintext: Bytes, handling: Handling, hash: Bytes)
    requires Once(w, hash) && h in w.rows && w.rows[h] == Some(plaintext)
    ensures var w' := Handle(w, h, plaintext, handling);
            && Once(w', hash) && w'.committed == w.committed
            && (hash in w.rows ==> hash in w'.rows)
            && (hash in w.rows && w.rows[hash] == None ==>
                  w'.rows[hash] == None && Of(w'.seen, hash) == Of(w.seen, hash))
  {
    hide Of;
    OfPush(w.seen, (h, plaintext), hash);
  }

  lemma StepKeepsOnce(w: World, s: Step, hash: Bytes)
    requires Once(w, hash) && s != DeleteOld(hash)
    ensures Once(Apply(w, s), hash)
    ensures hash in w.rows ==> hash in Apply(w, s).rows && Of(Apply(w, s).committed, hash) == Of(w.committed, hash)
    ensures hash in w.rows && w.rows[hash] == None ==>
              Apply(w, s).rows[hash] == None && Of(Apply(w, s).seen, hash) == Of(w.seen, hash)
  {
    if s.Delivery? {
      hide Once, BufferedDecrypt, Handle, Of;
      DecryptKeepsOnce(w, s, hash);
      var (w', r) := BufferedDecrypt(w, s);
      if r.Plaintext? {
        HandleKeepsOnce(w', s.hash, r.data, s.handling, hash);
      }
    } else {
      hide Of;
      assert Once(Apply(w, s), hash);
    }
  }

  /** Over any run that does not delete the row: a ciphertext is decrypted and committed at most once, and handlers
      only ever see that plaintext. */
  lemma {:induction false} DecryptedOnce(w: World, steps: seq<Step>, hash: Bytes)
    requires hash !in w.rows && Of(w.committed, hash) == [] && Of(w.seen, hash) == []
    requires DeleteOld(hash) !in steps
    ensures Once(Run(w, steps), hash)
    ensures |Of(Run(w, steps).committed, hash)| <= 1
  {
    hide Apply;
    if steps != [] {
      DecryptedOnce(w, steps[..|steps| - 1], hash);
      StepKeepsOnce(Run(w, steps[..|steps| - 1]), steps[|steps| - 1], hash);
    }
  }

  /** Once the row was cleared, no later delivery reaches a handler. */
  lemma {:induction false} ClearedStaysCleared(w: World, steps: seq<Step>, hash: Bytes)
    requires Once(w, hash) && hash in w.rows && w.rows[hash] == None
    requires DeleteOld(hash) !in steps
    ensures var after := Run(w, steps);
            && Once(after, hash) && hash in after.rows && after.rows[hash] == None
            && Of(after.seen, hash) == Of(w.seen, hash) && Of(after.committed, hash) == Of(w.committed, hash)
  {
    hide Apply, Once;
    if steps != [] {
      ClearedStaysCleared(w, steps[..|steps| - 1], hash);
      StepKeepsOnce(Run(w, steps[..|steps| - 1]), steps[|steps| - 1], hash);
    }
  }

  // ---- What a delivery does after any run ----

  /** The plaintext that was committed for a hash: that of the first delivery that could be decrypted and stored. */
  function Committed(steps: seq<Step>, hash: Bytes): Option<Bytes> {
    if steps == [] then None
    else
      var before, s := Committed(steps[..|steps| - 1], hash), steps[|steps| - 1];
      if before.Some? then before
      else if s.Delivery? && s.hash == hash && s.decrypted.Some? && s.stored then s.decrypted
      else None
  }

  /** The row of the hash was cleared: by a delivery that a handler accepted or that was passed over, once the plaintext
      was there. */
  predicate Cleared(steps: seq<Step>, hash: Bytes) {
    steps != [] &&
    (|| Cleared(steps[..|steps| - 1], hash)
     || (var s := steps[|steps| - 1];
         && Committed(steps, hash).Some? && s.Delivery? && s.hash == hash
         && (s.handling == PassedOver(true) || s.handling == Handled(true))))
  }

  predicate ReachesHandler(h: Handling) {
    h.HandlerFailed? || h.Handled?
  }

  ghost predicate RowAfter(w: World, steps: seq<Step>, hash: Bytes, after: World) {
    match Committed(steps, hash)
    case None => hash !in after.rows && Of(after.committed, hash) == Of(w.committed, hash)
    case Some(p) =>
      && hash in after.rows && Of(after.committed, hash) == Of(w.committed, hash) + [p]
      && after.rows[hash] == if Cleared(steps, hash) then None else Some(p)
  }

  /** What one delivery does to the rows and logs of its hash, and to nothing else. */
  lemma DeliveryDoes(w: World, s: Step, hash: Bytes)
    requires s.Delivery?
    ensures var after := Apply(w, s);
            if s.hash != hash then
              && (hash in after.rows <==> hash in w.rows) && (hash in w.rows ==> after.rows[hash] == w.rows[hash])
              && Of(after.committed, hash) == Of(w.committed, hash) && Of(after.seen, hash) == Of(w.seen, hash)
            else if hash in w.rows && w.rows[hash].None? then after == w
            else
              var plain := if hash in w.rows then w.rows[hash] else if s.stored then s.decrypted else None;
              match plain
              case None => after == w
              case Some(p) =>
                && hash in after.rows
                && after.rows[hash] == (if s.handling == PassedOver(true) || s.handling == Handled(true) then None
                                        else Some(p))
                && Of(after.committed, hash) == (if hash in w.rows then Of(w.committed, hash)
                                                 else Of(w.committed, hash) + [p])
                && Of(after.seen, hash) == (if ReachesHandler(s.handling) then Of(w.seen, hash) + [p]
                                            else Of(w.seen, hash))
  {
    hide Of;
    if s.decrypted.Some? {
      OfPush(w.committed, (s.hash, s.decrypted.value), hash);
      OfPush(w.seen, (s.hash, s.decrypted.value), hash);
    }
    if s.hash in w.rows && w.rows[s.hash].Some? {
      OfPush(w.seen, (s.hash, w.rows[s.hash].value), hash);
    }
  }

  lemma {:induction false} ClearedIsCommitted(steps: seq<Step>, hash: Bytes)
    ensures Cleared(steps, hash) ==> Committed(steps, hash).Some?
  {
    if steps != [] {
      ClearedIsCommitted(steps[..|steps| - 1], hash);
    }
  }

  lemma {:induction false} RowIs(w: World, steps: seq<Step>, hash: Bytes)
    requires hash !in w.rows && DeleteOld(hash) !in steps
    ensures RowAfter(w, steps, hash, Run(w, steps))
  {
    hide Of, Apply;
    if steps != [] {
      var front, s := steps[..|steps| - 1], steps[|steps| - 1];
      RowIs(w, front, hash);
      ClearedIsCommitted(front, hash);
      if s.Delivery? {
        DeliveryDoes(Run(w, front), s, hash);
      } else {
        DeletionDoes(Run(w, front), s, hash);
      }
    }
  }

  lemma DeletionDoes(w: World, s: Step, hash: Bytes)
    requires s.DeleteOld? && s != DeleteOld(hash)
    ensures var after := Apply(w, s);
            && (hash in after.rows <==> hash in w.rows) && (hash in w.rows ==> after.rows[hash] == w.rows[hash])
            && after.committed == w.committed && after.seen == w.seen
  {
  }

  /**
   After any run that does not delete the row, the next delivery of a ciphertext: while its plaintext is committed and not
   cleared, a handler that is reached gets exactly that, whatever decrypting would do now; once it is cleared, nothing
   happens; before it is committed, what can be decrypted and stored is committed and handed on, and else nothing happens.
   */
  lemma NextDelivery(w: World, steps: seq<Step>, hash: Bytes, decrypted: Option<Bytes>, stored: bool, handling: Handling)
    requires hash !in w.rows && DeleteOld(hash) !in steps
    ensures var before := Run(w, steps);
            var after := Apply(before, Delivery(hash, decrypted, stored, handling));
            match Committed(steps, hash)
            case Some(p) =>
              && Of(after.committed, hash) == Of(before.committed, hash)
              && Of(after.seen, hash)
                 == Of(before.seen, hash) + (if !Cleared(steps, hash) && ReachesHandler(handling) then [p] else [])
            case None =>
              if decrypted.Some? && stored then
                && Of(after.committed, hash) == Of(before.committed, hash) + [decrypted.value]
                && Of(after.seen, hash)
                   == Of(before.seen, hash) + (if ReachesHandler(handling) then [decrypted.value] else [])
              else after == before
  {
    hide Of, Apply, Run;
    RowIs(w, steps, hash);
    DeliveryDoes(Run(w, steps), Delivery(hash, decrypted, stored, handling), hash);
  }

  class Client {
    var rows: Rows

    constructor (rows: Rows)
      ensures this.rows == rows
    {
      this.rows := rows;
    }

    /** `decrypted` and `stored` stand for what the cipher and the transaction do. */
    method DecryptBuffered(hash: Bytes, decrypted: Option<Bytes>, stored: bool) returns (r: Decrypted)
      modifies this
      ensures var (w, d) := BufferedDecrypt(World(old(rows), [], []), Delivery(hash, decrypted, stored, Stopped));
              rows == w.rows && r == d
      ensures hash in old(rows) ==>
                rows == old(rows) && r == match rows[hash] case None => AlreadyProcessed case Some(p) => Plaintext(p)
      ensures hash !in old(rows) && decrypted.Some? && stored ==>
                rows == old(rows)[hash := decrypted] && r == Plaintext(decrypted.value)
      ensures hash !in old(rows) && (decrypted.None? || !stored) ==> rows == old(rows) && r == Failed
    {
      if hash in rows {
        if rows[hash].None? {
          return AlreadyProcessed;
        }
        return Plaintext(rows[hash].value);
      }
      if decrypted.None? {
        return Failed;
      }
      if !stored {
        return Failed;
      }
      rows := rows[hash := decrypted];
      r := Plaintext(decrypted.value);
    }

    /** The handle-then-clear part for one ciphertext: whether a handler saw the plaintext. */
    method HandleThenClear(hash: Bytes, plaintext: Bytes, handling: Handling) returns (seen: bool)
      modifies this
      ensures rows == Handle(World(old(rows), [], []), hash, plaintext, handling).rows
      ensures Handle(World(old(rows), [], []), hash, plaintext, handling).seen == if seen then [(hash, plaintext)] else []
      ensures seen <==> ReachesHandler(handling)
      ensures rows == if handling == PassedOver(true) || handling == Handled(true) then old(rows)[hash := None]
                      else old(rows)
    {
      if handling == Stopped || handling == Unparsed {
        return false;
      }
      seen := !handling.PassedOver?;
      if handling == HandlerFailed {
        return;
      }
      if handling.cleared {
        rows := rows[hash := None];
      }
    }
  }
}
