/** The rate limits of event handlers (cmd/whatsapp_mcp/event_matcher.go): pruned counters against full history. */
module RateLimiter {
  import opened Wrappers
  import opened Bytes

  /** A check or an execution of the handler: when, in seconds, and for which sender. The empty sender is not counted. */
  datatype Execution = Execution(now: nat, sender: Bytes)

  type Counts = map<int, nat>

  datatype Counters = Counters(perMinute: Counts, perHour: Counts, perSender: map<Bytes, Counts>)

  const NO_COUNTERS: Counters := Counters(map[], map[], map[])

  /** A limit of zero or less is no limit. */
  datatype Limits = Limits(perMinute: int, perHour: int, perSenderHour: int)

  function Get(counts: Counts, bucket: int): nat {
    if bucket in counts then counts[bucket] else 0
  }

  function SenderCounts(c: Counters, sender: Bytes): Counts {
    if sender in c.perSender then c.perSender[sender] else map[]
  }

  /** Go's division, which rounds towards zero. */
  function Quotient(x: int, y: int): int
    requires y > 0
  {
    if x >= 0 then x / y else -(-x / y)
  }

  /** What is older than two hours is dropped. */
  function OldestMinute(now: int): int {
    Quotient(now - 7200, 60)
  }

  function OldestHour(now: int): int {
    Quotient(now - 7200, 3600)
  }

  function Prune(counts: Counts, oldest: int): Counts {
    map bucket | bucket in counts && bucket >= oldest :: counts[bucket]
  }

  function Increment(counts: Counts, bucket: int): Counts {
    counts[bucket := Get(counts, bucket) + 1]
  }

  /** `checkRateLimits`. */
  predicate Admits(l: Limits, c: Counters, e: Execution) {
    && (l.perMinute > 0 ==> Get(c.perMinute, e.now / 60) < l.perMinute)
    && (l.perHour > 0 ==> Get(c.perHour, e.now / 3600) < l.perHour)
    && (l.perSenderHour > 0 && e.sender != [] ==> Get(SenderCounts(c, e.sender), e.now / 3600) < l.perSenderHour)
  }

  /** What a check leaves behind: an empty table for a sender it looked up in vain. */
  function Checked(l: Limits, c: Counters, e: Execution): Counters {
    if && (l.perMinute > 0 ==> Get(c.perMinute, e.now / 60) < l.perMinute)
       && (l.perHour > 0 ==> Get(c.perHour, e.now / 3600) < l.perHour)
       && l.perSenderHour > 0 && e.sender != [] && e.sender !in c.perSender
    then c.(perSender := c.perSender[e.sender := map[]])
    else c
  }

  function WithSender(perSender: map<Bytes, Counts>, e: Execution): map<Bytes, Counts> {
    if e.sender == [] then perSender
    else perSender[e.sender := Increment(if e.sender in perSender then perSender[e.sender] else map[], e.now / 3600)]
  }

  /** Senders of whom nothing is left are dropped altogether. */
  function PruneSenders(perSender: map<Bytes, Counts>, oldest: int): map<Bytes, Counts> {
    PruneSome(perSender, oldest, perSender.Keys)
  }

  function PruneSome(perSender: map<Bytes, Counts>, oldest: int, senders: set<Bytes>): map<Bytes, Counts> {
    map sender | sender in senders && sender in perSender && Prune(perSender[sender], oldest) != map[] ::
      Prune(perSender[sender], oldest)
  }

  lemma PruneNone(perSender: map<Bytes, Counts>, oldest: int)
    ensures PruneSome(perSender, oldest, {}) == map[]
  {
  }

  lemma PruneOneMore(perSender: map<Bytes, Counts>, oldest: int, senders: set<Bytes>, sender: Bytes)
    requires sender in perSender && sender !in senders
    ensures PruneSome(perSender, oldest, senders + {sender})
         == if Prune(perSender[sender], oldest) == map[] then PruneSome(perSender, oldest, senders)
            else PruneSome(perSender, oldest, senders)[sender := Prune(perSender[sender], oldest)]
  {
    hide Prune;
  }

  /** `RecordExecution`. */
  function Record(c: Counters, e: Execution): Counters {
    Counters(Prune(Increment(c.perMinute, e.now / 60), OldestMinute(e.now)),
             Prune(Increment(c.perHour, e.now / 3600), OldestHour(e.now)),
             PruneSenders(WithSender(c.perSender, e), OldestHour(e.now)))
  }

  class Limiter {
    var perMinuteCounts: Counts
    var perHourCounts: Counts
    var perSenderCounts: map<Bytes, Counts>

    constructor ()
      ensures Current() == NO_COUNTERS
    {
      perMinuteCounts := map[];
      perHourCounts := map[];
      perSenderCounts := map[];
    }

    function Current(): Counters
      reads this
    {
      Counters(perMinuteCounts, perHourCounts, perSenderCounts)
    }

    method CheckRateLimits(l: Limits, e: Execution) returns (admitted: bool)
      modifies this
      ensures admitted == Admits(l, old(Current()), e) && Current() == Checked(l, old(Current()), e)
    {
      var currentMinute, currentHour := e.now / 60, e.now / 3600;
      if l.perMinute > 0 && Get(perMinuteCounts, currentMinute) >= l.perMinute {
        return false;
      }
      if l.perHour > 0 && Get(perHourCounts, currentHour) >= l.perHour {
        return false;
      }
      if l.perSenderHour > 0 && e.sender != [] {
        if e.sender !in perSenderCounts {
          perSenderCounts := perSenderCounts[e.sender := map[]];
        }
        if Get(perSenderCounts[e.sender], currentHour) >= l.perSenderHour {
          return false;
        }
      }
      admitted := true;
    }

    /** Deletes the old buckets of one table. */
    method DeleteOlder(counts: Counts, oldest: int) returns (kept: Counts)
      ensures kept == Prune(counts, oldest)
    {
      kept := counts;
      var todo := counts.Keys;
      ghost var done: set<int> := {};
      while true
        invariant todo !! done && todo + done == counts.Keys
        invariant kept == map b | b in counts && (b !in done || b >= oldest) :: counts[b]
        decreases |todo|
      {
        if bucket :| bucket in todo {
          todo, done := todo - {bucket}, done + {bucket};
          if bucket < oldest {
            kept := kept - {bucket};
          }
        } else {
          break;
        }
      }
    }

    method RecordExecution(e: Execution)
      modifies this
      ensures Current() == Record(old(Current()), e)
    {
      hide Prune, Increment;
      var currentMinute, currentHour := e.now / 60, e.now / 3600;
      perMinuteCounts := Increment(perMinuteCounts, currentMinute);
      perHourCounts := Increment(perHourCounts, currentHour);
      if e.sender != [] {
        var counts := if e.sender in perSenderCounts then perSenderCounts[e.sender] else map[];
        perSenderCounts := perSenderCounts[e.sender := Increment(counts, currentHour)];
      }
      perMinuteCounts := DeleteOlder(perMinuteCounts, OldestMinute(e.now));
      perHourCounts := DeleteOlder(perHourCounts, OldestHour(e.now));
      perSenderCounts := DeleteOldSenders(perSenderCounts, OldestHour(e.now));
    }

    method DeleteOldSenders(perSender: map<Bytes, Counts>, oldest: int) returns (kept: map<Bytes, Counts>)
      ensures kept == PruneSenders(perSender, oldest)
    {
      hide Prune, PruneSome;
      kept := map[];
      PruneNone(perSender, oldest);
      var todo := perSender.Keys;
      ghost var done: set<Bytes> := {};
      while todo != {}
        invariant todo !! done && todo + done == perSender.Keys
        invariant kept == PruneSome(perSender, oldest, done)
        decreases |todo|
      {
        var sender :| sender in todo;
        PruneOneMore(perSender, oldest, done, sender);
        todo, done := todo - {sender}, done + {sender};
        var counts := DeleteOlder(perSender[sender], oldest);
        if counts != map[] {
          kept := kept[sender := counts];
        }
      }
      assert done == perSender.Keys;
    }
  }

  // ---- Runs ----

  /** Whose executions are counted: everyone's, or those of one sender. */
  type Who = Option<Bytes>

  predicate Concerns(who: Who, sender: Bytes) {
    who.Some? ==> who.value == sender
  }

  /** How many executions of the history fall into a bucket of `width` seconds. */
  function InBucket(history: seq<Execution>, who: Who, width: nat, bucket: int): nat
    requires width > 0
  {
    if history == [] then 0
    else
      var last := history[|history| - 1];
      InBucket(history[..|history| - 1], who, width, bucket)
      + if last.now / width == bucket && Concerns(who, last.sender) then 1 else 0
  }

  lemma InBucketPush(history: seq<Execution>, e: Execution, who: Who, width: nat, bucket: int)
    requires width > 0
    ensures InBucket(history + [e], who, width, bucket)
         == InBucket(history, who, width, bucket) + if e.now / width == bucket && Concerns(who, e.sender) then 1 else 0
  {
    assert (history + [e])[..|history|] == history;
  }

  /** An event is checked; when it is admitted, the handler's other conditions say whether it is executed. Executions
      run beside the matching of later events, so their recording may come any time after the check. */
  datatype Step = CheckStep(event: Execution, matches: bool) | RecordStep(execution: Execution)

  function Time(step: Step): nat {
    match step
    case CheckStep(e, _) => e.now
    case RecordStep(e) => e.now
  }

  ghost predicate Chronological(steps: seq<Step>) {
    forall i, k :: 0 <= i < k < |steps| ==> Time(steps[i]) <= Time(steps[k])
  }

  /** The counters after some steps, the recorded executions, and the senders of those not recorded yet. */
  datatype Run = Run(counters: Counters, executed: seq<Execution>, pending: multiset<Bytes>)

  function Advance(l: Limits, r: Run, step: Step): Run {
    match step
    case CheckStep(e, matches) =>
      Run(Checked(l, r.counters, e), r.executed,
          if Admits(l, r.counters, e) && matches then r.pending + multiset{e.sender} else r.pending)
    case RecordStep(e) => Run(Record(r.counters, e), r.executed + [e], r.pending - multiset{e.sender})
  }

  function RunAll(l: Limits, steps: seq<Step>): Run {
    if steps == [] then Run(NO_COUNTERS, [], multiset{})
    else Advance(l, RunAll(l, steps[..|steps| - 1]), steps[|steps| - 1])
  }

  function LastTime(steps: seq<Step>): nat {
    if steps == [] then 0 else Time(steps[|steps| - 1])
  }

  /** The counters of all buckets that are not older than the last cutoff are the counts over the whole history. */
  ghost predicate Agrees(c: Counters, history: seq<Execution>, now: int) {
    && (forall m :: m >= OldestMinute(now) ==> Get(c.perMinute, m) == InBucket(history, None, 60, m))
    && (forall h :: h >= OldestHour(now) ==> Get(c.perHour, h) == InBucket(history, None, 3600, h))
    && (forall s, h :: s != [] && h >= OldestHour(now) ==>
          Get(SenderCounts(c, s), h) == InBucket(history, Some(s), 3600, h))
  }

  lemma OldestIsMonotone(now: int, now': int)
    requires now <= now'
    ensures OldestMinute(now) <= OldestMinute(now') && OldestHour(now) <= OldestHour(now')
  {
  }

  lemma RecordAgrees(c: Counters, history: seq<Execution>, before: int, e: Execution)
    requires Agrees(c, history, before) && before <= e.now
    ensures Agrees(Record(c, e), history + [e], e.now)
  {
    OldestIsMonotone(before, e.now);
    hide Quotient, InBucket;
    var after := Record(c, e);
    forall m | m >= OldestMinute(e.now)
      ensures Get(after.perMinute, m) == InBucket(history + [e], None, 60, m)
    {
      InBucketPush(history, e, None, 60, m);
    }
    forall h | h >= OldestHour(e.now)
      ensures Get(after.perHour, h) == InBucket(history + [e], None, 3600, h)
    {
      InBucketPush(history, e, None, 3600, h);
    }
    forall s, h | s != [] && h >= OldestHour(e.now)
      ensures Get(SenderCounts(after, s), h) == InBucket(history + [e], Some(s), 3600, h)
    {
      InBucketPush(history, e, Some(s), 3600, h);
      SenderCount(c, e, s, h);
    }
  }

  lemma SenderCount(c: Counters, e: Execution, s: Bytes, h: int)
    requires s != [] && h >= OldestHour(e.now)
    ensures Get(SenderCounts(Record(c, e), s), h)
         == Get(SenderCounts(c, s), h) + if e.sender == s && e.now / 3600 == h then 1 else 0
  {
    hide OldestHour, OldestMinute;
    var with := WithSender(c.perSender, e);
    var kept := PruneSenders(with, OldestHour(e.now));
    if s in with && s !in kept {
      assert h !in Prune(with[s], OldestHour(e.now));
    }
  }

  lemma CheckedAgrees(l: Limits, c: Counters, history: seq<Execution>, before: int, e: Execution)
    requires Agrees(c, history, before) && before <= e.now
    ensures Agrees(Checked(l, c, e), history, e.now)
    ensures forall s, h :: Get(SenderCounts(Checked(l, c, e), s), h) == Get(SenderCounts(c, s), h)
  {
    OldestIsMonotone(before, e.now);
    hide OldestMinute, OldestHour, InBucket;
  }

  /** A check only leaves something behind for a known sender without a table when it gets as far as the sender's limit:
      an empty table, which no count can see. */
  lemma CheckedLeaves(l: Limits, c: Counters, e: Execution)
    ensures var after := Checked(l, c, e);
            if && Admits(Limits(l.perMinute, l.perHour, 0), c, e)
               && l.perSenderHour > 0 && e.sender != [] && e.sender !in c.perSender then
              after == Counters(c.perMinute, c.perHour, c.perSender[e.sender := map[]])
            else after == c
    ensures forall s, h :: Get(SenderCounts(Checked(l, c, e), s), h) == Get(SenderCounts(c, s), h)
  {
  }

  /** With a clock that does not run backwards, and whatever comes between a check and the recording of its execution,
      pruning loses nothing that a later check could ask for. */
  lemma {:induction false} PruningIsSafe(l: Limits, steps: seq<Step>)
    requires Chronological(steps)
    ensures Agrees(RunAll(l, steps).counters, RunAll(l, steps).executed, LastTime(steps))
  {
    hide Agrees, Record, Admits, Checked;
    if steps == [] {
      NothingAgrees();
    } else {
      var front := steps[..|steps| - 1];
      PruningIsSafe(l, front);
      var r := RunAll(l, front);
      match steps[|steps| - 1]
      case CheckStep(e, _) => CheckedAgrees(l, r.counters, r.executed, LastTime(front), e);
      case RecordStep(e) => RecordAgrees(r.counters, r.executed, LastTime(front), e);
    }
  }

  lemma NothingAgrees()
    ensures Agrees(NO_COUNTERS, [], 0)
  {
  }

  /** What has ended more than two hours before an execution is gone from the tables, and no sender is left without a
      count; everything else stays. */
  lemma RecordDrops(c: Counters, e: Execution)
    requires e.now >= 7200
    ensures forall m :: m in Record(c, e).perMinute
              <==> (m in c.perMinute || m == e.now / 60) && 60 * (m + 1) > e.now - 7200
    ensures forall h :: h in Record(c, e).perHour
              <==> (h in c.perHour || h == e.now / 3600) && 3600 * (h + 1) > e.now - 7200
    ensures forall s, h :: h in SenderCounts(Record(c, e), s)
              <==> (h in SenderCounts(c, s) || (s == e.sender != [] && h == e.now / 3600)) && 3600 * (h + 1) > e.now - 7200
    ensures forall s :: s in Record(c, e).perSender ==> Record(c, e).perSender[s] != map[]
  {
    forall s, h
      ensures h in SenderCounts(Record(c, e), s)
         <==> (h in SenderCounts(c, s) || (s == e.sender != [] && h == e.now / 3600)) && h >= OldestHour(e.now)
    {
      SenderDrops(c, e, s, h);
    }
  }

  lemma SenderDrops(c: Counters, e: Execution, s: Bytes, h: int)
    ensures h in SenderCounts(Record(c, e), s)
       <==> (h in SenderCounts(c, s) || (s == e.sender != [] && h == e.now / 3600)) && h >= OldestHour(e.now)
  {
    hide OldestHour, OldestMinute;
    var with := WithSender(c.perSender, e);
    if s in with && s !in Record(c, e).perSender {
      assert h !in Prune(with[s], OldestHour(e.now));
    }
  }

  // ---- Limits ----

  /** Only executions that were admitted are recorded, and at most `k` of them are unrecorded at any time. */
  ghost predicate Overlapping(l: Limits, steps: seq<Step>, k: nat) {
    steps == [] ||
    (var front, last := steps[..|steps| - 1], steps[|steps| - 1];
     && Overlapping(l, front, k)
     && |RunAll(l, steps).pending| <= k
     && (last.RecordStep? ==> last.execution.sender in RunAll(l, front).pending))
  }

  /** No bucket holds more than `top` executions. */
  ghost predicate AtMost(history: seq<Execution>, who: Who, width: nat, top: int)
    requires width > 0
  {
    forall b :: InBucket(history, who, width, b) <= top
  }

  /** No minute, hour or hour of a sender exceeds its limit by more than `excess`. */
  ghost predicate WithinLimits(l: Limits, history: seq<Execution>, excess: nat) {
    && (l.perMinute > 0 ==> AtMost(history, None, 60, l.perMinute + excess))
    && (l.perHour > 0 ==> AtMost(history, None, 3600, l.perHour + excess))
    && (l.perSenderHour > 0 ==> forall s :: s != [] ==> AtMost(history, Some(s), 3600, l.perSenderHour + excess))
  }

  function PendingOf(pending: multiset<Bytes>, who: Who): nat {
    match who
    case None => |pending|
    case Some(s) => pending[s]
  }

  lemma PendingStep(pending: multiset<Bytes>, sender: Bytes, who: Who)
    ensures var one := if Concerns(who, sender) then 1 else 0;
            && PendingOf(pending + multiset{sender}, who) == PendingOf(pending, who) + one
            && (sender in pending ==> PendingOf(pending - multiset{sender}, who) == PendingOf(pending, who) - one)
  {
    if sender in pending {
      assert pending - multiset{sender} + multiset{sender} == pending;
    }
  }

  lemma PendingOfAll(pending: multiset<Bytes>, who: Who)
    ensures PendingOf(pending, who) <= |pending|
  {
    if who.Some? {
      assert pending == pending[who.value := 0] + multiset{}[who.value := pending[who.value]];
    }
  }

  /** Buckets keep below `top`, and those that can still grow also when everything pending is recorded in them. */
  ghost predicate Headroom(r: Run, who: Who, width: nat, top: int, now: nat)
    requires width > 0
  {
    && AtMost(r.executed, who, width, top)
    && forall b :: b >= now / width ==> InBucket(r.executed, who, width, b) + PendingOf(r.pending, who) <= top
  }

  lemma {:induction false} NothingLater(l: Limits, steps: seq<Step>, who: Who, width: nat, bucket: int)
    requires Chronological(steps) && width > 0 && bucket > LastTime(steps) / width
    ensures InBucket(RunAll(l, steps).executed, who, width, bucket) == 0
  {
    if steps != [] {
      var front := steps[..|steps| - 1];
      QuotientIsMonotone(LastTime(front), LastTime(steps), width);
      NothingLater(l, front, who, width, bucket);
      match steps[|steps| - 1]
      case CheckStep(_, _) =>
      case RecordStep(e) => InBucketPush(RunAll(l, front).executed, e, who, width, bucket);
    }
  }

  lemma QuotientIsMonotone(x: nat, y: nat, width: nat)
    requires x <= y && width > 0
    ensures x / width <= y / width
  {
    var a, b := x / width, y / width;
    if a > b {
      Product(width, a, b + 1);
      assert false;
    }
  }

  lemma Product(width: nat, a: nat, b: nat)
    requires a >= b
    ensures width * a >= width * b
  {
  }

  lemma CheckKeepsHeadroom(r: Run, r': Run, who: Who, width: nat, limit: int, k: nat, before: nat, e: Execution)
    requires width > 0 && limit > 0 && before <= e.now && k > 0
    requires Headroom(r, who, width, limit + k - 1, before)
    requires forall b :: b > e.now / width ==> InBucket(r.executed, who, width, b) == 0
    requires r'.executed == r.executed && PendingOf(r'.pending, who) <= k
    requires PendingOf(r'.pending, who) > PendingOf(r.pending, who) ==>
               InBucket(r.executed, who, width, e.now / width) < limit
    ensures Headroom(r', who, width, limit + k - 1, e.now)
  {
    QuotientIsMonotone(before, e.now, width);
    hide InBucket, PendingOf;
  }

  lemma RecordKeepsHeadroom(r: Run, r': Run, who: Who, width: nat, top: int, before: nat, e: Execution)
    requires width > 0 && before <= e.now && Headroom(r, who, width, top, before) && e.sender in r.pending
    requires r'.executed == r.executed + [e] && r'.pending == r.pending - multiset{e.sender}
    ensures Headroom(r', who, width, top, e.now)
  {
    QuotientIsMonotone(before, e.now, width);
    PendingStep(r.pending, e.sender, who);
    hide InBucket, PendingOf;
    forall b
      ensures InBucket(r'.executed, who, width, b) <= top
      ensures b >= e.now / width ==> InBucket(r'.executed, who, width, b) + PendingOf(r'.pending, who) <= top
    {
      InBucketPush(r.executed, e, who, width, b);
    }
  }

  lemma CurrentIsKept(now: nat)
    ensures now / 60 >= OldestMinute(now) && now / 3600 >= OldestHour(now)
  {
  }

  /** The limit of a kind of bucket: everyone's minutes and hours, and the hours of one sender. */
  function LimitOf(l: Limits, who: Who, width: nat): int {
    if who.Some? then if who.value != [] && width == 3600 then l.perSenderHour else 0
    else if width == 60 then l.perMinute
    else if width == 3600 then l.perHour
    else 0
  }

  /** What a check has seen are the full counts. */
  lemma AdmittedCounts(l: Limits, history: seq<Execution>, before: int, c: Counters, e: Execution, who: Who, width: nat)
    requires Agrees(c, history, before) && before <= e.now && Admits(l, c, e)
    requires width > 0 && LimitOf(l, who, width) > 0 && Concerns(who, e.sender)
    ensures InBucket(history, who, width, e.now / width) < LimitOf(l, who, width)
  {
    CurrentIsKept(e.now);
    OldestIsMonotone(before, e.now);
    hide OldestMinute, OldestHour, InBucket, SenderCounts, Get;
  }

  /** An event passes exactly when no limit has been reached by what the whole history holds of its minute, its hour
      and, for a sender that is known, the sender's hour. */
  lemma AdmitsIff(l: Limits, steps: seq<Step>, e: Execution)
    requires Chronological(steps) && LastTime(steps) <= e.now
    ensures var executed := RunAll(l, steps).executed;
            Admits(l, RunAll(l, steps).counters, e)
            <==> (&& (l.perMinute > 0 ==> InBucket(executed, None, 60, e.now / 60) < l.perMinute)
                  && (l.perHour > 0 ==> InBucket(executed, None, 3600, e.now / 3600) < l.perHour)
                  && (l.perSenderHour > 0 && e.sender != [] ==>
                        InBucket(executed, Some(e.sender), 3600, e.now / 3600) < l.perSenderHour))
  {
    PruningIsSafe(l, steps);
    CurrentIsKept(e.now);
    OldestIsMonotone(LastTime(steps), e.now);
    hide OldestMinute, OldestHour, InBucket, SenderCounts, Get, RunAll;
  }

  lemma CheckHeadroom(l: Limits, steps: seq<Step>, e: Execution, matches: bool, k: nat, who: Who, width: nat)
    requires Chronological(steps + [CheckStep(e, matches)]) && k > 0 && width > 0 && LimitOf(l, who, width) > 0
    requires Headroom(RunAll(l, steps), who, width, LimitOf(l, who, width) + k - 1, LastTime(steps))
    requires |Advance(l, RunAll(l, steps), CheckStep(e, matches)).pending| <= k
    ensures Headroom(Advance(l, RunAll(l, steps), CheckStep(e, matches)), who, width, LimitOf(l, who, width) + k - 1,
                     e.now)
  {
    hide RunAll, Headroom, Agrees, InBucket, LimitOf, Admits, Checked, Record, PendingOf;
    var r, r' := RunAll(l, steps), Advance(l, RunAll(l, steps), CheckStep(e, matches));
    ChronologicalFront(steps, CheckStep(e, matches));
    PruningIsSafe(l, steps);
    PendingStep(r.pending, e.sender, who);
    PendingOfAll(r'.pending, who);
    if PendingOf(r'.pending, who) > PendingOf(r.pending, who) {
      AdmittedCounts(l, r.executed, LastTime(steps), r.counters, e, who, width);
    }
    forall b | b > e.now / width
      ensures InBucket(r.executed, who, width, b) == 0
    {
      QuotientIsMonotone(LastTime(steps), e.now, width);
      NothingLater(l, steps, who, width, b);
    }
    CheckKeepsHeadroom(r, r', who, width, LimitOf(l, who, width), k, LastTime(steps), e);
  }

  lemma ChronologicalFront(steps: seq<Step>, step: Step)
    requires Chronological(steps + [step])
    ensures Chronological(steps) && LastTime(steps) <= Time(step)
  {
    var all := steps + [step];
    assert forall i :: 0 <= i < |steps| ==> all[i] == steps[i];
    assert all[|steps|] == step;
  }

  lemma {:induction false} KeepsHeadroom(l: Limits, steps: seq<Step>, k: nat, who: Who, width: nat)
    requires Chronological(steps) && k > 0 && Overlapping(l, steps, k)
    requires width > 0 && LimitOf(l, who, width) > 0
    ensures Headroom(RunAll(l, steps), who, width, LimitOf(l, who, width) + k - 1, LastTime(steps))
  {
    if steps != [] {
      var front, last := steps[..|steps| - 1], steps[|steps| - 1];
      assert steps == front + [last];
      hide Headroom, LimitOf, Admits, Checked, Record, Chronological;
      ChronologicalFront(front, last);
      KeepsHeadroom(l, front, k, who, width);
      match last
      case CheckStep(e, matches) => CheckHeadroom(l, front, e, matches, k, who, width);
      case RecordStep(e) =>
        RecordKeepsHeadroom(RunAll(l, front), RunAll(l, steps), who, width, LimitOf(l, who, width) + k - 1,
                            LastTime(front), e);
    }
  }

  /** No bucket ever exceeds its limit by more than the executions that were unrecorded at once, less one. So the limits
      hold when every execution is recorded before the next check, however much later than its own check that is. */
  lemma LimitsHold(l: Limits, steps: seq<Step>, k: nat)
    requires Chronological(steps) && k > 0 && Overlapping(l, steps, k)
    ensures WithinLimits(l, RunAll(l, steps).executed, k - 1)
  {
    hide RunAll, Overlapping, AtMost;
    if l.perMinute > 0 {
      KeepsHeadroom(l, steps, k, None, 60);
    }
    if l.perHour > 0 {
      KeepsHeadroom(l, steps, k, None, 3600);
    }
    forall s: Bytes | l.perSenderHour > 0 && s != []
      ensures AtMost(RunAll(l, steps).executed, Some(s), 3600, l.perSenderHour + k - 1)
    {
      KeepsHeadroom(l, steps, k, Some(s), 3600);
    }
  }

  // ---- The bound is reached ----

  /** The kinds of buckets that can be limited. */
  predicate Limited(who: Who, width: nat) {
    if who.Some? then who.value != [] && width == 3600 else width == 60 || width == 3600
  }

  /** Only one kind of bucket is limited. */
  function OnlyLimit(who: Who, width: nat, limit: int): (l: Limits)
    requires Limited(who, width)
    ensures LimitOf(l, who, width) == limit
  {
    if who.Some? then Limits(0, 0, limit) else if width == 60 then Limits(limit, 0, 0) else Limits(0, limit, 0)
  }

  function SenderOf(who: Who): Bytes {
    if who.Some? then who.value else []
  }

  /** Executions one after the other, then some checks, then the recordings of some of them, all in the same second. */
  function Burst(sender: Bytes, sequential: nat, checks: nat, recorded: nat): seq<Step>
    decreases sequential, checks, recorded
  {
    var e := Execution(0, sender);
    if recorded > 0 then Burst(sender, sequential, checks, recorded - 1) + [RecordStep(e)]
    else if checks > 0 then Burst(sender, sequential, checks - 1, 0) + [CheckStep(e, true)]
    else if sequential > 0 then Burst(sender, sequential - 1, 1, 1)
    else []
  }

  ghost predicate BurstRuns(who: Who, width: nat, limit: nat, sequential: nat, checks: nat, recorded: nat, k: nat)
    requires Limited(who, width) && recorded <= checks
  {
    var l, steps := OnlyLimit(who, width, limit), Burst(SenderOf(who), sequential, checks, recorded);
    && (forall step :: step in steps ==> Time(step) == 0)
    && Overlapping(l, steps, k)
    && InBucket(RunAll(l, steps).executed, who, width, 0) == sequential + recorded
    && RunAll(l, steps).pending == Copies(SenderOf(who), checks - recorded)
  }

  function Copies(sender: Bytes, n: nat): multiset<Bytes> {
    multiset{}[sender := n]
  }

  lemma CopiesStep(sender: Bytes, n: nat)
    ensures Copies(sender, n) + multiset{sender} == Copies(sender, n + 1)
    ensures Copies(sender, n + 1) - multiset{sender} == Copies(sender, n)
    ensures |Copies(sender, n)| == n && sender in Copies(sender, n + 1)
  {
  }

  lemma OverlappingStep(l: Limits, steps: seq<Step>, step: Step, k: nat)
    requires Overlapping(l, steps, k) && |Advance(l, RunAll(l, steps), step).pending| <= k
    requires step.RecordStep? ==> step.execution.sender in RunAll(l, steps).pending
    ensures RunAll(l, steps + [step]) == Advance(l, RunAll(l, steps), step)
    ensures Overlapping(l, steps + [step], k)
  {
    hide Advance;
    assert (steps + [step])[..|steps|] == steps;
  }

  lemma BurstChecks(who: Who, width: nat, limit: nat, sequential: nat, checks: nat, k: nat)
    requires Limited(who, width) && limit > sequential && checks < k
    requires BurstRuns(who, width, limit, sequential, checks, 0, k)
    ensures BurstRuns(who, width, limit, sequential, checks + 1, 0, k)
  {
    hide Burst, InBucket, Advance, Admits, OnlyLimit, Copies, RunAll, Overlapping, Limited;
    var l, sender := OnlyLimit(who, width, limit), SenderOf(who);
    var steps := Burst(sender, sequential, checks, 0);
    BurstStep(sender, sequential, checks);
    BurstAdmitted(who, width, limit, steps);
    CopiesStep(sender, checks);
    CopiesStep(sender, checks + 1);
    AdmittedStep(l, RunAll(l, steps), Execution(0, sender));
    OverlappingStep(l, steps, CheckStep(Execution(0, sender), true), k);
  }

  lemma AdmittedStep(l: Limits, r: Run, e: Execution)
    requires Admits(l, r.counters, e)
    ensures Advance(l, r, CheckStep(e, true)).executed == r.executed
    ensures Advance(l, r, CheckStep(e, true)).pending == r.pending + multiset{e.sender}
  {
    hide Checked, Admits;
  }

  lemma BurstAdmitted(who: Who, width: nat, limit: nat, steps: seq<Step>)
    requires Limited(who, width) && forall step :: step in steps ==> Time(step) == 0
    requires InBucket(RunAll(OnlyLimit(who, width, limit), steps).executed, who, width, 0) < limit
    ensures var l := OnlyLimit(who, width, limit);
            Admits(l, RunAll(l, steps).counters, Execution(0, SenderOf(who)))
  {
    hide InBucket, RunAll, Get;
    var l := OnlyLimit(who, width, limit);
    assert LastTime(steps) == 0;
    PruningIsSafe(l, steps);
    CurrentIsKept(0);
    if who.Some? {
      var r := RunAll(l, steps);
      assert Get(SenderCounts(r.counters, who.value), 0) == InBucket(r.executed, who, 3600, 0);
    }
  }

  lemma BurstRecords(who: Who, width: nat, limit: nat, sequential: nat, checks: nat, recorded: nat, k: nat)
    requires Limited(who, width) && recorded < checks <= k
    requires BurstRuns(who, width, limit, sequential, checks, recorded, k)
    ensures BurstRuns(who, width, limit, sequential, checks, recorded + 1, k)
  {
    hide InBucket, Record, OnlyLimit, Copies, RunAll, Overlapping;
    var steps := Burst(SenderOf(who), sequential, checks, recorded);
    var e := Execution(0, SenderOf(who));
    CopiesStep(SenderOf(who), checks - recorded - 1);
    OverlappingStep(OnlyLimit(who, width, limit), steps, RecordStep(e), k);
    InBucketPush(RunAll(OnlyLimit(who, width, limit), steps).executed, e, who, width, 0);
  }

  lemma BurstStep(sender: Bytes, sequential: nat, checks: nat)
    ensures Burst(sender, sequential, checks + 1, 0)
         == Burst(sender, sequential, checks, 0) + [CheckStep(Execution(0, sender), true)]
  {
  }

  lemma {:induction false} BurstGoesThrough(who: Who, width: nat, limit: nat, sequential: nat, checks: nat,
                                            recorded: nat, k: nat)
    requires Limited(who, width) && recorded <= checks <= k && k > 0
    requires if checks > 0 then sequential < limit else sequential <= limit
    ensures BurstRuns(who, width, limit, sequential, checks, recorded, k)
    decreases sequential, checks, recorded
  {
    hide BurstRuns;
    if recorded > 0 {
      BurstGoesThrough(who, width, limit, sequential, checks, recorded - 1, k);
      BurstRecords(who, width, limit, sequential, checks, recorded - 1, k);
    } else if checks > 0 {
      BurstGoesThrough(who, width, limit, sequential, checks - 1, 0, k);
      BurstChecks(who, width, limit, sequential, checks - 1, k);
    } else if sequential > 0 {
      BurstGoesThrough(who, width, limit, sequential - 1, 1, 1, k);
      NothingPending(who, width, limit, sequential, k);
    } else {
      NothingRuns(who, width, limit, k);
    }
  }

  lemma NothingPending(who: Who, width: nat, limit: nat, sequential: nat, k: nat)
    requires Limited(who, width) && sequential > 0 && BurstRuns(who, width, limit, sequential - 1, 1, 1, k)
    ensures BurstRuns(who, width, limit, sequential, 0, 0, k)
  {
    assert Burst(SenderOf(who), sequential, 0, 0) == Burst(SenderOf(who), sequential - 1, 1, 1);
  }

  lemma NothingRuns(who: Who, width: nat, limit: nat, k: nat)
    requires Limited(who, width)
    ensures BurstRuns(who, width, limit, 0, 0, 0, k)
  {
  }

  /** No better bound holds: for each kind of limit, every limit and every number of executions unrecorded at once there
      is such a run. */
  lemma BoundIsReached(who: Who, width: nat, limit: nat, k: nat)
    requires Limited(who, width) && limit > 0 && k > 0
    ensures var l, steps := OnlyLimit(who, width, limit), Burst(SenderOf(who), limit - 1, k, k);
            && LimitOf(l, who, width) == limit
            && Chronological(steps) && Overlapping(l, steps, k)
            && InBucket(RunAll(l, steps).executed, who, width, 0) == limit + k - 1
  {
    hide Burst, InBucket, Overlapping, RunAll;
    BurstGoesThrough(who, width, limit, limit - 1, k, k, k);
  }
}
