/** The retry counters (retry.go): how often a retry receipt is sent, and how often a message is sent again. */
module Retries {
  import opened Bytes

  const MAX_INT64 := 0x7FFF_FFFF_FFFF_FFFF
  const MIN_INT64 := -0x8000_0000_0000_0000

  /** Go's `int`, 64 bits wide. */
  type Int64 = x: int | MIN_INT64 <= x <= MAX_INT64

  type Counters = map<Bytes, Int64>

  function Count(counters: Counters, id: Bytes): Int64 {
    if id in counters then counters[id] else 0
  }

  /** `x + 1`: after the largest integer comes the smallest. */
  function Next(x: Int64): Int64 {
    if x == MAX_INT64 then MIN_INT64 else x + 1
  }

  const MAX_SENT_RECEIPT := 4
  const FIRST_DROPPED_RESEND := 10

  // ---- Receipts sent for incoming messages ----

  /** The count after one more failure of a message that itself says it is its `inMessage`-th retry. */
  function NextCount(counters: Counters, id: Bytes, inMessage: Int64): Int64 {
    if Next(Count(counters, id)) == 1 && inMessage > 0 then Next(inMessage) else Next(Count(counters, id))
  }

  /** A message that could not be decrypted, and the retry count it carries. */
  datatype Failure = Failure(id: Bytes, inMessage: Int64)

  /** The counters, and the receipts sent so far by message and count. */
  datatype Receipts = Receipts(counters: Counters, sent: seq<(Bytes, Int64)>)

  function Fail(r: Receipts, f: Failure): Receipts {
    var count := NextCount(r.counters, f.id, f.inMessage);
    Receipts(r.counters[f.id := count], if count > MAX_SENT_RECEIPT then r.sent else r.sent + [(f.id, count)])
  }

  function FailAll(failures: seq<Failure>): Receipts {
    if failures == [] then Receipts(map[], [])
    else Fail(FailAll(failures[..|failures| - 1]), failures[|failures| - 1])
  }

  /** The counts of the receipts sent for one message, in the order in which they were assigned. */
  function CountsOf(sent: seq<(Bytes, Int64)>, id: Bytes): (counts: seq<Int64>) {
    if sent == [] then []
    else if sent[|sent| - 1].0 == id then CountsOf(sent[..|sent| - 1], id) + [sent[|sent| - 1].1]
    else CountsOf(sent[..|sent| - 1], id)
  }

  function CountsAfter(failures: seq<Failure>, id: Bytes): seq<Int64> {
    CountsOf(FailAll(failures).sent, id)
  }

  /** The retry counts that the failures of one message carried. */
  function InMessages(failures: seq<Failure>, id: Bytes): seq<Int64> {
    if failures == [] then []
    else if failures[|failures| - 1].id == id then
      InMessages(failures[..|failures| - 1], id) + [failures[|failures| - 1].inMessage]
    else InMessages(failures[..|failures| - 1], id)
  }

  /** How many retries had happened before the run, as far as the first failure of the message tells. */
  function Start(failures: seq<Failure>, id: Bytes): nat {
    if InMessages(failures, id) != [] && InMessages(failures, id)[0] > 0 then InMessages(failures, id)[0] else 0
  }

  /** All retries of a message, before the run and in it. */
  function Total(failures: seq<Failure>, id: Bytes): nat {
    Start(failures, id) + |InMessages(failures, id)|
  }

  function Min(x: int, y: int): int {
    if x <= y then x else y
  }

  /** The counts from `start + 1` up to `total`, but none above four. */
  function Ascending(start: nat, total: nat): seq<int> {
    if start < Min(total, MAX_SENT_RECEIPT) then
      seq(Min(total, MAX_SENT_RECEIPT) - start, i requires i >= 0 => start + 1 + i)
    else []
  }

  lemma AscendingStep(start: nat, total: nat)
    requires start <= total
    ensures Ascending(start, total + 1)
         == if total < MAX_SENT_RECEIPT then Ascending(start, total) + [total + 1] else Ascending(start, total)
  {
  }

  lemma NothingAscends(start: nat)
    ensures Ascending(start, start) == []
  {
  }

  /** What the last failure adds to the failures and receipts of a message. */
  lemma FailStep(failures: seq<Failure>, id: Bytes)
    requires failures != []
    ensures var front, last := failures[..|failures| - 1], failures[|failures| - 1];
            var count := NextCount(FailAll(front).counters, id, last.inMessage);
            if last.id != id then
              && InMessages(failures, id) == InMessages(front, id) && CountsAfter(failures, id) == CountsAfter(front, id)
              && Count(FailAll(failures).counters, id) == Count(FailAll(front).counters, id)
            else
              && InMessages(failures, id) == InMessages(front, id) + [last.inMessage]
              && Count(FailAll(failures).counters, id) == count
              && CountsAfter(failures, id)
                 == CountsAfter(front, id) + if count <= MAX_SENT_RECEIPT then [count] else []
  {
    var front, last := failures[..|failures| - 1], failures[|failures| - 1];
    var sent, count := FailAll(front).sent, NextCount(FailAll(front).counters, last.id, last.inMessage);
    assert (sent + [(last.id, count)])[..|sent|] == sent;
  }

  /** Until the counter wraps, it is the number of retries, and the receipts carry the counts up to four in order. */
  lemma {:induction false} ReceiptCounts(failures: seq<Failure>, id: Bytes)
    requires Total(failures, id) <= MAX_INT64
    ensures Count(FailAll(failures).counters, id) == Total(failures, id)
    ensures CountsAfter(failures, id) == Ascending(Start(failures, id), Total(failures, id))
  {
    if failures != [] {
      var front, last := failures[..|failures| - 1], failures[|failures| - 1];
      FailStep(failures, id);
      hide FailAll, CountsAfter, InMessages, Ascending;
      assert InMessages(front, id) == [] ==> Total(front, id) == 0;
      ReceiptCounts(front, id);
      if last.id == id {
        AscendingStep(Start(failures, id), Total(failures, id) - 1);
        if InMessages(front, id) == [] {
          NothingAscends(0);
          NothingAscends(Start(failures, id));
        }
      }
    }
  }

  /** When the counter has wrapped, a receipt with a negative count was sent, and every failure sends another. */
  lemma {:induction false} ReceiptsAfterWrap(failures: seq<Failure>, id: Bytes)
    requires Total(failures, id) > MAX_INT64
    ensures MIN_INT64 in CountsAfter(failures, id)
    ensures Total(failures, id) <= MAX_INT64 + 5 ==>
              && Count(FailAll(failures).counters, id) == MIN_INT64 + Total(failures, id) - MAX_INT64 - 1
              && |CountsAfter(failures, id)|
                 == MAX_SENT_RECEIPT - Min(Start(failures, id), MAX_SENT_RECEIPT) + Total(failures, id) - MAX_INT64
    ensures Total(failures, id) > MAX_INT64 + 5 ==> |CountsAfter(failures, id)| > MAX_SENT_RECEIPT
  {
    var front, last := failures[..|failures| - 1], failures[|failures| - 1];
    FailStep(failures, id);
    assert last.id == id ==> Count(FailAll(failures).counters, id) == NextCount(FailAll(front).counters, id, last.inMessage);
    hide FailAll, CountsAfter, InMessages;
    if Total(front, id) > MAX_INT64 {
      ReceiptsAfterWrap(front, id);
    } else {
      ReceiptCounts(front, id);
    }
  }

  /** For every run: the receipts of a message carry counts between 1 and 4 exactly when its retries fit into an
      integer. The peer chooses the number they start from. */
  lemma ReceiptCountsIff(failures: seq<Failure>, id: Bytes)
    ensures (forall count :: count in CountsAfter(failures, id) ==> 1 <= count <= 4)
       <==> Total(failures, id) <= MAX_INT64
  {
    hide CountsAfter, InMessages;
    if Total(failures, id) <= MAX_INT64 {
      ReceiptCounts(failures, id);
    } else {
      ReceiptsAfterWrap(failures, id);
    }
  }

  /** At most four receipts are sent for a message exactly until failures after a wrap have made up for the retries
      before the run, which took their share of the four. */
  lemma AtMostFourReceiptsIff(failures: seq<Failure>, id: Bytes)
    ensures |CountsAfter(failures, id)| <= 4
       <==> Total(failures, id) <= MAX_INT64 + Min(Start(failures, id), 4)
  {
    hide CountsAfter, InMessages;
    if Total(failures, id) <= MAX_INT64 {
      ReceiptCounts(failures, id);
    } else {
      ReceiptsAfterWrap(failures, id);
    }
  }

  /** For example: a message that says it is at the largest retry count gets a receipt with the smallest. */
  lemma WrappedReceipt(id: Bytes)
    ensures CountsAfter([Failure(id, MAX_INT64)], id) == [MIN_INT64]
  {
    FailStep([Failure(id, MAX_INT64)], id);
    assert [Failure(id, MAX_INT64)][..0] == [];
  }

  // ---- Messages sent again on request ----

  /** One request more from a requester for a message (`key`), and whether it passes the guard. */
  function Request(counters: Counters, key: Bytes): (Counters, bool) {
    var count := Next(Count(counters, key));
    (counters[key := count], count < FIRST_DROPPED_RESEND)
  }

  function RequestAll(keys: seq<Bytes>): (Counters, seq<Bytes>) {
    if keys == [] then (map[], [])
    else
      var (counters, resent) := RequestAll(keys[..|keys| - 1]);
      var key := keys[|keys| - 1];
      var (counters', pass) := Request(counters, key);
      (counters', if pass then resent + [key] else resent)
  }

  lemma CountPush(s: seq<Bytes>, x: Bytes, key: Bytes)
    ensures multiset(s + [x])[key] == multiset(s)[key] + if x == key then 1 else 0
  {
  }

  /** Every request is counted and the first nine of each requester and message pass; more than nine pass exactly
      when there are so many that the counter wraps. */
  lemma {:induction false} NineResends(keys: seq<Bytes>, key: Bytes)
    ensures var (counters, resent) := RequestAll(keys);
            && (multiset(keys)[key] <= MAX_INT64 ==>
                  Count(counters, key) == multiset(keys)[key] && multiset(resent)[key] == Min(multiset(keys)[key], 9))
            && (multiset(resent)[key] <= 9 <==> multiset(keys)[key] <= MAX_INT64)
  {
    if keys != [] {
      var front, x := keys[..|keys| - 1], keys[|keys| - 1];
      NineResends(front, key);
      assert keys == front + [x];
      CountPush(front, x, key);
      CountPush(RequestAll(front).1, x, key);
    }
  }

  class Client {
    var messageRetries: Counters
    var incomingRetryRequestCounter: Counters

    constructor ()
      ensures messageRetries == map[] && incomingRetryRequestCounter == map[]
    {
      messageRetries := map[];
      incomingRetryRequestCounter := map[];
    }

    /** The counting part of `sendRetryReceipt`: whether a receipt is sent, and its count. */
    method SendRetryReceipt(id: Bytes, retryCountInMsg: Int64) returns (send: bool, count: Int64)
      modifies this`messageRetries
      ensures messageRetries == Fail(Receipts(old(messageRetries), []), Failure(id, retryCountInMsg)).counters
      ensures Fail(Receipts(old(messageRetries), []), Failure(id, retryCountInMsg)).sent
           == if send then [(id, count)] else []
    {
      messageRetries := messageRetries[id := Next(Count(messageRetries, id))];
      count := messageRetries[id];
      if count == 1 && retryCountInMsg > 0 {
        count := Next(retryCountInMsg);
        messageRetries := messageRetries[id := count];
      }
      send := count < 5;
    }

    /** The counting part of `handleRetryReceipt`: whether the message is sent again. */
    method HandleRetryReceipt(key: Bytes) returns (resend: bool)
      modifies this`incomingRetryRequestCounter
      ensures (incomingRetryRequestCounter, resend) == Request(old(incomingRetryRequestCounter), key)
    {
      incomingRetryRequestCounter :=
        incomingRetryRequestCounter[key := Next(Count(incomingRetryRequestCounter, key))];
      var internalCounter := incomingRetryRequestCounter[key];
      if internalCounter >= 10 {
        return false;
      }
      resend := true;
    }
  }
}
