/**
 * `MqttClient._publish`: three guards, then one serialise-and-send attempt
 * that re-invokes itself with a smaller budget on a transient failure.
 * Transport call `k` of one publish chain has the outcome `sends(k)`.
 */
module Publisher {
  import opened MqttTypes

  /** The warning logged when a send fails transiently. */
  function RetryNote(o: SendOutcome): Note {
    if o.QueueFull? then QueueFullRetrying else SendFailedRetrying
  }

  /** `_publish(topic, payload, qos, retain, tries)`, where `k` transport
      calls of this chain have already been made. */
  function PublishChain(c: Client, topic: string, payload: Payload, qos: int, retain: bool,
                        tries: int, sends: nat -> SendOutcome, k: nat): (t: seq<Effect>)
    ensures |t| > 0
    decreases if tries < 0 then 0 else tries
  {
    if !c.defined then [Log(Error, ClientUndefined)]
    else if !c.connected then [Log(Warning, NotConnected)]
    else if tries <= 0 then [Log(Warning, CouldNotPublish)]
    else
      match Dumps(payload)
      case TypeErrorRaised => [Log(Error, InvalidKeys)]
      case ValueErrorRaised =>
        [Log(Warning, QueueFullRetrying)] + PublishChain(c, topic, payload, qos, retain, tries - 1, sends, k)
      case Json(text) =>
        var call := Publish(topic, text, qos, retain);
        match sends(k)
        case Delivered(mid) => [call, Log(Info, Sent(mid, topic, text))]
        case _ => [call, Log(Warning, RetryNote(sends(k)))] + PublishChain(c, topic, payload, qos, retain, tries - 1, sends, k + 1)
  }

  /** `_publish(topic, payload)` with its defaults: QoS 2, no retain, three tries. */
  function PublishMessage(c: Client, topic: string, payload: Payload, sends: nat -> SendOutcome): seq<Effect> {
    PublishChain(c, topic, payload, DefaultQos, false, MaxTries, sends, 0)
  }

  /** Every transport call of a chain sends the same serialised message with
      the same QoS and retain flag. */
  lemma {:induction false} EverySendCarriesTheMessage(
    c: Client, topic: string, payload: Payload, qos: int, retain: bool,
    tries: int, sends: nat -> SendOutcome, k: nat)
    requires Dumps(payload).Json?
    ensures forall e :: e in PublishChain(c, topic, payload, qos, retain, tries, sends, k) && e.Publish? ==>
      e == Publish(topic, Dumps(payload).text, qos, retain)
    decreases if tries < 0 then 0 else tries
  {
    if c.defined && c.connected && tries > 0 && !sends(k).Delivered? {
      EverySendCarriesTheMessage(c, topic, payload, qos, retain, tries - 1, sends, k + 1);
      FailedAttempt(c, topic, payload, qos, retain, tries, sends, k);
    }
  }

  /** One transiently failed attempt: a transport call, a retry warning,
      then the rest of the chain with one try less. */
  lemma FailedAttempt(c: Client, topic: string, payload: Payload, qos: int, retain: bool,
                      tries: int, sends: nat -> SendOutcome, k: nat)
    requires c.defined && c.connected && tries > 0 && Dumps(payload).Json?
    requires !sends(k).Delivered?
    ensures PublishChain(c, topic, payload, qos, retain, tries, sends, k) ==
      [Publish(topic, Dumps(payload).text, qos, retain), Log(Warning, RetryNote(sends(k)))]
      + PublishChain(c, topic, payload, qos, retain, tries - 1, sends, k + 1)
  {
  }

  /** A serialisation ValueError is caught by the queue-full handler: a retry
      warning, then the rest of the chain with one try less and no transport call. */
  lemma ValueErrorAttempt(c: Client, topic: string, payload: Payload, qos: int, retain: bool,
                          tries: int, sends: nat -> SendOutcome, k: nat)
    requires c.defined && c.connected && tries > 0 && Dumps(payload).ValueErrorRaised?
    ensures PublishChain(c, topic, payload, qos, retain, tries, sends, k) ==
      [Log(Warning, QueueFullRetrying)] + PublishChain(c, topic, payload, qos, retain, tries - 1, sends, k)
  {
  }

  /** A client that is undefined or disconnected, a spent budget and a
      payload with invalid keys each end the chain at once: a single log
      record at the level of its cause and no transport call. The guards are
      tried in that order, so the first that applies names the record. */
  lemma ChainStopsBeforeSending(c: Client, topic: string, payload: Payload, qos: int, retain: bool,
                                tries: int, sends: nat -> SendOutcome, k: nat)
    requires !c.defined || !c.connected || tries <= 0 || Dumps(payload).TypeErrorRaised?
    ensures var t := PublishChain(c, topic, payload, qos, retain, tries, sends, k);
      && |t| == 1 && t[0].Log? && Count(t, KPublish) == 0
      && t[0].level == (if !c.defined || (c.connected && tries > 0) then Error else Warning)
      && t[0].note == (if !c.defined then ClientUndefined
                       else if !c.connected then NotConnected
                       else if tries <= 0 then CouldNotPublish
                       else InvalidKeys)
  {
    var t := PublishChain(c, topic, payload, qos, retain, tries, sends, k);
    ConsCount(t[0], [], KPublish);
    assert [t[0]] + [] == t;
  }

  // Transport calls made by one step of a chain.

  lemma FailedAttemptCount(c: Client, topic: string, payload: Payload, qos: int, retain: bool,
                           tries: int, sends: nat -> SendOutcome, k: nat)
    requires c.defined && c.connected && tries > 0 && Dumps(payload).Json?
    requires !sends(k).Delivered?
    ensures Count(PublishChain(c, topic, payload, qos, retain, tries, sends, k), KPublish) ==
      1 + Count(PublishChain(c, topic, payload, qos, retain, tries - 1, sends, k + 1), KPublish)
  {
    FailedAttempt(c, topic, payload, qos, retain, tries, sends, k);
    PublishThenLogCount(Publish(topic, Dumps(payload).text, qos, retain), Log(Warning, RetryNote(sends(k))),
                        PublishChain(c, topic, payload, qos, retain, tries - 1, sends, k + 1));
  }

  lemma ValueErrorAttemptCount(c: Client, topic: string, payload: Payload, qos: int, retain: bool,
                               tries: int, sends: nat -> SendOutcome, k: nat)
    requires c.defined && c.connected && tries > 0 && Dumps(payload).ValueErrorRaised?
    ensures Count(PublishChain(c, topic, payload, qos, retain, tries, sends, k), KPublish) ==
      Count(PublishChain(c, topic, payload, qos, retain, tries - 1, sends, k), KPublish)
  {
    ValueErrorAttempt(c, topic, payload, qos, retain, tries, sends, k);
    ConsCount(Log(Warning, QueueFullRetrying), PublishChain(c, topic, payload, qos, retain, tries - 1, sends, k), KPublish);
  }

  lemma FailedAttemptNotes(c: Client, topic: string, payload: Payload, qos: int, retain: bool,
                           tries: int, sends: nat -> SendOutcome, k: nat, l: Level)
    requires c.defined && c.connected && tries > 0 && Dumps(payload).Json?
    requires !sends(k).Delivered?
    ensures Notes(PublishChain(c, topic, payload, qos, retain, tries, sends, k), l) ==
      (if l == Warning then [RetryNote(sends(k))] else [])
      + Notes(PublishChain(c, topic, payload, qos, retain, tries - 1, sends, k + 1), l)
  {
    FailedAttempt(c, topic, payload, qos, retain, tries, sends, k);
    Cons2Notes(Publish(topic, Dumps(payload).text, qos, retain), Log(Warning, RetryNote(sends(k))),
               PublishChain(c, topic, payload, qos, retain, tries - 1, sends, k + 1), l);
  }

  lemma FailedAttemptLast(c: Client, topic: string, payload: Payload, qos: int, retain: bool,
                          tries: int, sends: nat -> SendOutcome, k: nat)
    requires c.defined && c.connected && tries > 0 && Dumps(payload).Json?
    requires !sends(k).Delivered?
    ensures var t := PublishChain(c, topic, payload, qos, retain, tries, sends, k);
      var rest := PublishChain(c, topic, payload, qos, retain, tries - 1, sends, k + 1);
      t[|t| - 1] == rest[|rest| - 1]
  {
    var call := Publish(topic, Dumps(payload).text, qos, retain);
    var warn := Log(Warning, RetryNote(sends(k)));
    var rest := PublishChain(c, topic, payload, qos, retain, tries - 1, sends, k + 1);
    FailedAttempt(c, topic, payload, qos, retain, tries, sends, k);
    assert ([call, warn] + rest)[|rest| + 1] == rest[|rest| - 1];
  }

  lemma DeliveredAttemptCount(c: Client, topic: string, payload: Payload, qos: int, retain: bool,
                              tries: int, sends: nat -> SendOutcome, k: nat)
    requires c.defined && c.connected && tries > 0 && Dumps(payload).Json?
    requires sends(k).Delivered?
    ensures Count(PublishChain(c, topic, payload, qos, retain, tries, sends, k), KPublish) == 1
  {
    var call := Publish(topic, Dumps(payload).text, qos, retain);
    var sent := Log(Info, Sent(sends(k).mid, topic, Dumps(payload).text));
    DeliveredAttempt(c, topic, payload, qos, retain, tries, sends, k);
    Cons2Count(call, sent, [], KPublish);
    assert [call, sent] + [] == [call, sent];
  }

  /** A chain has no more transport calls than its budget allows. */
  lemma {:induction false} SendsWithinBudget(
    c: Client, topic: string, payload: Payload, qos: int, retain: bool,
    tries: int, sends: nat -> SendOutcome, k: nat)
    ensures Count(PublishChain(c, topic, payload, qos, retain, tries, sends, k), KPublish)
              <= (if tries < 0 then 0 else tries)
    decreases if tries < 0 then 0 else tries
  {
    if !c.defined || !c.connected || tries <= 0 || Dumps(payload).TypeErrorRaised? {
      ChainStopsBeforeSending(c, topic, payload, qos, retain, tries, sends, k);
    } else if Dumps(payload).ValueErrorRaised? {
      SendsWithinBudget(c, topic, payload, qos, retain, tries - 1, sends, k);
      ValueErrorAttemptCount(c, topic, payload, qos, retain, tries, sends, k);
    } else if sends(k).Delivered? {
      DeliveredAttemptCount(c, topic, payload, qos, retain, tries, sends, k);
    } else {
      SendsWithinBudget(c, topic, payload, qos, retain, tries - 1, sends, k + 1);
      FailedAttemptCount(c, topic, payload, qos, retain, tries, sends, k);
    }
  }

  /** The retry warnings a run of `n` transient failures starting at call `k` logs. */
  function RetryNotes(sends: nat -> SendOutcome, k: nat, n: nat): (w: seq<Note>)
    ensures |w| == n
    decreases n
  {
    if n == 0 then [] else [RetryNote(sends(k))] + RetryNotes(sends, k + 1, n - 1)
  }

  /** When every send fails transiently, a budget of `n` makes exactly `n`
      transport calls ... */
  lemma {:induction false} TransientFailuresExhaustBudget(
    c: Client, topic: string, payload: Payload, qos: int, retain: bool,
    n: nat, sends: nat -> SendOutcome, k: nat)
    requires c.defined && c.connected && Dumps(payload).Json?
    requires forall i :: k <= i < k + n ==> !sends(i).Delivered?
    ensures Count(PublishChain(c, topic, payload, qos, retain, n, sends, k), KPublish) == n
    decreases n
  {
    if n > 0 {
      TransientFailuresExhaustBudget(c, topic, payload, qos, retain, n - 1, sends, k + 1);
      FailedAttemptCount(c, topic, payload, qos, retain, n, sends, k);
    }
  }

  /** ... and the chain ends by giving up with "Could not publish message". */
  lemma {:induction false} TransientFailuresGiveUp(
    c: Client, topic: string, payload: Payload, qos: int, retain: bool,
    n: nat, sends: nat -> SendOutcome, k: nat)
    requires c.defined && c.connected && Dumps(payload).Json?
    requires forall i :: k <= i < k + n ==> !sends(i).Delivered?
    ensures var t := PublishChain(c, topic, payload, qos, retain, n, sends, k);
      t[|t| - 1] == Log(Warning, CouldNotPublish)
    decreases n
  {
    if n > 0 {
      TransientFailuresGiveUp(c, topic, payload, qos, retain, n - 1, sends, k + 1);
      FailedAttemptLast(c, topic, payload, qos, retain, n, sends, k);
    }
  }

  /** ... and the warnings it logs are the `n` retry warnings, in the order
      of the failures, followed by exactly one "Could not publish message" ... */
  lemma {:induction false} TransientFailuresWarnInOrder(
    c: Client, topic: string, payload: Payload, qos: int, retain: bool,
    n: nat, sends: nat -> SendOutcome, k: nat)
    requires c.defined && c.connected && Dumps(payload).Json?
    requires forall i :: k <= i < k + n ==> !sends(i).Delivered?
    ensures Notes(PublishChain(c, topic, payload, qos, retain, n, sends, k), Warning) == RetryNotes(sends, k, n) + [CouldNotPublish]
    decreases n
  {
    if n == 0 {
      var last := Log(Warning, CouldNotPublish);
      ConsNotes(last, [], Warning);
      assert [last] + [] == PublishChain(c, topic, payload, qos, retain, n, sends, k);
    } else {
      TransientFailuresWarnInOrder(c, topic, payload, qos, retain, n - 1, sends, k + 1);
      FailedAttemptNotes(c, topic, payload, qos, retain, n, sends, k, Warning);
      var head := [RetryNote(sends(k))];
      var tail := RetryNotes(sends, k + 1, n - 1);
      assert RetryNotes(sends, k, n) == head + tail;
      assert head + (tail + [CouldNotPublish]) == (head + tail) + [CouldNotPublish];
    }
  }

  /** ... and nothing is logged at info level, since no send succeeds. */
  lemma {:induction false} TransientFailuresLogNoInfo(
    c: Client, topic: string, payload: Payload, qos: int, retain: bool,
    n: nat, sends: nat -> SendOutcome, k: nat)
    requires c.defined && c.connected && Dumps(payload).Json?
    requires forall i :: k <= i < k + n ==> !sends(i).Delivered?
    ensures Notes(PublishChain(c, topic, payload, qos, retain, n, sends, k), Info) == []
    decreases n
  {
    if n == 0 {
      var last := Log(Warning, CouldNotPublish);
      ConsNotes(last, [], Info);
      assert [last] + [] == PublishChain(c, topic, payload, qos, retain, n, sends, k);
    } else {
      TransientFailuresLogNoInfo(c, topic, payload, qos, retain, n - 1, sends, k + 1);
      FailedAttemptNotes(c, topic, payload, qos, retain, n, sends, k, Info);
    }
  }

  /** Calls `k` to `k + n - 1` all fail transiently. */
  predicate FailRun(sends: nat -> SendOutcome, k: nat, n: nat)
    decreases n
  {
    n == 0 || (!sends(k).Delivered? && FailRun(sends, k + 1, n - 1))
  }

  lemma {:induction false} FailRunAll(sends: nat -> SendOutcome, k: nat, n: nat)
    requires forall i :: k <= i < k + n ==> !sends(i).Delivered?
    ensures FailRun(sends, k, n)
    decreases n
  {
    if n > 0 {
      FailRunAll(sends, k + 1, n - 1);
    }
  }

  lemma {:induction false} DeliveryCallCount(
    c: Client, topic: string, payload: Payload, qos: int, retain: bool,
    n: nat, sends: nat -> SendOutcome, k: nat, j: nat)
    requires c.defined && c.connected && Dumps(payload).Json?
    requires j < n && sends(k + j).Delivered? && FailRun(sends, k, j)
    ensures Count(PublishChain(c, topic, payload, qos, retain, n, sends, k), KPublish) == j + 1
    decreases j
  {
    if j == 0 {
      DeliveredAttemptCount(c, topic, payload, qos, retain, n, sends, k);
    } else {
      DeliveryCallCount(c, topic, payload, qos, retain, n - 1, sends, k + 1, j - 1);
      FailedAttemptCount(c, topic, payload, qos, retain, n, sends, k);
    }
  }

  lemma {:induction false} DeliveryEndsSent(
    c: Client, topic: string, payload: Payload, qos: int, retain: bool,
    n: nat, sends: nat -> SendOutcome, k: nat, j: nat, mid: int)
    requires c.defined && c.connected && Dumps(payload).Json?
    requires j < n && sends(k + j) == Delivered(mid) && FailRun(sends, k, j)
    ensures var t := PublishChain(c, topic, payload, qos, retain, n, sends, k);
      t[|t| - 1] == Log(Info, Sent(mid, topic, Dumps(payload).text))
    decreases j
  {
    if j == 0 {
      DeliveredAttempt(c, topic, payload, qos, retain, n, sends, k);
    } else {
      DeliveryEndsSent(c, topic, payload, qos, retain, n - 1, sends, k + 1, j - 1, mid);
      FailedAttemptLast(c, topic, payload, qos, retain, n, sends, k);
    }
  }

  /** A delivered send ends the chain with the transport call and its
      message id. */
  lemma DeliveredAttempt(c: Client, topic: string, payload: Payload, qos: int, retain: bool,
                         tries: int, sends: nat -> SendOutcome, k: nat)
    requires c.defined && c.connected && tries > 0 && Dumps(payload).Json?
    requires sends(k).Delivered?
    ensures PublishChain(c, topic, payload, qos, retain, tries, sends, k) ==
      [Publish(topic, Dumps(payload).text, qos, retain), Log(Info, Sent(sends(k).mid, topic, Dumps(payload).text))]
  {
  }

  /** The first delivered send ends the chain: if call `k + j` is the first
      to succeed and `j` is within the budget, exactly `j + 1` calls are made
      and the chain ends by logging the message id. */
  lemma {:induction false} DeliveryStopsRetrying(
    c: Client, topic: string, payload: Payload, qos: int, retain: bool,
    n: nat, sends: nat -> SendOutcome, k: nat, j: nat)
    requires c.defined && c.connected && Dumps(payload).Json?
    requires j < n && sends(k + j).Delivered?
    requires forall i :: k <= i < k + j ==> !sends(i).Delivered?
    ensures var t := PublishChain(c, topic, payload, qos, retain, n, sends, k);
      && Count(t, KPublish) == j + 1
      && t[|t| - 1] == Log(Info, Sent(sends(k + j).mid, topic, Dumps(payload).text))
    decreases j
  {
    FailRunAll(sends, k, j);
    DeliveryCallCount(c, topic, payload, qos, retain, n, sends, k, j);
    DeliveryEndsSent(c, topic, payload, qos, retain, n, sends, k, j, sends(k + j).mid);
  }

  /** ... and before it the chain warns once per failed send, in order, and
      never gives up. */
  lemma {:induction false} DeliveryWarnsPerFailure(
    c: Client, topic: string, payload: Payload, qos: int, retain: bool,
    n: nat, sends: nat -> SendOutcome, k: nat, j: nat)
    requires c.defined && c.connected && Dumps(payload).Json?
    requires j < n && sends(k + j).Delivered?
    requires forall i :: k <= i < k + j ==> !sends(i).Delivered?
    ensures Notes(PublishChain(c, topic, payload, qos, retain, n, sends, k), Warning) == RetryNotes(sends, k, j)
    decreases j
  {
    if j == 0 {
      var call := Publish(topic, Dumps(payload).text, qos, retain);
      var sent := Log(Info, Sent(sends(k).mid, topic, Dumps(payload).text));
      DeliveredAttempt(c, topic, payload, qos, retain, n, sends, k);
      Cons2Notes(call, sent, [], Warning);
      assert [call, sent] + [] == [call, sent];
    } else {
      DeliveryWarnsPerFailure(c, topic, payload, qos, retain, n - 1, sends, k + 1, j - 1);
      FailedAttemptNotes(c, topic, payload, qos, retain, n, sends, k, Warning);
    }
  }

  /** A payload whose serialisation raises ValueError lands in the
      queue-full handler: the budget is spent on retry warnings without a
      single transport call. */
  lemma {:induction false} SerialiseValueErrorNeverSends(
    c: Client, topic: string, payload: Payload, qos: int, retain: bool,
    n: nat, sends: nat -> SendOutcome, k: nat)
    requires c.defined && c.connected && Dumps(payload).ValueErrorRaised?
    ensures var t := PublishChain(c, topic, payload, qos, retain, n, sends, k);
      && Count(t, KPublish) == 0
      && Notes(t, Warning) == seq(n, _ => QueueFullRetrying) + [CouldNotPublish]
      && t[|t| - 1] == Log(Warning, CouldNotPublish)
    decreases n
  {
    var t := PublishChain(c, topic, payload, qos, retain, n, sends, k);
    if n == 0 {
      assert t == [Log(Warning, CouldNotPublish)];
      ConsNotes(Log(Warning, CouldNotPublish), [], Warning);
    } else {
      SerialiseValueErrorNeverSends(c, topic, payload, qos, retain, n - 1, sends, k);
      var rest := PublishChain(c, topic, payload, qos, retain, n - 1, sends, k);
      ConsCount(Log(Warning, QueueFullRetrying), rest, KPublish);
      ConsNotes(Log(Warning, QueueFullRetrying), rest, Warning);
      assert [QueueFullRetrying] + seq(n - 1, _ => QueueFullRetrying) == seq(n, _ => QueueFullRetrying);
    }
  }
}
