/**
 * The connection life cycle of `MqttClient`: `init`, the CONNACK callback
 * `on_connect`, the reconnect loop `_retry_connection`, the disconnect
 * callback `on_disconnect` and the orderly `disconnect`.
 *
 * Round `i` of a reconnect loop has the connect outcome `env.connects(i)`
 * and draws the jitter `env.jitter(i)`; the transport calls of a status
 * publish have the outcomes `env.sends`.
 */
module Connection {
  import opened MqttTypes
  import opened Backoff
  import opened Publisher

  /** The effects of one round of the reconnect loop: stop the network loop,
      connect, restart the loop when the connect returned, and sleep. */
  function RoundEffects(c: Client, o: ConnectOutcome, jitter: Jitter): (t: seq<Effect>)
    ensures |t| == (if o.Accepted? || o.AcceptedAcked? then 4 else 3)
    ensures t[0] == LoopStop && t[1] == Connect(c.host, c.port, KeepAlive)
    ensures t[|t| - 1] == Sleep(DelayMs(c.tries, jitter))
  {
    [LoopStop, Connect(c.host, c.port, KeepAlive)]
    + (if o.Accepted? || o.AcceptedAcked? then [LoopStart] else [])
    + [Sleep(DelayMs(c.tries, jitter))]
  }

  /** Rounds left in the loop `while tries < 3 and not connected`. */
  function RoundsLeft(c: Client): nat {
    if c.connected || c.tries >= MaxTries then 0 else MaxTries - c.tries
  }

  /** The loop of `_retry_connection` from round `i` on. A refused or
      accepted-but-unanswered connect costs one try; an accepted connect whose
      CONNACK arrives during the sleep runs `on_connect`, which marks the
      client connected and resets the tries before the `finally` block counts
      this round; any other socket error escapes after the `finally` block. */
  function RetryRounds(c: Client, env: Env, i: nat): (r: Run)
    decreases RoundsLeft(c)
  {
    if c.connected || c.tries >= MaxTries then Run(c, [], false)
    else
      var o := env.connects(i);
      var round := RoundEffects(c, o, env.jitter(i));
      match o
      case AcceptedAcked => Run(c.(connected := true, tries := 1), round, false)
      case Raised => Run(c.(tries := c.tries + 1), round, true)
      case _ =>
        var rest := RetryRounds(c.(tries := c.tries + 1), env, i + 1);
        Run(rest.client, round + rest.trace, rest.raised)
  }

  /** `_retry_connection(rc)`. */
  function RetryConnection(c: Client, rc: Rc, env: Env): (r: Run)
  {
    if !c.defined then Run(c, [Log(Error, ClientUndefined)], false)
    else
      var rounds := RetryRounds(c, env, 0);
      if rounds.raised then rounds
      else Run(rounds.client, rounds.trace + [Log(Warning, CouldNotConnect(rc))], false)
  }

  /** `on_connect(client, userdata, flags, rc)`. On success the client is
      marked connected before it subscribes and announces itself online, and
      its tries are reset afterwards. */
  function OnConnect(c: Client, rc: int, env: Env): (r: Run)
  {
    if rc == 0 then
      var online := c.(connected := true);
      Run(online.(tries := 0),
          [Log(Info, ConnectSucceeded(rc)), Subscribe(c.topics)]
          + PublishMessage(online, StatusTopic, Status(false, true), env.sends),
          false)
    else RetryConnection(c, Code(rc), env)
  }

  /** `on_disconnect(client, userdata, rc)`. */
  function OnDisconnect(c: Client, rc: int): (r: Run)
  {
    Run(c.(connected := false),
        [if rc == 0 then Log(Info, Disconnected(rc)) else Log(Warning, UnexpectedDisconnect(rc))],
        false)
  }

  /** One `unsubscribe` call per subscribed topic, in subscription order. */
  function UnsubscribeAll(topics: seq<Topic>): seq<Effect> {
    if topics == [] then [] else [Unsubscribe(topics[0].name)] + UnsubscribeAll(topics[1..])
  }

  /** `disconnect()`: announce a willful departure, unsubscribe, disconnect
      and stop the network loop. The client state is left to `on_disconnect`. */
  function Disconnect(c: Client, env: Env): (r: Run)
  {
    if !c.defined then Run(c, [Log(Error, ClientUndefined)], false)
    else
      Run(c,
          PublishMessage(c, StatusTopic, Status(true, true), env.sends)
          + UnsubscribeAll(c.topics)
          + [Effect.Disconnect, LoopStop, Log(Info, Disconnecting)],
          false)
  }

  /** The fixed opening of `init`: credentials, the last will announcing an
      unwilling departure, and the connect notice. */
  function InitPrelude(c: Client): seq<Effect> {
    [ Log(Info, Initializing),
      Credentials("tester", "password12"),
      WillSet(StatusTopic, StatusJson(true, false), DefaultQos),
      Log(Info, Connecting(c.host, c.port, KeepAlive)),
      Connect(c.host, c.port, KeepAlive) ]
  }

  /** `init()`, whose first connect has the outcome `first`. A refused first
      connect hands over to the reconnect loop with the marker "-"; any other
      socket error escapes. */
  function Init(c: Client, first: ConnectOutcome, env: Env): (r: Run)
  {
    var made := c.(defined := true);
    match first
    case Refused =>
      var retry := RetryConnection(made, Marker("-"), env);
      Run(retry.client, InitPrelude(c) + [Log(Info, BrokerUnavailable)] + retry.trace, retry.raised)
    case Raised => Run(made, InitPrelude(c), true)
    case _ => Run(made, InitPrelude(c) + [LoopStart], false)
  }

  // ---------------------------------------------------------------------
  // The reconnect loop

  /** The sleeps of `n` rounds starting at round `i` with `tries` tries spent. */
  function Schedule(tries: nat, jitter: nat -> Jitter, i: nat, n: nat): (s: seq<int>)
    ensures |s| == n
    decreases n
  {
    if n == 0 then [] else [DelayMs(tries, jitter(i))] + Schedule(tries + 1, jitter, i + 1, n - 1)
  }

  /** Sleep `a` of a schedule waits for the delay of its own round. */
  lemma {:induction false} ScheduleAt(tries: nat, jitter: nat -> Jitter, i: nat, n: nat, a: nat)
    requires a < n
    ensures Schedule(tries, jitter, i, n)[a] == DelayMs(tries + a, jitter(i + a))
    decreases a
  {
    if a > 0 {
      ScheduleAt(tries + 1, jitter, i + 1, n - 1, a - 1);
    }
  }

  /** The loop backs off: however the jitter falls, no sleep is shorter
      than an earlier one. */
  lemma ScheduleNeverShrinks(tries: nat, jitter: nat -> Jitter, i: nat, n: nat, a: nat, b: nat)
    requires a < b < n
    ensures Schedule(tries, jitter, i, n)[a] <= Schedule(tries, jitter, i, n)[b]
  {
    ScheduleAt(tries, jitter, i, n, a);
    ScheduleAt(tries, jitter, i, n, b);
    DelayNeverShrinks(tries + a, tries + b, jitter(i + a), jitter(i + b));
  }

  /** A round spelled out effect by effect. */
  lemma RoundShape(c: Client, o: ConnectOutcome, jitter: Jitter)
    ensures var sleep := Sleep(DelayMs(c.tries, jitter));
      RoundEffects(c, o, jitter) ==
        [LoopStop] + ([Connect(c.host, c.port, KeepAlive)] +
          (if o.Accepted? || o.AcceptedAcked? then [LoopStart] + ([sleep] + []) else [sleep] + []))
  {
  }

  /** Each round makes one connect, stops the network loop once, sleeps once,
      restarts the loop exactly when the connect returned, and does nothing else. */
  lemma RoundCounts(c: Client, o: ConnectOutcome, jitter: Jitter, k: Kind)
    ensures Count(RoundEffects(c, o, jitter), k) ==
      (if k == KConnect then 1 else 0) + (if k == KLoopStop then 1 else 0) + (if k == KSleep then 1 else 0)
      + (if k == KLoopStart && (o.Accepted? || o.AcceptedAcked?) then 1 else 0)
  {
    var connect := Connect(c.host, c.port, KeepAlive);
    var sleep := Sleep(DelayMs(c.tries, jitter));
    var restart := o.Accepted? || o.AcceptedAcked?;
    assert RoundEffects(c, o, jitter) == [LoopStop] + ([connect] + (if restart then [LoopStart, sleep] else [sleep]));
    RoundOfCount(connect, sleep, restart, k);
  }

  /** Counting the effects of a round, whatever its connect and sleep carry. */
  lemma RoundOfCount(connect: Effect, sleep: Effect, restart: bool, k: Kind)
    requires connect.Connect? && sleep.Sleep?
    ensures Count([LoopStop] + ([connect] + (if restart then [LoopStart, sleep] else [sleep])), k) ==
      (if k == KConnect then 1 else 0) + (if k == KLoopStop then 1 else 0) + (if k == KSleep then 1 else 0)
      + (if k == KLoopStart && restart then 1 else 0)
  {
    var tail := if restart then [LoopStart, sleep] else [sleep];
    ConsCount(sleep, [], k);
    if restart {
      assert [sleep] + [] == tail[1..];
      ConsCount(LoopStart, tail[1..], k);
    } else {
      assert [sleep] + [] == tail;
    }
    ConsCount(connect, tail, k);
    ConsCount(LoopStop, [connect] + tail, k);
  }


  /** A round logs nothing. */
  lemma RoundQuiet(c: Client, o: ConnectOutcome, jitter: Jitter, l: Level)
    ensures Notes(RoundEffects(c, o, jitter), l) == []
  {
    var sleep := Sleep(DelayMs(c.tries, jitter));
    RoundShape(c, o, jitter);
    ConsNotes(sleep, [], l);
    var tail := if o.Accepted? || o.AcceptedAcked? then [LoopStart] + ([sleep] + []) else [sleep] + [];
    if o.Accepted? || o.AcceptedAcked? {
      ConsNotes(LoopStart, [sleep] + [], l);
    }
    ConsNotes(Connect(c.host, c.port, KeepAlive), tail, l);
    ConsNotes(LoopStop, [Connect(c.host, c.port, KeepAlive)] + tail, l);
  }

  /** A round sleeps for the backoff of the tries spent before it. */
  lemma RoundSleeps(c: Client, o: ConnectOutcome, jitter: Jitter)
    ensures Sleeps(RoundEffects(c, o, jitter)) == [DelayMs(c.tries, jitter)]
  {
    var sleep := Sleep(DelayMs(c.tries, jitter));
    RoundShape(c, o, jitter);
    ConsSleeps(sleep, []);
    var tail := if o.Accepted? || o.AcceptedAcked? then [LoopStart] + ([sleep] + []) else [sleep] + [];
    if o.Accepted? || o.AcceptedAcked? {
      ConsSleeps(LoopStart, [sleep] + []);
    }
    ConsSleeps(Connect(c.host, c.port, KeepAlive), tail);
    ConsSleeps(LoopStop, [Connect(c.host, c.port, KeepAlive)] + tail);
  }

  /** A connect that costs a try without ending the loop. */
  predicate Unanswered(o: ConnectOutcome) {
    o.Refused? || o.Accepted?
  }

  /** The number of accepted connects among rounds `i .. i + n - 1`. */
  function Accepts(connects: nat -> ConnectOutcome, i: nat, n: nat): (a: nat)
    ensures a <= n
    decreases n
  {
    if n == 0 then 0 else (if connects(i).Accepted? then 1 else 0) + Accepts(connects, i + 1, n - 1)
  }

  /** An unanswered round is followed by the rest of the loop with one try more. */
  lemma UnansweredRound(c: Client, env: Env, i: nat)
    requires !c.connected && c.tries < MaxTries && Unanswered(env.connects(i))
    ensures var rest := RetryRounds(c.(tries := c.tries + 1), env, i + 1);
      RetryRounds(c, env, i) ==
        Run(rest.client, RoundEffects(c, env.connects(i), env.jitter(i)) + rest.trace, rest.raised)
  {
  }

  /** When no connect is answered, the loop runs until the three tries are
      spent and returns normally, still disconnected. */
  lemma {:induction false} UnansweredRoundsSpendBudget(c: Client, env: Env, i: nat)
    requires forall r :: i <= r < i + RoundsLeft(c) ==> Unanswered(env.connects(r))
    ensures var r := RetryRounds(c, env, i);
      !r.raised && r.client == c.(tries := c.tries + RoundsLeft(c))
    decreases RoundsLeft(c)
  {
    if RoundsLeft(c) > 0 {
      UnansweredRoundsSpendBudget(c.(tries := c.tries + 1), env, i + 1);
      UnansweredRound(c, env, i);
    }
  }

  /** ... making one connect and one loop stop per round ... */
  lemma {:induction false} UnansweredRoundsConnect(c: Client, env: Env, i: nat)
    requires forall r :: i <= r < i + RoundsLeft(c) ==> Unanswered(env.connects(r))
    ensures var t := RetryRounds(c, env, i).trace;
      Count(t, KConnect) == RoundsLeft(c) && Count(t, KLoopStop) == RoundsLeft(c)
    decreases RoundsLeft(c)
  {
    if RoundsLeft(c) > 0 {
      var c' := c.(tries := c.tries + 1);
      UnansweredRoundsConnect(c', env, i + 1);
      UnansweredRound(c, env, i);
      var round := RoundEffects(c, env.connects(i), env.jitter(i));
      var rest := RetryRounds(c', env, i + 1).trace;
      RoundCounts(c, env.connects(i), env.jitter(i), KConnect);
      RoundCounts(c, env.connects(i), env.jitter(i), KLoopStop);
      CountAppend(round, rest, KConnect);
      CountAppend(round, rest, KLoopStop);
    }
  }

  /** ... restarting the network loop once per connect that returned ... */
  lemma {:induction false} UnansweredRoundsRestart(c: Client, env: Env, i: nat)
    requires forall r :: i <= r < i + RoundsLeft(c) ==> Unanswered(env.connects(r))
    ensures Count(RetryRounds(c, env, i).trace, KLoopStart) == Accepts(env.connects, i, RoundsLeft(c))
    decreases RoundsLeft(c)
  {
    if RoundsLeft(c) > 0 {
      var c' := c.(tries := c.tries + 1);
      UnansweredRoundsRestart(c', env, i + 1);
      UnansweredRound(c, env, i);
      RoundCounts(c, env.connects(i), env.jitter(i), KLoopStart);
      CountAppend(RoundEffects(c, env.connects(i), env.jitter(i)), RetryRounds(c', env, i + 1).trace, KLoopStart);
    }
  }

  /** ... and sleeping the backoff schedule of the tries it spends. */
  lemma {:induction false} UnansweredRoundsSleep(c: Client, env: Env, i: nat)
    requires forall r :: i <= r < i + RoundsLeft(c) ==> Unanswered(env.connects(r))
    ensures Sleeps(RetryRounds(c, env, i).trace) == Schedule(c.tries, env.jitter, i, RoundsLeft(c))
    decreases RoundsLeft(c)
  {
    if RoundsLeft(c) > 0 {
      var c' := c.(tries := c.tries + 1);
      var round := RoundEffects(c, env.connects(i), env.jitter(i));
      var rest := RetryRounds(c', env, i + 1).trace;
      UnansweredRoundsSleep(c', env, i + 1);
      UnansweredRound(c, env, i);
      RoundSleeps(c, env.connects(i), env.jitter(i));
      SleepsAppend(round, rest);
      assert Sleeps(RetryRounds(c, env, i).trace) == Sleeps(round) + Sleeps(rest);
      assert RoundsLeft(c') == RoundsLeft(c) - 1;
      ScheduleCons(c.tries, env.jitter, i, RoundsLeft(c));
    }
  }

  /** A schedule is its first sleep followed by the schedule of the rounds after it. */
  lemma ScheduleCons(tries: nat, jitter: nat -> Jitter, i: nat, n: nat)
    requires n > 0
    ensures Schedule(tries, jitter, i, n) == [DelayMs(tries, jitter(i))] + Schedule(tries + 1, jitter, i + 1, n - 1)
  {
  }

  /** Whatever the broker does, the loop ends connected, with its budget
      spent, or by raising; it never changes who the client is. */
  lemma {:induction false} RoundsEnd(c: Client, env: Env, i: nat)
    ensures var r := RetryRounds(c, env, i);
      && (r.raised || r.client.connected || r.client.tries >= MaxTries)
      && r.client.host == c.host && r.client.port == c.port
      && r.client.topics == c.topics && r.client.defined == c.defined
    decreases RoundsLeft(c)
  {
    if !c.connected && c.tries < MaxTries && Unanswered(env.connects(i)) {
      RoundsEnd(c.(tries := c.tries + 1), env, i + 1);
    }
  }

  /** One round of a running loop and, when it was unanswered, the rounds after it. */
  lemma RoundStep(c: Client, env: Env, i: nat)
    requires !c.connected && c.tries < MaxTries
    ensures RetryRounds(c, env, i).trace ==
      RoundEffects(c, env.connects(i), env.jitter(i))
      + (if Unanswered(env.connects(i)) then RetryRounds(c.(tries := c.tries + 1), env, i + 1).trace else [])
  {
    var round := RoundEffects(c, env.connects(i), env.jitter(i));
    assert round + [] == round;
  }

  /** The loop itself logs nothing. */
  lemma {:induction false} RoundsQuiet(c: Client, env: Env, i: nat, l: Level)
    ensures Notes(RetryRounds(c, env, i).trace, l) == []
    decreases RoundsLeft(c)
  {
    if !c.connected && c.tries < MaxTries {
      var c' := c.(tries := c.tries + 1);
      var round := RoundEffects(c, env.connects(i), env.jitter(i));
      var rest := if Unanswered(env.connects(i)) then RetryRounds(c', env, i + 1).trace else [];
      RoundStep(c, env, i);
      RoundQuiet(c, env.connects(i), env.jitter(i), l);
      if Unanswered(env.connects(i)) {
        RoundsQuiet(c', env, i + 1, l);
      }
      NotesAppend(round, rest, l);
    }
  }

  /** The loop makes at most one connect per try left and never publishes or
      subscribes itself. */
  lemma {:induction false} RoundsBounded(c: Client, env: Env, i: nat)
    ensures var t := RetryRounds(c, env, i).trace;
      && Count(t, KConnect) <= RoundsLeft(c)
      && Count(t, KPublish) == 0 && Count(t, KSubscribe) == 0
    decreases RoundsLeft(c)
  {
    if !c.connected && c.tries < MaxTries {
      var c' := c.(tries := c.tries + 1);
      var round := RoundEffects(c, env.connects(i), env.jitter(i));
      var rest := if Unanswered(env.connects(i)) then RetryRounds(c', env, i + 1).trace else [];
      RoundStep(c, env, i);
      RoundCounts(c, env.connects(i), env.jitter(i), KConnect);
      RoundCounts(c, env.connects(i), env.jitter(i), KPublish);
      RoundCounts(c, env.connects(i), env.jitter(i), KSubscribe);
      if Unanswered(env.connects(i)) {
        RoundsBounded(c', env, i + 1);
      }
      CountAppend(round, rest, KConnect);
      CountAppend(round, rest, KPublish);
      CountAppend(round, rest, KSubscribe);
    }
  }

  // ---------------------------------------------------------------------
  // `_retry_connection`

  /** The retry gives up with exactly one warning carrying the `rc` it was
      handed, unless a socket error escapes, in which case it logs nothing. */
  lemma RetryWarnsUnlessRaised(c: Client, rc: Rc, env: Env)
    requires c.defined
    ensures var r := RetryConnection(c, rc, env);
      && Notes(r.trace, Warning) == (if r.raised then [] else [CouldNotConnect(rc)])
      && Notes(r.trace, Info) == [] && Notes(r.trace, Error) == []
  {
    var rounds := RetryRounds(c, env, 0);
    var warn := Log(Warning, CouldNotConnect(rc));
    RoundsQuiet(c, env, 0, Info);
    RoundsQuiet(c, env, 0, Warning);
    RoundsQuiet(c, env, 0, Error);
    if !rounds.raised {
      NotesSnocLog(rounds.trace, warn, Info);
      NotesSnocLog(rounds.trace, warn, Warning);
      NotesSnocLog(rounds.trace, warn, Error);
    }
  }

  /** Without a paho client the reconnect loop and `disconnect` make no
      transport call and change nothing: they log one error. */
  lemma UndefinedClientOnlyLogs(c: Client, rc: Rc, env: Env)
    requires !c.defined
    ensures var r := RetryConnection(c, rc, env);
      r.client == c && !r.raised && r.trace == [Log(Error, ClientUndefined)]
    ensures var r := Disconnect(c, env);
      r.client == c && !r.raised && r.trace == [Log(Error, ClientUndefined)]
  {
  }

  /** A client just constructed, before `init`, has no paho client:
      publishing, the reconnect loop and `disconnect` each only log that it
      is undefined, and the client stays as constructed, with its topics,
      disconnected and with no tries spent. */
  lemma FreshClientOnlyLogs(host: string, port: int, topics: seq<Topic>, topic: string, payload: Payload, rc: Rc, env: Env)
    ensures var c := NewClient(host, port, topics);
      && c.topics == topics && !c.connected && c.tries == 0
      && PublishMessage(c, topic, payload, env.sends) == [Log(Error, ClientUndefined)]
      && RetryConnection(c, rc, env) == Run(c, [Log(Error, ClientUndefined)], false)
      && Disconnect(c, env) == Run(c, [Log(Error, ClientUndefined)], false)
  {
    var c := NewClient(host, port, topics);
    UndefinedClientOnlyLogs(c, rc, env);
    ChainStopsBeforeSending(c, topic, payload, DefaultQos, false, MaxTries, env.sends, 0);
  }

  /** With every connect unanswered the retry spends the remaining tries,
      stays disconnected and ends with the warning. */
  lemma RetryExhausted(c: Client, rc: Rc, env: Env)
    requires c.defined
    requires forall r :: 0 <= r < RoundsLeft(c) ==> Unanswered(env.connects(r))
    ensures var r := RetryConnection(c, rc, env);
      && !r.raised && r.client == c.(tries := c.tries + RoundsLeft(c))
      && r.trace[|r.trace| - 1] == Log(Warning, CouldNotConnect(rc))
  {
    UnansweredRoundsSpendBudget(c, env, 0);
  }

  /** ... making one connect, one loop stop and one sleep per try, the sleeps
      following the backoff schedule. */
  lemma RetryExhaustedEffects(c: Client, rc: Rc, env: Env)
    requires c.defined
    requires forall r :: 0 <= r < RoundsLeft(c) ==> Unanswered(env.connects(r))
    ensures var t := RetryConnection(c, rc, env).trace;
      && Count(t, KConnect) == RoundsLeft(c) && Count(t, KLoopStop) == RoundsLeft(c)
      && Count(t, KLoopStart) == Accepts(env.connects, 0, RoundsLeft(c))
      && Sleeps(t) == Schedule(c.tries, env.jitter, 0, RoundsLeft(c))
  {
    var rounds := RetryRounds(c, env, 0);
    var warn := Log(Warning, CouldNotConnect(rc));
    UnansweredRoundsSpendBudget(c, env, 0);
    UnansweredRoundsConnect(c, env, 0);
    UnansweredRoundsRestart(c, env, 0);
    UnansweredRoundsSleep(c, env, 0);
    CountSnocLog(rounds.trace, warn, KConnect);
    CountSnocLog(rounds.trace, warn, KLoopStop);
    CountSnocLog(rounds.trace, warn, KLoopStart);
    SleepsSnocLog(rounds.trace, warn);
  }

  /** A CONNACK that arrives during the first round's sleep ends the loop
      connected with one try counted; the retry still logs that it could not
      connect. */
  lemma RetryAckedStillWarns(c: Client, rc: Rc, env: Env)
    requires c.defined && !c.connected && c.tries < MaxTries
    requires env.connects(0).AcceptedAcked?
    ensures var r := RetryConnection(c, rc, env);
      && !r.raised && r.client.connected && r.client.tries == 1
      && Notes(r.trace, Warning) == [CouldNotConnect(rc)]
  {
    RetryWarnsUnlessRaised(c, rc, env);
  }

  // ---------------------------------------------------------------------
  // `on_connect`, `on_disconnect`, `disconnect`

  /** The first effect of a status publish from a defined, connected client
      is the transport call with the serialised record. */
  lemma StatusPublishFirst(c: Client, offline: bool, willful: bool, sends: nat -> SendOutcome)
    requires c.defined && c.connected
    ensures var t := PublishMessage(c, StatusTopic, Status(offline, willful), sends);
      t[0] == Publish(StatusTopic, StatusJson(offline, willful), DefaultQos, false)
  {
    if sends(0).Delivered? {
      DeliveredAttempt(c, StatusTopic, Status(offline, willful), DefaultQos, false, MaxTries, sends, 0);
    } else {
      FailedAttempt(c, StatusTopic, Status(offline, willful), DefaultQos, false, MaxTries, sends, 0);
    }
  }

  /** A successful CONNACK marks the client connected, resets its tries,
      subscribes to its topics and then announces it online; the announcement
      differs from the last will. */
  lemma OnConnectAnnouncesOnline(c: Client, env: Env)
    requires c.defined
    ensures var r := OnConnect(c, 0, env);
      && r.client.connected && r.client.tries == 0 && !r.raised
      && r.trace[0] == Log(Info, ConnectSucceeded(0)) && r.trace[1] == Subscribe(c.topics)
      && r.trace[2] == Publish(StatusTopic, StatusJson(false, true), DefaultQos, false)
      && StatusJson(false, true) != StatusJson(true, false)
      && Count(r.trace, KSubscribe) == 1
  {
    var online := c.(connected := true);
    StatusPublishFirst(online, false, true, env.sends);
    var status := PublishMessage(online, StatusTopic, Status(false, true), env.sends);
    ChainSubscribesNothing(online, StatusTopic, Status(false, true), env.sends);
    Cons2Count(Log(Info, ConnectSucceeded(0)), Subscribe(c.topics), status, KSubscribe);
    if StatusJson(false, true) == StatusJson(true, false) {
      StatusJsonInjective(false, true, true, false);
    }
  }

  /** A refused CONNACK never subscribes or announces the client, and the
      retry it starts makes at most one connect per try left. That retry is
      handed the refusal's `rc`: unless a socket error escapes, it gives up
      with the one warning carrying that code, and logs nothing else. */
  lemma OnConnectRefusedRetries(c: Client, rc: int, env: Env)
    requires rc != 0
    ensures var t := OnConnect(c, rc, env).trace;
      && Count(t, KSubscribe) == 0 && Count(t, KPublish) == 0
      && Count(t, KConnect) <= RoundsLeft(c)
    ensures var r := OnConnect(c, rc, env);
      c.defined ==>
        && Notes(r.trace, Warning) == (if r.raised then [] else [CouldNotConnect(Code(rc))])
        && Notes(r.trace, Info) == [] && Notes(r.trace, Error) == []
  {
    var r := RetryConnection(c, Code(rc), env);
    if c.defined {
      RetryWarnsUnlessRaised(c, Code(rc), env);
    }
    if !c.defined {
      var e := Log(Error, ClientUndefined);
      assert r.trace == [] + [e];
      CountSnocLog([], e, KSubscribe);
      CountSnocLog([], e, KPublish);
      CountSnocLog([], e, KConnect);
    } else {
      var rounds := RetryRounds(c, env, 0);
      RoundsBounded(c, env, 0);
      if !rounds.raised {
        var warn := Log(Warning, CouldNotConnect(Code(rc)));
        CountSnocLog(rounds.trace, warn, KSubscribe);
        CountSnocLog(rounds.trace, warn, KPublish);
        CountSnocLog(rounds.trace, warn, KConnect);
      }
    }
  }

  /** After a disconnect callback the client no longer publishes: every
      publish is refused with the not-connected warning. A clean disconnect is
      logged at info level, any other at warning level. */
  lemma OnDisconnectStopsPublishing(c: Client, rc: int, topic: string, p: Payload, sends: nat -> SendOutcome)
    requires c.defined
    ensures var r := OnDisconnect(c, rc);
      && !r.client.connected && r.client.tries == c.tries && !r.raised
      && |r.trace| == 1 && r.trace[0].Log?
      && PublishMessage(r.client, topic, p, sends) == [Log(Warning, NotConnected)]
      && (r.trace[0].level == Info <==> rc == 0)
  {
  }

  lemma {:induction false} UnsubscribeAllNames(topics: seq<Topic>)
    ensures Unsubscribes(UnsubscribeAll(topics)) == TopicNames(topics)
  {
    if topics != [] {
      UnsubscribeAllNames(topics[1..]);
      ConsUnsubscribes(Unsubscribe(topics[0].name), UnsubscribeAll(topics[1..]));
    }
  }

  /** A publish chain consists of transport calls and log records only. */
  lemma {:induction false} ChainPublishesAndLogs(
    c: Client, topic: string, payload: Payload, qos: int, retain: bool,
    tries: int, sends: nat -> SendOutcome, k: nat)
    ensures forall e :: e in PublishChain(c, topic, payload, qos, retain, tries, sends, k) ==> e.Publish? || e.Log?
    decreases if tries < 0 then 0 else tries
  {
    if c.defined && c.connected && tries > 0 {
      match Dumps(payload)
      case TypeErrorRaised =>
      case ValueErrorRaised =>
        ChainPublishesAndLogs(c, topic, payload, qos, retain, tries - 1, sends, k);
        ValueErrorAttempt(c, topic, payload, qos, retain, tries, sends, k);
      case Json(_) =>
        if !sends(k).Delivered? {
          ChainPublishesAndLogs(c, topic, payload, qos, retain, tries - 1, sends, k + 1);
          FailedAttempt(c, topic, payload, qos, retain, tries, sends, k);
        }
    }
  }

  lemma ChainSubscribesNothing(c: Client, topic: string, payload: Payload, sends: nat -> SendOutcome)
    ensures Count(PublishMessage(c, topic, payload, sends), KSubscribe) == 0
  {
    var t := PublishMessage(c, topic, payload, sends);
    ChainPublishesAndLogs(c, topic, payload, DefaultQos, false, MaxTries, sends, 0);
    forall e | e in t
      ensures KindOf(e) != KSubscribe
    {
      assert e.Publish? || e.Log?;
    }
    CountAbsent(t, KSubscribe);
  }

  /** Publishes and logs, then unsubscribes, then the closing calls: one
      disconnect and one loop stop in all. */
  lemma ClosingCounts(status: seq<Effect>, unsubs: seq<Effect>, k: Kind)
    requires forall e :: e in status ==> e.Publish? || e.Log?
    requires forall e :: e in unsubs ==> e.Unsubscribe?
    requires k == KDisconnect || k == KLoopStop
    ensures Count(status + unsubs + [Effect.Disconnect, LoopStop, Log(Info, Disconnecting)], k) == 1
  {
    var last := Log(Info, Disconnecting);
    forall e | e in status + unsubs
      ensures KindOf(e) != k
    {
      assert e in status || e in unsubs;
    }
    CountAbsent(status + unsubs, k);
    CountAppend(status + unsubs, [Effect.Disconnect, LoopStop, last], k);
    assert [Effect.Disconnect, LoopStop, last] == [Effect.Disconnect, LoopStop] + [last];
    Cons2Count(Effect.Disconnect, LoopStop, [last], k);
    assert [last] == [last] + [];
    ConsCount(last, [], k);
  }

  /** `UnsubscribeAll` makes unsubscribe calls and nothing else. */
  lemma {:induction false} UnsubscribeAllOnly(topics: seq<Topic>)
    ensures forall e :: e in UnsubscribeAll(topics) ==> e.Unsubscribe?
  {
    if topics != [] {
      UnsubscribeAllOnly(topics[1..]);
    }
  }

  lemma {:induction false} NoUnsubscribes(t: seq<Effect>)
    requires forall e :: e in t ==> !e.Unsubscribe?
    ensures Unsubscribes(t) == []
  {
    if t != [] {
      assert t[0] in t;
      NoUnsubscribes(t[1..]);
    }
  }

  /** `disconnect` unsubscribes from every subscribed topic, in order, and
      ends by disconnecting, stopping the network loop and saying so; it
      leaves the client's state to the disconnect callback. */
  lemma DisconnectUnsubscribesAll(c: Client, env: Env)
    requires c.defined
    ensures var r := Disconnect(c, env);
      && r.client == c && !r.raised
      && Unsubscribes(r.trace) == TopicNames(c.topics)
      && r.trace[|r.trace| - 3..] == [Effect.Disconnect, LoopStop, Log(Info, Disconnecting)]
      && Count(r.trace, KDisconnect) == 1 && Count(r.trace, KLoopStop) == 1
  {
    var status := PublishMessage(c, StatusTopic, Status(true, true), env.sends);
    var unsubs := UnsubscribeAll(c.topics);
    var tail := [Effect.Disconnect, LoopStop, Log(Info, Disconnecting)];
    ChainPublishesAndLogs(c, StatusTopic, Status(true, true), DefaultQos, false, MaxTries, env.sends, 0);
    UnsubscribeAllOnly(c.topics);
    ClosingCounts(status, unsubs, KDisconnect);
    ClosingCounts(status, unsubs, KLoopStop);
    NoUnsubscribes(status);
    NoUnsubscribes(tail);
    UnsubscribeAllNames(c.topics);
    UnsubscribesAppend(status, UnsubscribeAll(c.topics));
    UnsubscribesAppend(status + UnsubscribeAll(c.topics), tail);
  }

  /** It first announces a willful departure, but only while still
      connected: once the connection has dropped, the announcement is refused. */
  lemma DisconnectAnnouncesDeparture(c: Client, env: Env)
    requires c.defined
    ensures var t := Disconnect(c, env).trace;
      t[0] == (if c.connected then Publish(StatusTopic, StatusJson(true, true), DefaultQos, false)
               else Log(Warning, NotConnected))
  {
    if c.connected {
      StatusPublishFirst(c, true, true, env.sends);
    }
  }

  // ---------------------------------------------------------------------
  // `init`

  /** `init` always sets the credentials and the last will (an unwilling
      departure) before its first connect, and leaves the client defined. */
  lemma InitWillBeforeConnect(c: Client, first: ConnectOutcome, env: Env)
    ensures var r := Init(c, first, env);
      && r.trace[1] == Credentials("tester", "password12")
      && r.trace[2] == WillSet(StatusTopic, StatusJson(true, false), DefaultQos)
      && r.trace[4] == Connect(c.host, c.port, KeepAlive)
      && r.client.defined
      && (first.Raised? ==> r.raised)
      && (first.Accepted? || first.AcceptedAcked? ==> !r.raised && r.trace[5] == LoopStart)
  {
    if first.Refused? {
      RoundsEnd(c.(defined := true), env, 0);
    }
  }

  /** A refused first connect followed by three unanswered retries: four
      connects in all, the broker reported unavailable, and the final warning
      carries the marker "-". */
  lemma InitRefusedExhausts(c: Client, env: Env)
    requires !c.connected && c.tries == 0
    requires forall r :: 0 <= r < MaxTries ==> Unanswered(env.connects(r))
    ensures var r := Init(c, Refused, env);
      && !r.raised && !r.client.connected && r.client.tries == MaxTries && r.client.defined
      && Count(r.trace, KConnect) == MaxTries + 1
      && r.trace[5] == Log(Info, BrokerUnavailable)
      && r.trace[|r.trace| - 1] == Log(Warning, CouldNotConnect(Marker("-")))
  {
    var made := c.(defined := true);
    var head := InitPrelude(c) + [Log(Info, BrokerUnavailable)];
    var retry := RetryConnection(made, Marker("-"), env);
    RetryExhausted(made, Marker("-"), env);
    RetryExhaustedEffects(made, Marker("-"), env);
    PreludeConnects(c);
    CountAppend(InitPrelude(c), [Log(Info, BrokerUnavailable)], KConnect);
    ConsCount(Log(Info, BrokerUnavailable), [], KConnect);
    assert [Log(Info, BrokerUnavailable)] + [] == [Log(Info, BrokerUnavailable)];
    CountAppend(head, retry.trace, KConnect);
  }

  /** The opening of `init` connects once. */
  lemma PreludeConnects(c: Client)
    ensures Count(InitPrelude(c), KConnect) == 1
  {
    var connect := Connect(c.host, c.port, KeepAlive);
    var t3 := [Log(Info, Connecting(c.host, c.port, KeepAlive)), connect];
    var t2 := [WillSet(StatusTopic, StatusJson(true, false), DefaultQos)] + t3;
    var t1 := [Credentials("tester", "password12")] + t2;
    ConsCount(connect, [], KConnect);
    assert [connect] + [] == t3[1..];
    ConsCount(t3[0], t3[1..], KConnect);
    ConsCount(t2[0], t3, KConnect);
    ConsCount(t1[0], t2, KConnect);
    ConsCount(Log(Info, Initializing), t1, KConnect);
    assert [Log(Info, Initializing)] + t1 == InitPrelude(c);
  }
}
