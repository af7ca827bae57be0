/**
 * Shared vocabulary of the MQTT client model: the client record, the
 * observable effects (calls into the paho transport, sleeps and log records),
 * the oracles that stand in for the transport's behaviour, and a few
 * functions that read facts off an effect trace.
 */
module MqttTypes {

  /** Level of a log record. */
  datatype Level = Info | Warning | Error

  /** The `rc` handed to the retry loop: a CONNACK code, or the marker
      string `init` passes when its first connect is refused. */
  datatype Rc = Code(code: int) | Marker(text: string)

  /** One logger call site of the client. */
  datatype Note =
    | Initializing                                   // "Initializing Paho MQTT Client"
    | Connecting(host: string, port: int, keepAlive: int)
    | BrokerUnavailable                              // "The MQTT Broker is not available."
    | ConnectSucceeded(rc: int)
    | CouldNotConnect(reason: Rc)
    | ClientUndefined                                // "The Client is not defined"
    | NotConnected                                   // "Can not publish message - Not connected ..."
    | CouldNotPublish                                // "Could not publish message"
    | InvalidKeys                                    // "Payload has invalid keys"
    | QueueFullRetrying                              // "Outgoing queue is full - retrying ..."
    | SendFailedRetrying                             // "Message could not be published - retrying ..."
    | Sent(mid: int, topic: string, payload: string)
    | Disconnected(rc: int)
    | UnexpectedDisconnect(rc: int)
    | Disconnecting                                  // "Disconnecting from MQTT Broker ..."

  /** A subscription: topic filter and QoS. */
  datatype Topic = Topic(name: string, qos: int)

  /** What `json.dumps` does with a payload: the serialised text, a
      TypeError (a key that is not a string, number or bool), or a
      ValueError (a circular reference). */
  datatype Dumped = Json(text: string) | TypeErrorRaised | ValueErrorRaised

  /** A payload handed to `_publish`: a presence status record, which always
      serialises, or any other document, abstracted by its `json.dumps` outcome. */
  datatype Payload = Status(offline: bool, willful: bool) | Document(dumped: Dumped)

  /** One observable effect, in the order the client performs them. */
  datatype Effect =
    | Credentials(user: string, password: string)
    | WillSet(topic: string, payload: string, qos: int)
    | Connect(host: string, port: int, keepAlive: int)
    | LoopStart
    | LoopStop
    | Subscribe(topics: seq<Topic>)
    | Publish(topic: string, payload: string, qos: int, retain: bool)
    | Unsubscribe(topic: string)
    | Disconnect
    | Sleep(ms: int)
    | Log(level: Level, note: Note)

  /** The kinds of effects, for counting. */
  datatype Kind =
    | KCredentials | KWillSet | KConnect | KLoopStart | KLoopStop | KSubscribe
    | KPublish | KUnsubscribe | KDisconnect | KSleep | KLog

  /** The client's state; `defined` says whether a paho client object exists. */
  datatype Client = Client(
    host: string,
    port: int,
    topics: seq<Topic>,
    defined: bool,
    connected: bool,
    tries: nat)

  /** Outcome of one `connect` call during the retry loop:
      - Refused: ConnectionRefusedError, swallowed;
      - Accepted: connect returned, no CONNACK arrives before the round ends;
      - AcceptedAcked: connect returned and `on_connect(rc=0)` runs during the round's sleep;
      - Raised: any other socket error, which escapes the loop after the `finally` block. */
  datatype ConnectOutcome = Refused | Accepted | AcceptedAcked | Raised

  /** Outcome of one transport `publish` call (including its `wait_for_publish`). */
  datatype SendOutcome = Delivered(mid: int) | QueueFull | SendFailed

  /** The value `random.randint(0, 1000)` may return. */
  type Jitter = j: int | 0 <= j <= 1000

  /** Oracles for the transport: per retry round, the connect outcome and the
      jitter drawn; per transport publish call of a publish chain, its outcome. */
  datatype Env = Env(
    connects: nat -> ConnectOutcome,
    jitter: nat -> Jitter,
    sends: nat -> SendOutcome)

  /** The result of an operation: new state, effect trace, and whether an
      exception escaped the operation. */
  datatype Run = Run(client: Client, trace: seq<Effect>, raised: bool)

  const KeepAlive := 60
  const DefaultQos := 2
  const MaxTries := 3
  const StatusTopic := "test/status"

  /** A freshly constructed client: no paho client yet, not connected, no tries. */
  function NewClient(host: string, port: int, topics: seq<Topic>): (c: Client)
    ensures c.topics == topics && !c.defined && !c.connected && c.tries == 0
  {
    Client(host, port, topics, false, false, 0)
  }

  function JsonBool(b: bool): string {
    if b then "true" else "false"
  }

  /** `json.dumps({"type": "status", "data": {"offline": o, "willful": w}})`. */
  function StatusJson(offline: bool, willful: bool): string {
    StatusOpening + JsonBool(offline) + WillfulKey + JsonBool(willful) + StatusClosing
  }

  const StatusOpening := "{\"type\": \"status\", \"data\": {\"offline\": "
  const WillfulKey := ", \"willful\": "
  const StatusClosing := "}}"

  /** The four presence records are told apart by their serialised text. */
  lemma StatusJsonInjective(o1: bool, w1: bool, o2: bool, w2: bool)
    requires StatusJson(o1, w1) == StatusJson(o2, w2)
    ensures o1 == o2 && w1 == w2
  {
    var p := "{\"type\": \"status\", \"data\": {\"offline\": ";
    var s1, s2 := StatusJson(o1, w1), StatusJson(o2, w2);
    assert s1[|p|] == JsonBool(o1)[0];
    assert s2[|p|] == JsonBool(o2)[0];
    assert o1 == o2;
    var q := p + JsonBool(o1) + ", \"willful\": ";
    assert s1 == q + JsonBool(w1) + "}}";
    assert s2 == q + JsonBool(w2) + "}}";
    assert s1[|q|] == JsonBool(w1)[0];
    assert s2[|q|] == JsonBool(w2)[0];
  }

  function Dumps(p: Payload): Dumped {
    match p
    case Status(o, w) => Json(StatusJson(o, w))
    case Document(d) => d
  }

  function KindOf(e: Effect): Kind {
    match e
    case Credentials(_, _) => KCredentials
    case WillSet(_, _, _) => KWillSet
    case Connect(_, _, _) => KConnect
    case LoopStart => KLoopStart
    case LoopStop => KLoopStop
    case Subscribe(_) => KSubscribe
    case Publish(_, _, _, _) => KPublish
    case Unsubscribe(_) => KUnsubscribe
    case Disconnect => KDisconnect
    case Sleep(_) => KSleep
    case Log(_, _) => KLog
  }

  /** Number of effects of kind `k` in `t`. */
  function Count(t: seq<Effect>, k: Kind): nat {
    if t == [] then 0
    else (if KindOf(t[0]) == k then 1 else 0) + Count(t[1..], k)
  }

  /** The notes logged at `level`, in order. */
  function Notes(t: seq<Effect>, level: Level): seq<Note> {
    if t == [] then []
    else (if t[0].Log? && t[0].level == level then [t[0].note] else []) + Notes(t[1..], level)
  }

  /** The sleep durations, in order. */
  function Sleeps(t: seq<Effect>): seq<int> {
    if t == [] then []
    else (if t[0].Sleep? then [t[0].ms] else []) + Sleeps(t[1..])
  }

  /** The topics unsubscribed, in order. */
  function Unsubscribes(t: seq<Effect>): seq<string> {
    if t == [] then []
    else (if t[0].Unsubscribe? then [t[0].topic] else []) + Unsubscribes(t[1..])
  }

  /** The topic names of a subscription list, in order. */
  function TopicNames(topics: seq<Topic>): (names: seq<string>)
    ensures |names| == |topics|
    ensures forall i :: 0 <= i < |topics| ==> names[i] == topics[i].name
  {
    if topics == [] then [] else [topics[0].name] + TopicNames(topics[1..])
  }

  // What each trace reading says about effects put in front of a trace.

  lemma ConsCount(e: Effect, t: seq<Effect>, k: Kind)
    ensures Count([e] + t, k) == (if KindOf(e) == k then 1 else 0) + Count(t, k)
  {
    assert ([e] + t)[1..] == t;
  }

  lemma ConsNotes(e: Effect, t: seq<Effect>, l: Level)
    ensures Notes([e] + t, l) == (if e.Log? && e.level == l then [e.note] else []) + Notes(t, l)
  {
    assert ([e] + t)[1..] == t;
  }

  lemma ConsSleeps(e: Effect, t: seq<Effect>)
    ensures Sleeps([e] + t) == (if e.Sleep? then [e.ms] else []) + Sleeps(t)
  {
    assert ([e] + t)[1..] == t;
  }

  lemma ConsUnsubscribes(e: Effect, t: seq<Effect>)
    ensures Unsubscribes([e] + t) == (if e.Unsubscribe? then [e.topic] else []) + Unsubscribes(t)
  {
    assert ([e] + t)[1..] == t;
  }

  /** A trace holding no effect of kind `k` counts none. */
  lemma {:induction false} CountAbsent(t: seq<Effect>, k: Kind)
    requires forall e :: e in t ==> KindOf(e) != k
    ensures Count(t, k) == 0
  {
    if t != [] {
      assert t[0] in t;
      CountAbsent(t[1..], k);
    }
  }

  lemma Cons2Count(a: Effect, b: Effect, t: seq<Effect>, k: Kind)
    ensures Count([a, b] + t, k) ==
      (if KindOf(a) == k then 1 else 0) + (if KindOf(b) == k then 1 else 0) + Count(t, k)
  {
    assert [a, b] + t == [a] + ([b] + t);
    ConsCount(a, [b] + t, k);
    ConsCount(b, t, k);
  }

  lemma Cons2Notes(a: Effect, b: Effect, t: seq<Effect>, l: Level)
    ensures Notes([a, b] + t, l) ==
      (if a.Log? && a.level == l then [a.note] else [])
      + (if b.Log? && b.level == l then [b.note] else []) + Notes(t, l)
  {
    assert [a, b] + t == [a] + ([b] + t);
    ConsNotes(a, [b] + t, l);
    ConsNotes(b, t, l);
  }

  /** A log record appended to a trace adds one record of its kind ... */
  lemma CountSnocLog(t: seq<Effect>, e: Effect, k: Kind)
    requires e.Log?
    ensures Count(t + [e], k) == Count(t, k) + (if k == KLog then 1 else 0)
  {
    CountAppend(t, [e], k);
    ConsCount(e, [], k);
    assert [e] + [] == [e];
  }

  /** ... no sleep ... */
  lemma SleepsSnocLog(t: seq<Effect>, e: Effect)
    requires e.Log?
    ensures Sleeps(t + [e]) == Sleeps(t)
  {
    SleepsAppend(t, [e]);
    ConsSleeps(e, []);
    assert [e] + [] == [e];
  }

  /** ... and its note at its own level. */
  lemma NotesSnocLog(t: seq<Effect>, e: Effect, l: Level)
    requires e.Log?
    ensures Notes(t + [e], l) == Notes(t, l) + (if e.level == l then [e.note] else [])
  {
    NotesAppend(t, [e], l);
    ConsNotes(e, [], l);
    assert [e] + [] == [e];
  }

  /** A transport call followed by a log record counts one call. */
  lemma PublishThenLogCount(call: Effect, log: Effect, t: seq<Effect>)
    requires call.Publish? && log.Log?
    ensures Count([call, log] + t, KPublish) == 1 + Count(t, KPublish)
  {
    Cons2Count(call, log, t, KPublish);
  }

  lemma {:induction false} CountAppend(a: seq<Effect>, b: seq<Effect>, k: Kind)
    ensures Count(a + b, k) == Count(a, k) + Count(b, k)
  {
    if a == [] {
      assert a + b == b;
    } else {
      assert (a + b)[1..] == a[1..] + b;
      CountAppend(a[1..], b, k);
    }
  }

  lemma {:induction false} NotesAppend(a: seq<Effect>, b: seq<Effect>, l: Level)
    ensures Notes(a + b, l) == Notes(a, l) + Notes(b, l)
  {
    if a == [] {
      assert a + b == b;
    } else {
      var h := if a[0].Log? && a[0].level == l then [a[0].note] else [];
      assert (a + b)[1..] == a[1..] + b;
      NotesAppend(a[1..], b, l);
      assert h + (Notes(a[1..], l) + Notes(b, l)) == (h + Notes(a[1..], l)) + Notes(b, l);
    }
  }

  lemma {:induction false} SleepsAppend(a: seq<Effect>, b: seq<Effect>)
    ensures Sleeps(a + b) == Sleeps(a) + Sleeps(b)
  {
    if a == [] {
      assert a + b == b;
    } else {
      var h := if a[0].Sleep? then [a[0].ms] else [];
      assert (a + b)[0] == a[0] && (a + b)[1..] == a[1..] + b;
      assert Sleeps(a + b) == h + Sleeps(a[1..] + b);
      SleepsAppend(a[1..], b);
      assert h + (Sleeps(a[1..]) + Sleeps(b)) == (h + Sleeps(a[1..])) + Sleeps(b);
    }
  }

  lemma {:induction false} UnsubscribesAppend(a: seq<Effect>, b: seq<Effect>)
    ensures Unsubscribes(a + b) == Unsubscribes(a) + Unsubscribes(b)
  {
    if a == [] {
      assert a + b == b;
    } else {
      var h := if a[0].Unsubscribe? then [a[0].topic] else [];
      assert (a + b)[0] == a[0] && (a + b)[1..] == a[1..] + b;
      assert Unsubscribes(a + b) == h + Unsubscribes(a[1..] + b);
      UnsubscribesAppend(a[1..], b);
      assert h + (Unsubscribes(a[1..]) + Unsubscribes(b)) == (h + Unsubscribes(a[1..])) + Unsubscribes(b);
    }
  }
}
