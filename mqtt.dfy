/**
 * The declared contract of the MQTT gateway output module: the topic names
 * it publishes under, the broker configuration record, and the outbound
 * message queue, which the header documents as a FIFO of records.
 */
module MqttOutput {

  // Downlink command topics and the topics their answers go to.
  const GetVersion: string := "get/version"
  const GetVersionAns: string := "result/version"
  const GetSleep: string := "get/sleeptime"
  const GetSleepAns: string := "result/sleeptime"
  const SetSleep: string := "set/sleeptime"
  const SetOta: string := "set/ota"
  const SetOtaAns: string := "result/ota"
  const SetIdentify: string := "set/identify"
  const SetResetConfig: string := "set/reset"
  const SetResetAns: string := "result/reset"
  const GetRssi: string := "get/rssi"
  const GetRssiAns: string := "result/rssi"
  const SetUserData: string := "set/data"
  const GetUserData: string := "get/data"

  // Uplink topics.
  const NodeData: string := "data"
  const LostMessages: string := "debug/lostmessages"
  const NodeStatus: string := "status"
  const GwStatus: string := "/gateway/status"

  /** The file the broker configuration is stored in. */
  const ConfigFile: string := "/mqtt.json"

  /** The commands a node can be sent. */
  const CommandTopics: seq<string> :=
    [GetVersion, GetSleep, SetSleep, SetOta, SetIdentify, SetResetConfig, GetRssi, SetUserData, GetUserData]

  /** The topics answers to commands go to. */
  const AnswerTopics: seq<string> := [GetVersionAns, GetSleepAns, SetOtaAns, SetResetAns, GetRssiAns]

  /** Every topic name the header defines. */
  const AllTopics: seq<string> :=
    CommandTopics + AnswerTopics + [NodeData, LostMessages, NodeStatus, GwStatus]

  /** The answer topic a command's suffix maps to: "result/" after "get/" or "set/". */
  function ResultTopic(command: string): string
    requires |command| >= 4
  {
    "result/" + command[4..]
  }

  /** Each command is "get/" or "set/" followed by a name. */
  lemma CommandTopicsArePrefixed()
    ensures forall k :: 0 <= k < |CommandTopics| ==>
      |CommandTopics[k]| > 4 && (CommandTopics[k][..4] == "get/" || CommandTopics[k][..4] == "set/")
  {
  }

  /** Each answer topic is the result topic of its command; set/sleeptime shares get/sleeptime's. */
  lemma AnswerTopicsMirrorCommands()
    ensures GetVersionAns == ResultTopic(GetVersion)
    ensures GetSleepAns == ResultTopic(GetSleep) && GetSleepAns == ResultTopic(SetSleep)
    ensures SetOtaAns == ResultTopic(SetOta)
    ensures SetResetAns == ResultTopic(SetResetConfig)
    ensures GetRssiAns == ResultTopic(GetRssi)
  {
  }

  /** No two topic names coincide, so a topic identifies its message. */
  lemma TopicsDistinct()
    ensures forall i, j :: 0 <= i < j < |AllTopics| ==> AllTopics[i] != AllTopics[j]
  {
  }

  /** The gateway status topic starts with '/', so it is appended directly to the network name. */
  lemma GatewayStatusIsSuffix()
    ensures |GwStatus| > 0 && GwStatus[0] == '/'
    ensures forall k :: 0 <= k < |AllTopics| && AllTopics[k] != GwStatus ==> |AllTopics[k]| > 0 && AllTopics[k][0] != '/'
  {
  }

  // ---------------------------------------------------------------------
  // Broker configuration (mqttgw_config_t).

  /** Sizes of the character arrays, terminating NUL included. */
  const ServerSize: nat := 41
  const UserSize: nat := 21
  const PassSize: nat := 41

  /** The default broker ports: plain MQTT and MQTT over TLS (SECURE_MQTT). */
  const PlainPort: int := 1883
  const SecurePort: int := 8883

  /** The broker address, port, user name and password. */
  datatype MqttConfig = MqttConfig(server: string, port: int, user: string, pass: string)

  /** A C string of at most size - 1 characters, so that it and its NUL fit in char[size]. */
  predicate FitsIn(s: string, size: nat) {
    |s| < size && forall k :: 0 <= k < |s| ==> s[k] != '\0'
  }

  /** Each text field fits its array. */
  predicate FitsConfig(c: MqttConfig) {
    FitsIn(c.server, ServerSize) && FitsIn(c.user, UserSize) && FitsIn(c.pass, PassSize)
  }

  /** The port mqtt_port starts with: 8883 when built with SECURE_MQTT, 1883 otherwise. */
  function DefaultPort(secure: bool): (port: int)
    ensures 0 < port < 0x1_0000
    ensures secure <==> port == SecurePort
    ensures !secure <==> port == PlainPort
  {
    if secure then SecurePort else PlainPort
  }

  /** The configuration before loading: empty text fields (static storage is zeroed) and the default port. */
  function DefaultConfig(secure: bool): (c: MqttConfig)
    ensures FitsConfig(c) && c.port == DefaultPort(secure)
  {
    MqttConfig("", DefaultPort(secure), "", "")
  }

  /** The largest texts each field holds: 40, 20 and 40 characters. */
  lemma ConfigCapacities(c: MqttConfig)
    requires FitsConfig(c)
    ensures |c.server| <= 40 && |c.user| <= 20 && |c.pass| <= 40
  {
  }

  // ---------------------------------------------------------------------
  // The outbound queue (mqtt_queue_item_t and mqtt_queue).

  /** A message waiting to be published: topic, payload_len bytes of payload, retain flag. */
  datatype QueueItem = QueueItem(topic: string, payload: seq<char>, payloadLen: nat, retain: bool)

  /** A record whose payload holds exactly payload_len characters. */
  predicate WellFormedItem(item: QueueItem) {
    |item.payload| == item.payloadLen
  }

  /** The record addMQTTqueue makes: the topic, the first len payload characters, and retain. */
  function MakeItem(topic: string, payload: seq<char>, len: nat, retain: bool): (item: QueueItem)
    requires len <= |payload|
    ensures WellFormedItem(item)
    ensures item.topic == topic && item.payload == payload[..len] && item.retain == retain
  {
    QueueItem(topic, payload[..len], len, retain)
  }

  /** The queue after a record joins at the tail. */
  function Enqueue(q: seq<QueueItem>, item: QueueItem): (r: seq<QueueItem>)
    ensures |r| == |q| + 1 && r[..|q|] == q && r[|q|] == item
  {
    q + [item]
  }

  /** The record at the head: the one that has waited longest. */
  function Front(q: seq<QueueItem>): QueueItem
    requires q != []
  {
    q[0]
  }

  /** The queue after the head leaves. */
  function Dequeue(q: seq<QueueItem>): (r: seq<QueueItem>)
    requires q != []
    ensures |r| == |q| - 1 && forall k :: 0 <= k < |r| ==> r[k] == q[k + 1]
  {
    q[1..]
  }

  /** A record added to an empty queue is the next one out. */
  lemma FrontOfSingle(item: QueueItem)
    ensures Front(Enqueue([], item)) == item
  {
  }

  /** Adding at the tail does not change the head. */
  lemma EnqueueKeepsFront(q: seq<QueueItem>, item: QueueItem)
    requires q != []
    ensures Front(Enqueue(q, item)) == Front(q)
  {
  }

  /** Adding and removing commute on a non-empty queue. */
  lemma EnqueueDequeueCommute(q: seq<QueueItem>, item: QueueItem)
    requires q != []
    ensures Dequeue(Enqueue(q, item)) == Enqueue(Dequeue(q), item)
  {
  }

  /** The queue after records join one after another. */
  function EnqueueAll(q: seq<QueueItem>, items: seq<QueueItem>): (r: seq<QueueItem>)
    ensures |r| == |q| + |items|
    decreases |items|
  {
    if items == [] then q else EnqueueAll(Enqueue(q, items[0]), items[1..])
  }

  /** The records taken out by reading the head and removing it until the queue is empty. */
  function Drained(q: seq<QueueItem>): (out: seq<QueueItem>)
    ensures |out| == |q|
    decreases |q|
  {
    if q == [] then [] else [Front(q)] + Drained(Dequeue(q))
  }

  /** Joining records one after another puts them behind what is there, in order. */
  lemma {:induction false} EnqueueAllAppends(q: seq<QueueItem>, items: seq<QueueItem>)
    ensures EnqueueAll(q, items) == q + items
    decreases |items|
  {
    if items != [] {
      EnqueueAllAppends(Enqueue(q, items[0]), items[1..]);
      assert q + [items[0]] + items[1..] == q + items;
    }
  }

  /** Draining a queue yields its records from head to tail. */
  lemma {:induction false} DrainedInOrder(q: seq<QueueItem>)
    ensures Drained(q) == q
    decreases |q|
  {
    if q != [] {
      DrainedInOrder(Dequeue(q));
    }
  }

  /** FIFO: records come out of the queue in the order they were added, after those already waiting. */
  lemma FifoOrder(q: seq<QueueItem>, items: seq<QueueItem>)
    ensures Drained(EnqueueAll(q, items)) == q + items
  {
    EnqueueAllAppends(q, items);
    DrainedInOrder(q + items);
  }

  /**
   * The gateway output module's queue of messages waiting for the broker.
   * Records are kept by value: the heap copies and their deletion are not
   * modelled.
   */
  class MqttQueue {
    var items: seq<QueueItem>

    /** Every queued record is well formed. */
    predicate Valid()
      reads this
    {
      forall k :: 0 <= k < |items| ==> WellFormedItem(items[k])
    }

    /** The queue starts empty. */
    constructor ()
      ensures Valid() && items == []
    {
      items := [];
    }

    /**
     * addMQTTqueue: queues a copy of the message at the tail. canStore is
     * the outcome of the body, which is not part of this model: whether the
     * record could be stored; the result reports it and nothing changes when
     * it is false. retain defaults to false, as in the declaration.
     */
    method AddMqttQueue(canStore: bool, topic: string, payload: seq<char>, len: nat, retain: bool := false)
      returns (ok: bool)
      requires Valid() && len <= |payload|
      modifies this
      ensures Valid() && ok == canStore
      ensures ok ==> items == Enqueue(old(items), MakeItem(topic, payload, len, retain))
      ensures !ok ==> items == old(items)
    {
      if canStore {
        items := Enqueue(items, MakeItem(topic, payload, len, retain));
      }
      ok := canStore;
    }

    /** getMQTTqueue: the record at the head, left in the queue. */
    method GetMqttQueue() returns (item: QueueItem)
      requires Valid() && items != []
      ensures item == Front(items) && WellFormedItem(item)
    {
      item := items[0];
    }

    /** popMQTTqueue: removes the record at the head and keeps the rest in order. */
    method PopMqttQueue()
      requires Valid() && items != []
      modifies this
      ensures Valid() && items == Dequeue(old(items))
    {
      items := items[1..];
    }
  }
}
