/** The subscriptions of the MQTT client (backend/communication/MQTTClient.cpp). Every method here is one section
    that runs under the client's mutex. */
module MqttClient {
  import opened Wrappers

  type Topic = string
  // A callback is known by its address
  type Callback = nat
  type MessageId = int

  /** What mosquitto_subscribe answers: handleErrorCode lets a missing connection pass. */
  datatype Reply = Sent(id: MessageId) | NoConnection(id: MessageId) | Refused

  // What can happen to the client
  datatype Call =
    | Subscribing(topic: Topic, callback: Callback, reply: Reply)
    | Done(k: nat, connected: bool)
    | Answered(id: MessageId, qos: seq<int>)
  {
    predicate Connected() {
      (Subscribing? ==> !reply.NoConnection?) && (Done? ==> connected)
    }
  }

  /** std::promise: a second set_value throws. */
  class Promise {
    var value: Option<seq<int>>

    constructor ()
      ensures value == None
    {
      value := None;
    }

    method SetValue(v: seq<int>)
      requires value == None
      modifies this
      ensures value == Some(v)
    {
      value := Some(v);
    }
  }

  ghost predicate NoDuplicates<T>(s: seq<T>) {
    forall i, j :: 0 <= i < j < |s| ==> s[i] != s[j]
  }

  function Without<T>(s: seq<T>, i: nat): seq<T>
    requires i < |s|
  {
    s[..i] + s[i + 1..]
  }

  lemma WithoutMembers<T>(s: seq<T>, i: nat)
    requires i < |s|
    ensures forall k :: 0 <= k < |s| - 1 ==> Without(s, i)[k] == s[if k < i then k else k + 1]
    ensures forall x :: x in Without(s, i) ==> x in s
  {
  }

  /** Erasing the only place of an element removes it, and nothing else. */
  lemma WithoutUnique<T>(s: seq<T>, i: nat)
    requires i < |s| && NoDuplicates(s)
    ensures NoDuplicates(Without(s, i))
    ensures forall x :: x in Without(s, i) <==> x in s && x != s[i]
  {
  }

  // The topics of the subscriptions
  ghost function Topics(subscriptions: seq<(Topic, Callback)>): set<Topic> {
    set s | s in subscriptions :: s.0
  }

  /** Erasing one subscription removes its topic exactly if that was its last subscription. */
  lemma TopicsWithout(subscriptions: seq<(Topic, Callback)>, i: nat)
    requires i < |subscriptions|
    ensures var rest := Topics(Without(subscriptions, i));
      rest - {subscriptions[i].0} == Topics(subscriptions) - {subscriptions[i].0}
  {
  }

  class Client {
    var subscriptions: seq<(Topic, Callback)>
    var activeSubscriptions: seq<Topic>
    var newSubscriptions: seq<(MessageId, Promise)>
    // The topics the broker has this client subscribed to
    ghost var broker: set<Topic>

    constructor ()
      ensures Valid() && subscriptions == [] && newSubscriptions == [] && forall t :: InStep(t)
    {
      subscriptions, activeSubscriptions, newSubscriptions, broker := [], [], [], {};
    }

    ghost function Promises(): set<Promise>
      reads this
    {
      set p | p in newSubscriptions :: p.1
    }

    /** A topic is active once, exactly while it has a subscription; what waits for an answer has none yet. */
    ghost predicate Valid()
      reads this, Promises()
    {
      && NoDuplicates(activeSubscriptions)
      && (forall t :: t in activeSubscriptions <==> t in Topics(subscriptions))
      && (forall i, j :: 0 <= i < j < |newSubscriptions| ==> newSubscriptions[i].1 != newSubscriptions[j].1)
      && (forall p :: p in newSubscriptions ==> p.1.value == None)
    }

    /** The client and the broker agree about a topic. */
    ghost predicate InStep(t: Topic)
      reads this
    {
      t in broker <==> t in activeSubscriptions
    }

    // std::find
    method Find(topic: Topic) returns (i: nat)
      ensures i <= |activeSubscriptions| && (i < |activeSubscriptions| ==> activeSubscriptions[i] == topic)
      ensures i == |activeSubscriptions| <==> topic !in activeSubscriptions
    {
      i := 0;
      while i < |activeSubscriptions| && activeSubscriptions[i] != topic
        invariant i <= |activeSubscriptions| && topic !in activeSubscriptions[..i]
      {
        i := i + 1;
      }
    }

    /** Subscribe. Only a refused request changes nothing. The broker is asked exactly if the topic was not active;
        after a request without a connection, client and broker agree about the topic only if they did not before. */
    method Subscribe(topic: Topic, callback: Callback, reply: Reply) returns (future: Option<Promise>)
      requires Valid()
      modifies this
      ensures Valid()
      ensures future.None? <==> topic !in old(activeSubscriptions) && reply.Refused?
      ensures future.None? ==> unchanged(this)
      ensures future.Some? ==> fresh(future.value) && subscriptions == old(subscriptions) + [(topic, callback)]
      ensures future.Some? && topic in old(activeSubscriptions) ==>
        && activeSubscriptions == old(activeSubscriptions) && newSubscriptions == old(newSubscriptions)
        && broker == old(broker) && future.value.value == Some([0])
      ensures future.Some? && topic !in old(activeSubscriptions) ==>
        && activeSubscriptions == old(activeSubscriptions) + [topic]
        && newSubscriptions == old(newSubscriptions) + [(reply.id, future.value)]
        && forall t :: InStep(t) <==> if t == topic then reply.Sent? || !old(InStep(t)) else old(InStep(t))
    {
      var i := Find(topic);
      var promise := new Promise();
      if i == |activeSubscriptions| {
        if reply.Refused? {
          return None;
        }
        if reply.Sent? {
          broker := broker + {topic};
        }
        subscriptions := subscriptions + [(topic, callback)];
        activeSubscriptions := activeSubscriptions + [topic];
        newSubscriptions := newSubscriptions + [(reply.id, promise)];
      } else {
        subscriptions := subscriptions + [(topic, callback)];
        promise.SetValue([0]);
      }
      assert Topics(subscriptions) == Topics(old(subscriptions)) + {topic};
      return Some(promise);
    }

    // std::find_if over the topics of the subscriptions
    method HasSubscription(topic: Topic) returns (found: bool)
      ensures found <==> topic in Topics(subscriptions)
    {
      for n := 0 to |subscriptions|
        invariant forall m :: 0 <= m < n ==> subscriptions[m].0 != topic
      {
        if subscriptions[n].0 == topic {
          assert subscriptions[n] in subscriptions;
          return true;
        }
      }
      return false;
    }

    /** A callback of OnMessage has answered that it is done: its subscription goes, and with the last subscription
        of a topic the topic goes too. The erase of the topic always finds it. */
    method CallbackDone(k: nat, connected: bool)
      requires Valid() && k < |subscriptions|
      modifies this
      ensures Valid() && subscriptions == Without(old(subscriptions), k) && newSubscriptions == old(newSubscriptions)
      ensures old(subscriptions)[k].0 in Topics(subscriptions) ==>
        activeSubscriptions == old(activeSubscriptions) && broker == old(broker)
      ensures old(subscriptions)[k].0 !in Topics(subscriptions) ==>
        && (exists i: nat ::
              && i < |old(activeSubscriptions)| && old(activeSubscriptions)[i] == old(subscriptions)[k].0
              && activeSubscriptions == Without(old(activeSubscriptions), i))
        && forall t :: InStep(t) <==>
             if t == old(subscriptions)[k].0 then connected || !old(InStep(t)) else old(InStep(t))
    {
      var topic := subscriptions[k].0;
      TopicsWithout(subscriptions, k);
      assert subscriptions[k] in subscriptions && topic in Topics(subscriptions);
      subscriptions := Without(subscriptions, k);
      var left := HasSubscription(topic);
      if !left {
        var i := Find(topic);
        assert i < |activeSubscriptions|;
        WithoutUnique(activeSubscriptions, i);
        activeSubscriptions := Without(activeSubscriptions, i);
        if connected {
          broker := broker - {topic};
        }
      }
    }

    /** OnSubscribe: the first request with that id gets its answer, once, and no other promise is touched. */
    method OnSubscribe(id: MessageId, qos: seq<int>)
      requires Valid()
      modifies this`newSubscriptions, Promises()
      ensures Valid()
      ensures forall p :: p in newSubscriptions ==> p in old(newSubscriptions)
      ensures (forall p :: p in old(newSubscriptions) ==> p.0 != id) ==> newSubscriptions == old(newSubscriptions)
      ensures forall i :: 0 <= i < |old(newSubscriptions)| && IsFirst(old(newSubscriptions), i, id) ==>
        && newSubscriptions == Without(old(newSubscriptions), i)
        && old(newSubscriptions)[i].1.value == Some(qos)
    {
      var i := 0;
      while i < |newSubscriptions| && newSubscriptions[i].0 != id
        invariant i <= |newSubscriptions| && forall j :: 0 <= j < i ==> newSubscriptions[j].0 != id
      {
        i := i + 1;
      }
      if i < |newSubscriptions| {
        WithoutMembers(newSubscriptions, i);
        newSubscriptions[i].1.SetValue(qos);
        newSubscriptions := Without(newSubscriptions, i);
      }
    }

    method Handle(call: Call)
      requires Valid()
      modifies this, Promises()
      ensures Valid() && forall p :: p in newSubscriptions ==> p in old(newSubscriptions) || fresh(p.1)
      ensures call.Connected() ==> forall t :: old(InStep(t)) ==> InStep(t)
    {
      match call
      case Subscribing(topic, callback, reply) =>
        var _ := Subscribe(topic, callback, reply);
      case Done(k, connected) =>
        if k < |subscriptions| {
          CallbackDone(k, connected);
        }
      case Answered(id, qos) =>
        OnSubscribe(id, qos);
        assert forall t :: old(InStep(t)) ==> InStep(t);
    }

    /** A run of the client. If no request about topics is made without a connection, client and broker agree about
        all topics after every run, if they did before. */
    method Serve(calls: seq<Call>)
      requires Valid()
      modifies this, Promises()
      ensures Valid()
      ensures (forall c :: c in calls ==> c.Connected()) && old(AllInStep()) ==> AllInStep()
    {
      for i := 0 to |calls|
        invariant Valid() && forall p :: p in newSubscriptions ==> p in old(newSubscriptions) || fresh(p.1)
        invariant (forall c :: c in calls ==> c.Connected()) && old(AllInStep()) ==> AllInStep()
      {
        assert calls[i] in calls;
        Handle(calls[i]);
      }
    }

    ghost predicate AllInStep()
      reads this
    {
      forall t :: InStep(t)
    }
  }

  /** Subscribing without a connection leaves the client with a topic the broker does not know of. */
  method MissedSubscription(topic: Topic, callback: Callback) returns (client: Client)
    ensures client.Valid() && !client.InStep(topic)
  {
    client := new Client();
    var _ := client.Subscribe(topic, callback, NoConnection(0));
  }

  ghost predicate IsFirst(requests: seq<(MessageId, Promise)>, i: nat, id: MessageId) {
    && i < |requests| && requests[i].0 == id
    && forall j :: 0 <= j < i ==> requests[j].0 != id
  }
}
