/** The per-subscriber ordered write pipeline
    (src/detections_list_subscriber.cpp) and the subscriber registry
    (src/detections_list_subscriber_manager.cpp). The two classes refer to
    each other, as in the C++, so they share one module. A socket is
    represented by the subscriber object itself; an asynchronous write is
    started by `DoWrite` and finished by an explicit `OnWriteComplete`
    event. */
module Subscribers {
  import opened Frame

  /** `detections_list_subscriber`: the FIFO `messages_` of shared
      message pointers (null included, as `message::ptr` allows), whether
      a write is outstanding, and whether the socket was closed. */
  class Subscriber {
    const manager: SubscriberManager
    var queue: seq<Message?>
    var inFlight: bool
    var closed: bool
    /** Every message handed to `publish`, in order. */
    ghost var published: seq<Message?>
    /** Every message whose write completed successfully, in order. */
    ghost var delivered: seq<Message?>
    /** The message of the outstanding write. */
    ghost var writing: Message?

    /** FIFO delivery: the completed writes are a prefix of the published
        messages and the queue is the rest. At most one write is
        outstanding (`inFlight` is a flag), it is always of the head, and
        on an open socket one is outstanding exactly when the queue is not
        empty. */
    ghost predicate Valid()
      reads this
    {
      && published == delivered + queue
      && (inFlight ==> queue != [] && writing == queue[0])
      && (!closed ==> (inFlight <==> queue != []))
    }

    /** The constructor: an open socket and nothing queued. */
    constructor (manager: SubscriberManager)
      ensures Valid() && this.manager == manager
      ensures queue == [] && !inFlight && !closed
      ensures published == [] && delivered == []
    {
      this.manager := manager;
      queue, inFlight, closed := [], false, false;
      published, delivered, writing := [], [], null;
    }

    /** `start()`: register with the manager. */
    method Start()
      requires Valid() && !closed && manager.Valid()
      modifies manager
      ensures manager.Valid()
      ensures manager.subscribers == old(manager.subscribers) + {this}
    {
      manager.Join(this);
    }

    /** `publish(message)`: append at the tail, removing nothing, and start
        a write exactly when the queue was empty before the append. */
    method Publish(m: Message?)
      requires Valid()
      modifies this
      ensures Valid()
      ensures queue == old(queue) + [m] && published == old(published) + [m]
      ensures delivered == old(delivered) && closed == old(closed)
      ensures inFlight == (old(inFlight) || old(queue) == [])
      ensures !old(inFlight) && inFlight ==> writing == m
      ensures old(inFlight) ==> writing == old(writing)
    {
      var writeInProgress := queue != [];
      queue := queue + [m];
      published := published + [m];
      if !writeInProgress {
        DoWrite();
      }
    }

    /** `close()`: shut the socket; idempotent. */
    method Close()
      requires Valid()
      modifies this
      ensures Valid() && closed
      ensures queue == old(queue) && inFlight == old(inFlight) && writing == old(writing)
      ensures published == old(published) && delivered == old(delivered)
    {
      closed := true;
    }

    /** `do_write()`: start writing the head of the queue (all `size()`
        bytes of it); nothing on an empty queue. Called only when no write
        is outstanding. */
    method DoWrite()
      requires !inFlight
      modifies this
      ensures inFlight == (queue != [])
      ensures inFlight ==> writing == queue[0]
      ensures !inFlight ==> writing == old(writing)
      ensures queue == old(queue) && closed == old(closed)
      ensures published == old(published) && delivered == old(delivered)
    {
      if queue != [] {
        writing := queue[0];
        inFlight := true;
      }
    }

    /** The completion handler of `async_write`. Success pops exactly the
        head, which is now delivered, and writes the next one if any.
        Failure pops nothing, starts no write, and hands the subscriber to
        the manager's `leave`, which removes and closes it. */
    method OnWriteComplete(ok: bool)
      requires Valid() && inFlight && manager.Valid()
      modifies this, manager
      ensures Valid() && manager.Valid()
      ensures published == old(published)
      ensures ok ==> queue == old(queue)[1..] && delivered == old(delivered) + [old(queue)[0]]
      ensures ok ==> inFlight == (queue != []) && closed == old(closed)
      ensures ok ==> manager.subscribers == old(manager.subscribers)
      ensures !ok ==> queue == old(queue) && delivered == old(delivered)
      ensures !ok ==> !inFlight && closed
      ensures !ok ==> manager.subscribers == old(manager.subscribers) - {this}
    {
      if ok {
        delivered := delivered + [queue[0]];
        queue := queue[1..];
        inFlight := false;
        if queue != [] {
          DoWrite();
        }
      } else {
        manager.Leave(this);
        inFlight := false;
      }
    }
  }

  /** `detections_list_subscriber_manager`: the set of subscribers. Only
      fresh subscribers join, and `leave` removes a subscriber before it
      is closed, so every member is open. */
  class SubscriberManager {
    var subscribers: set<Subscriber>

    ghost predicate Valid()
      reads this, subscribers
    {
      forall s :: s in subscribers ==> s.Valid() && !s.closed
    }

    constructor ()
      ensures Valid() && subscribers == {}
    {
      subscribers := {};
    }

    /** `join(s)`: insert into the set; joining twice changes nothing. */
    method Join(s: Subscriber)
      requires Valid() && s.Valid() && !s.closed
      modifies this
      ensures Valid()
      ensures subscribers == old(subscribers) + {s}
    {
      subscribers := subscribers + {s};
    }

    /** `leave(s)`: erase `s` and close it; no other member and nothing
        else of `s` changes. */
    method Leave(s: Subscriber)
      requires Valid() && s.Valid()
      modifies this, s
      ensures Valid() && s.Valid() && s.closed
      ensures subscribers == old(subscribers) - {s}
      ensures s.queue == old(s.queue) && s.inFlight == old(s.inFlight) && s.writing == old(s.writing)
      ensures s.published == old(s.published) && s.delivered == old(s.delivered)
    {
      subscribers := subscribers - {s};
      s.Close();
    }

    /** `stop_all()` as written: the set is emptied and no `close()` is
        called. A member with a write in flight is kept alive by that
        write and goes on writing its queue, unregistered and open; an idle
        one loses its last owner and its socket is closed only by its
        destructor, which is not modelled. */
    method StopAll()
      requires Valid()
      modifies this
      ensures Valid() && subscribers == {}
      ensures forall s :: s in old(subscribers) ==> s.closed == old(s.closed)
    {
      subscribers := {};
    }

    /** `stop_all()` as intended: close every member, then empty the set. */
    method StopAllAndClose()
      requires Valid()
      modifies this, subscribers
      ensures Valid() && subscribers == {}
      ensures forall s :: s in old(subscribers) ==> s.closed && s.Valid()
      ensures forall s :: s in old(subscribers) ==> s.queue == old(s.queue) && s.published == old(s.published) && s.delivered == old(s.delivered)
    {
      var todo := subscribers;
      while todo != {}
        invariant todo <= subscribers == old(subscribers)
        invariant forall s :: s in subscribers ==> s.Valid()
        invariant forall s :: s in todo ==> !s.closed
        invariant forall s :: s in subscribers - todo ==> s.closed
        invariant forall s :: s in subscribers ==> s.queue == old(s.queue) && s.published == old(s.published) && s.delivered == old(s.delivered)
        decreases todo
      {
        var s :| s in todo;
        s.Close();
        todo := todo - {s};
      }
      subscribers := {};
    }

    /** What publishing `m` does to one subscriber. */
    twostate predicate Received(s: Subscriber, new m: Message?)
      reads s
    {
      && s.queue == old(s.queue) + [m]
      && s.published == old(s.published) + [m]
      && s.delivered == old(s.delivered)
      && s.closed == old(s.closed)
      && s.inFlight == (old(s.inFlight) || old(s.queue) == [])
    }

    /** Hand the one message `m` to every member, each exactly once, in
        the set's order (lines 10-12). */
    method FanOut(m: Message?)
      requires Valid()
      modifies subscribers
      ensures Valid()
      ensures forall s :: s in subscribers ==> Received(s, m)
    {
      var todo := subscribers;
      while todo != {}
        invariant todo <= subscribers
        invariant Valid()
        invariant forall s :: s in subscribers - todo ==> Received(s, m)
        invariant forall s :: s in todo ==> unchanged(s)
        decreases todo
      {
        var s :| s in todo;
        s.Publish(m);
        todo := todo - {s};
      }
    }

    /** `publish(list)` as intended: `build_message` encodes the
        serialized snapshot once; an oversize snapshot is dropped, and
        otherwise every member receives the same message. Membership does
        not change. */
    method Publish(serialized: seq<Byte>) returns (ghost built: Message?)
      requires Valid()
      modifies subscribers
      ensures Valid()
      ensures (built == null) <==> |serialized| >= MAX_BODY_LENGTH
      ensures built != null ==> fresh(built) && built.Valid() && built.data[..] == Buffer(serialized, |serialized|)
      ensures built == null ==> forall s :: s in subscribers ==> unchanged(s)
      ensures built != null ==> forall s :: s in subscribers ==> Received(s, built)
    {
      var message := Message.Encode(serialized, |serialized|);
      built := message;
      if message != null {
        FanOut(message);
      }
    }

    /** `publish(list)` as written: the result of `build_message` is
        forwarded even when `encode` refused the snapshot, so every member
        queues a null message, which `do_write` then dereferences. */
    method PublishAsWritten(serialized: seq<Byte>) returns (ghost built: Message?)
      requires Valid()
      modifies subscribers
      ensures Valid()
      ensures (built == null) <==> |serialized| >= MAX_BODY_LENGTH
      ensures forall s :: s in subscribers ==> Received(s, built)
      ensures |serialized| >= MAX_BODY_LENGTH ==> forall s :: s in subscribers ==> s.queue == old(s.queue) + [null]
    {
      var message := Message.Encode(serialized, |serialized|);
      built := message;
      FanOut(message);
    }
  }

  /** Three frames queued before any write completes go out as three
      writes, one at a time, in publish order. */
  method WriteOrderScenario(a: Message, b: Message, c: Message)
  {
    var manager := new SubscriberManager();
    var s := new Subscriber(manager);
    s.Start();
    manager.FanOut(a);
    manager.FanOut(b);
    manager.FanOut(c);
    assert s.inFlight && s.writing == a && s.queue == [a, b, c];
    s.OnWriteComplete(true);
    assert s.inFlight && s.writing == b;
    s.OnWriteComplete(true);
    assert s.inFlight && s.writing == c;
    s.OnWriteComplete(true);
    assert !s.inFlight && s.delivered == [a, b, c];
  }

  /** A failed write removes and closes that subscriber only; the next
      publish reaches the other one alone. */
  method FaultIsolationScenario(first: Message, second: Message)
  {
    var manager := new SubscriberManager();
    var a := new Subscriber(manager);
    var b := new Subscriber(manager);
    a.Start();
    b.Start();
    manager.FanOut(first);
    b.OnWriteComplete(false);
    assert b.closed && manager.subscribers == {a};
    assert !a.closed && a.queue == [first];
    manager.FanOut(second);
    assert a.queue == [first, second] && b.queue == [first];
  }
}
