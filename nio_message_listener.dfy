/**
 * The event queue of edu.mit.net's message listener: readiness reported by
 * the selector is turned into a FIFO of events, one per accepted connection,
 * one per complete message, and one when a peer closes its connection.
 *
 * The selector and the server socket are an oracle: `readiness` lists, for
 * each future `select`/`selectNow`, the keys it reports ready, and
 * `backlog` lists the connections `accept` will return, each as the script
 * of its channel. A select on an exhausted oracle reports nothing.
 */
module NIOMessageListener {
  import opened JavaTypes
  import opened Channels
  import opened NIOReadStream
  import opened NIOMessageConnection

  /** A selection key: the listening socket's, or the one of the connection at an index. */
  datatype Key = ServerKey | ClientKey(index: nat)

  /** A connection the server socket will accept: its inbound script and its send-buffer room. */
  datatype Incoming = Incoming(script: seq<Outcome>, sendRoom: nat)

  /** An event: a new connection or a closed one (no message), or a message received on a connection. */
  datatype Event = Event(connection: Connection, message: Option<seq<i8>>)

  /** What the event calls return: an event, null, or the assertion failure / runtime exception they let escape. */
  datatype Polled = Got(event: Event) | NoEvent | Crashed

  /** The message events for `messages` received on `c`, in order. */
  function MessageEvents(c: Connection, messages: seq<seq<i8>>): (es: seq<Event>)
    ensures |es| == |messages|
    ensures forall i :: 0 <= i < |es| ==> es[i] == Event(c, Some(messages[i]))
  {
    if messages == [] then [] else [Event(c, Some(messages[0]))] + MessageEvents(c, messages[1..])
  }

  /** The events draining connection `c` adds, as `Drain` predicts them: its messages, then a close event if the peer closed. */
  function DrainEvents(c: Connection, d: Drained): seq<Event>
  {
    if d.last.Closed? then MessageEvents(c, d.messages) + [Event(c, None)] else MessageEvents(c, d.messages)
  }

  /** How many of `keys` are the server socket's key. */
  function ServerKeys(keys: seq<Key>): (n: nat)
    ensures n <= |keys|
  {
    if keys == [] then 0 else ServerKeys(keys[..|keys| - 1]) + (if keys[|keys| - 1].ServerKey? then 1 else 0)
  }

  /** Counting one more key. */
  lemma ServerKeysStep(keys: seq<Key>, h: nat)
    requires h < |keys|
    ensures ServerKeys(keys[..h + 1]) == ServerKeys(keys[..h]) + (if keys[h].ServerKey? then 1 else 0)
  {
    assert keys[..h + 1][..h] == keys[..h];
  }

  /** Distinct connections with distinct streams and channels. */
  ghost predicate Disjoint(cs: seq<Connection>)
  {
    forall i, j :: 0 <= i < j < |cs| ==>
      cs[i] != cs[j] && cs[i].stream != cs[j].stream && cs[i].channel != cs[j].channel
  }

  /** A connection whose objects are all new keeps the connections disjoint. */
  lemma DisjointAppend(cs: seq<Connection>, c: Connection)
    requires Disjoint(cs)
    requires forall i :: 0 <= i < |cs| ==> cs[i] != c && cs[i].stream != c.stream && cs[i].channel != c.channel
    ensures Disjoint(cs + [c])
  {
  }

  /** `accept()` followed by `new NIOMessageConnection(client)`: a connection over a new channel playing the incoming script. */
  method Open(incoming: Incoming) returns (c: Connection)
    ensures fresh(c) && fresh(c.stream) && fresh(c.channel) && c.Valid()
    ensures c.channel.inbound == incoming.script && c.channel.room == incoming.sendRoom
    ensures c.nextLength == 0 && c.stream.Unread() == []
  {
    var channel := new Channel(incoming.script, incoming.sendRoom);
    c := new Connection(channel);
  }

  class Listener {
    /** The selector's future answers. */
    var readiness: seq<seq<Key>>
    /** The connections the server socket will accept, in order. */
    var backlog: seq<Incoming>
    /** The selector's selected-key set. */
    var selected: seq<Key>
    var eventQueue: seq<Event>
    /** Every connection accepted so far; `ClientKey(i)` is the key of `connections[i]`. */
    var connections: seq<Connection>
    var open: bool
    /** An assertion failure or runtime exception escaped a call; the listener is no longer usable. */
    ghost var broken: bool
    /** Every event ever queued, in order, and those of them already returned by a poll. */
    ghost var queued: seq<Event>
    ghost var delivered: seq<Event>

    ghost function Streams(): set<object>
      reads this`connections
    {
      set i | 0 <= i < |connections| :: connections[i].stream
    }

    ghost predicate Valid()
      reads this`connections, this`broken, this`queued, this`delivered, this`eventQueue, connections, Streams()
    {
      // the queue is a FIFO: events leave it from the front, in the order they were queued
      && queued == delivered + eventQueue
      && Disjoint(connections)
      && (forall i :: 0 <= i < |connections| ==> connections[i].Valid())
      && (!broken ==> forall i :: 0 <= i < |connections| ==> connections[i].nextLength >= 0)
    }

    /** A listener bound to its port, with the given selector and accept oracles. */
    constructor (readiness: seq<seq<Key>>, backlog: seq<Incoming>)
      ensures Valid() && !broken && open
      ensures this.readiness == readiness && this.backlog == backlog
      ensures selected == [] && eventQueue == [] && connections == []
    {
      this.readiness := readiness;
      this.backlog := backlog;
      selected, eventQueue, connections := [], [], [];
      queued, delivered := [], [];
      open := true;
      broken := false;
    }

    /** `select()`/`selectNow()`: adds the next ready keys to the selected set and returns how many there were. */
    method Select() returns (count: nat)
      modifies this
      ensures old(readiness) == [] ==> count == 0 && readiness == [] && selected == old(selected)
      ensures old(readiness) != [] ==>
                && count == |old(readiness)[0]| && readiness == old(readiness)[1..]
                && selected == old(selected) + old(readiness)[0]
      ensures backlog == old(backlog) && eventQueue == old(eventQueue) && connections == old(connections)
      ensures open == old(open) && broken == old(broken) && queued == old(queued) && delivered == old(delivered)
    {
      if readiness == [] {
        count := 0;
      } else {
        count := |readiness[0]|;
        selected := selected + readiness[0];
        readiness := readiness[1..];
      }
    }

    /**
     * The accepting branch of `handleSelectedKeys`: accepts the next
     * connection and queues exactly one event for it, with no message. With
     * no connection pending, `accept` returns null and the assertion on it
     * fails.
     */
    method Accept() returns (ok: bool)
      requires Valid() && !broken
      modifies this
      ensures Valid() && broken == !ok && delivered == old(delivered)
      ensures readiness == old(readiness) && selected == old(selected) && open == old(open)
      ensures !ok <==> old(backlog) == []
      ensures !ok ==> eventQueue == old(eventQueue) && connections == old(connections) && backlog == old(backlog)
      ensures ok ==>
                && backlog == old(backlog)[1..] && |connections| == |old(connections)| + 1
                && var c := connections[|old(connections)|];
                && connections == old(connections) + [c]
                && fresh(c) && fresh(c.stream) && fresh(c.channel)
                && c.channel.inbound == old(backlog)[0].script && c.channel.room == old(backlog)[0].sendRoom
                && c.nextLength == 0 && c.stream.Unread() == []
                && eventQueue == old(eventQueue) + [Event(c, None)]
    {
      if backlog == [] {
        broken := true;
        return false;
      }
      var incoming := backlog[0];
      backlog := backlog[1..];
      var connection := Open(incoming);
      Enqueue(Event(connection, None));
      AddConnection(connection);
      assert connections[|old(connections)|] == connection;
      ok := true;
    }

    /** `eventQueue.add(event)`. */
    method Enqueue(event: Event)
      requires Valid()
      modifies this`eventQueue, this`queued
      ensures Valid() && eventQueue == old(eventQueue) + [event] && queued == old(queued) + [event]
    {
      eventQueue := eventQueue + [event];
      queued := queued + [event];
    }

    /** Registering an accepted connection whose objects are all new: it gets the next key. */
    method AddConnection(connection: Connection)
      requires Valid() && !broken && connection.Valid() && connection.nextLength == 0
      requires forall i :: 0 <= i < |connections| ==>
                 connections[i] != connection && connections[i].stream != connection.stream && connections[i].channel != connection.channel
      modifies this`connections
      ensures Valid() && connections == old(connections) + [connection]
    {
      DisjointAppend(connections, connection);
      ghost var before := connections;
      connections := connections + [connection];
      forall j | 0 <= j < |connections|
        ensures connections[j].Valid() && connections[j].nextLength >= 0
      {
        if j < |before| {
          assert connections[j] == before[j];
        }
      }
    }

    /**
     * The reading branch of `handleSelectedKeys` for the key of
     * `connections[i]`.
     */
    method DrainConnection(i: nat) returns (ok: bool)
      requires Valid() && !broken && i < |connections| && connections[i].channel.open
      modifies this, connections[i], connections[i].stream, connections[i].channel
      ensures Valid() && broken == !ok && connections == old(connections) && delivered == old(delivered)
      ensures readiness == old(readiness) && backlog == old(backlog) && selected == old(selected) && open == old(open)
      ensures var c := connections[i];
        var d := Drain(old(c.nextLength), old(c.stream.Available()), StopIsEof(old(c.channel.inbound)));
        && (ok <==> !d.last.BadLength?)
        && (ok ==> eventQueue == old(eventQueue) + DrainEvents(c, d) && c.nextLength == d.nextLength)
        && (!ok ==> eventQueue == old(eventQueue) + MessageEvents(c, d.messages))
        && (ok ==> (c.channel.open <==> !d.last.Closed?))
    {
      var c := connections[i];
      ok := DrainLoop(c);
      HistoryAppend(queued, delivered, old(eventQueue), eventQueue);
      queued := queued + eventQueue[|old(eventQueue)|..];
      broken := !ok;
      forall j | 0 <= j < |connections|
        ensures connections[j].Valid()
      {
        if j != i {
          assert connections[j] != c && connections[j].stream != c.stream;
        }
      }
    }

    /** Queueing the events a connection produced keeps the history equal to the delivered events followed by the queue. */
    static lemma HistoryAppend(queued: seq<Event>, delivered: seq<Event>, before: seq<Event>, after: seq<Event>)
      requires queued == delivered + before && before <= after
      ensures queued + after[|before|..] == delivered + after
    {
      assert after == before + after[|before|..];
    }

    /** Appending to the queue only appends to the history of queued events. */
    static lemma HistoryGrows(delivered: seq<Event>, before: seq<Event>, after: seq<Event>)
      requires before <= after
      ensures delivered + before <= delivered + after
    {
      assert after == before + after[|before|..];
    }

    /**
     * The loop of the reading branch: calls `tryRead` until it returns
     * null, queueing one event per message, in order; the closed signal
     * closes the connection, queues one event without a message and ends
     * the loop. The events are those `Drain` predicts.
     */
    method DrainLoop(c: Connection) returns (ok: bool)
      requires c.Valid() && c.nextLength >= 0 && c.channel.open
      modifies this`eventQueue, c, c.stream, c.channel
      ensures c.Valid() && (ok ==> c.nextLength >= 0)
      ensures var d := Drain(old(c.nextLength), old(c.stream.Available()), StopIsEof(old(c.channel.inbound)));
        && (ok <==> !d.last.BadLength?)
        && (ok ==> eventQueue == old(eventQueue) + DrainEvents(c, d) && c.nextLength == d.nextLength)
        && (!ok ==> eventQueue == old(eventQueue) + MessageEvents(c, d.messages))
        && (ok ==> (c.channel.open <==> !d.last.Closed?))
    {
      ghost var eof := StopIsEof(c.channel.inbound);
      ghost var D := Drain(c.nextLength, c.stream.Available(), eof);
      ghost var received: seq<seq<i8>> := [];
      var data := NeedMore;
      while true
        invariant c.Valid() && c.nextLength >= 0 && c.channel.open && StopIsEof(c.channel.inbound) == eof
        invariant Continues(D, received, Drain(c.nextLength, c.stream.Available(), eof))
        invariant eventQueue == old(eventQueue) + MessageEvents(c, received)
        decreases |c.stream.Available()|
      {
        ghost var nl, A := c.nextLength, c.stream.Available();
        ghost var step;
        data, step := DrainOnce(c);
        DrainUnfold(nl, A, eof);
        if !data.Message? {
          assert received + [] == received;
          if data.Closed? {
            Regroup(old(eventQueue), MessageEvents(c, received), [Event(c, None)]);
          }
          break;
        }
        Regroup(received, [data.bytes], Drain(c.nextLength, c.stream.Available(), eof).messages);
        MessageEventsAppend(c, received, data.bytes);
        Regroup(old(eventQueue), MessageEvents(c, received), [Event(c, Some(data.bytes))]);
        received := received + [data.bytes];
      }
      ok := !data.BadLength?;
    }

    /**
     * One iteration of the reading loop: a `tryRead` call, which takes
     * `step`, and the event it queues.
     */
    method DrainOnce(c: Connection) returns (data: ReadResult, ghost step: Step)
      requires c.Valid() && c.nextLength >= 0 && c.channel.open
      modifies this`eventQueue, c, c.stream, c.channel
      ensures c.Valid()
      ensures step == Decide(old(c.nextLength), old(c.stream.Available()), StopIsEof(old(c.channel.inbound)))
      ensures data == step.result && c.nextLength == step.nextLength && (!data.BadLength? ==> c.nextLength >= 0)
      ensures data.Message? ==>
                && c.stream.Available() == old(c.stream.Available())[step.used..] && c.nextLength == 0 && c.channel.open
                && StopIsEof(c.channel.inbound) == StopIsEof(old(c.channel.inbound))
                && eventQueue == old(eventQueue) + [Event(c, Some(data.bytes))]
      ensures data.Closed? ==> !c.channel.open && eventQueue == old(eventQueue) + [Event(c, None)]
      ensures data.NeedMore? || data.BadLength? ==> c.channel.open && eventQueue == old(eventQueue)
    {
      DecideSpec(c.nextLength, c.stream.Available(), StopIsEof(c.channel.inbound));
      step := Decide(c.nextLength, c.stream.Available(), StopIsEof(c.channel.inbound));
      data := c.TryRead();
      match data
      case Closed =>
        c.Close();
        eventQueue := eventQueue + [Event(c, None)];
      case Message(m) =>
        eventQueue := eventQueue + [Event(c, Some(m))];
      case _ =>
    }

    /**
     * `handleSelectedKeys()`: takes the selected keys one by one, removing
     * each from the selected set before handling it. Keys of closed or
     * unknown connections have been cancelled and are skipped.
     */
    method HandleSelectedKeys() returns (ok: bool)
      requires Valid() && !broken
      modifies this, connections, Streams(), set c | c in connections :: c.channel
      ensures Valid() && broken == !ok
      ensures readiness == old(readiness) && open == old(open)
      ensures ok ==> selected == []
      ensures old(eventQueue) <= eventQueue && delivered == old(delivered) && old(queued) <= queued
      ensures old(connections) <= connections
      ensures forall k :: |old(connections)| <= k < |connections| ==>
                  fresh(connections[k]) && fresh(connections[k].stream) && fresh(connections[k].channel)
      // each server key handled accepts exactly one connection, in backlog order
      ensures ok ==>
                && ServerKeys(old(selected)) <= |old(backlog)|
                && |connections| == |old(connections)| + ServerKeys(old(selected))
                && backlog == old(backlog)[ServerKeys(old(selected))..]
    {
      ghost var keys := selected;
      // `h` keys handled so far, `n` of them the server key
      ghost var h, n := 0, 0;
      while selected != []
        invariant Valid() && !broken
        invariant readiness == old(readiness) && open == old(open)
        invariant old(eventQueue) <= eventQueue && delivered == old(delivered)
        invariant old(connections) <= connections
        invariant forall k :: |old(connections)| <= k < |connections| ==>
                    fresh(connections[k]) && fresh(connections[k].stream) && fresh(connections[k].channel)
        invariant h <= |keys| && selected == keys[h..]
        invariant n == ServerKeys(keys[..h]) && n <= |old(backlog)|
        invariant |connections| == |old(connections)| + n && backlog == old(backlog)[n..]
        decreases |selected|
      {
        var key := selected[0];
        ServerKeysStep(keys, h);
        selected := selected[1..];
        ok := HandleKey(key);
        if !ok {
          HistoryGrows(delivered, old(eventQueue), eventQueue);
          return false;
        }
        if key.ServerKey? {
          assert old(backlog)[n..][1..] == old(backlog)[n + 1..];
          n := n + 1;
        }
        h := h + 1;
      }
      assert keys[..h] == keys;
      HistoryGrows(delivered, old(eventQueue), eventQueue);
      ok := true;
    }

    /**
     * One iteration of `handleSelectedKeys`, after the key has been removed
     * from the selected set: the server key accepts, the key of an open
     * connection drains it, and a cancelled key changes nothing.
     */
    method HandleKey(key: Key) returns (ok: bool)
      requires Valid() && !broken
      modifies this, connections, Streams(), set c | c in connections :: c.channel
      ensures Valid() && broken == !ok
      ensures readiness == old(readiness) && selected == old(selected) && open == old(open)
      ensures old(eventQueue) <= eventQueue && delivered == old(delivered) && old(queued) <= queued
      ensures old(connections) <= connections
      ensures forall k :: |old(connections)| <= k < |connections| ==>
                  fresh(connections[k]) && fresh(connections[k].stream) && fresh(connections[k].channel)
      // only the server key takes a connection from the backlog
      ensures ok ==>
                && (key.ServerKey? ==> old(backlog) != [])
                && |connections| == |old(connections)| + (if key.ServerKey? then 1 else 0)
                && backlog == (if key.ServerKey? then old(backlog)[1..] else old(backlog))
      // the server key: exactly one accepted connection and its event, or the failed assertion on a null accept
      ensures key.ServerKey? ==>
                && (ok <==> old(backlog) != [])
                && (!ok ==> eventQueue == old(eventQueue) && connections == old(connections) && backlog == old(backlog))
                && (ok ==>
                      && backlog == old(backlog)[1..] && |connections| == |old(connections)| + 1
                      && var c := connections[|old(connections)|];
                      && c.channel.inbound == old(backlog)[0].script && c.channel.room == old(backlog)[0].sendRoom
                      && c.nextLength == 0 && c.stream.Unread() == []
                      && eventQueue == old(eventQueue) + [Event(c, None)])
      // the key of an open connection: the events `Drain` predicts for it
      ensures key.ClientKey? && key.index < |old(connections)| && old(connections[key.index].channel.open) ==>
                && connections == old(connections) && backlog == old(backlog)
                && var c := connections[key.index];
                   var d := Drain(old(c.nextLength), old(c.stream.Available()), StopIsEof(old(c.channel.inbound)));
                   && (ok <==> !d.last.BadLength?)
                   && (ok ==> eventQueue == old(eventQueue) + DrainEvents(c, d) && c.nextLength == d.nextLength)
                   && (!ok ==> eventQueue == old(eventQueue) + MessageEvents(c, d.messages))
                   && (ok ==> (c.channel.open <==> !d.last.Closed?))
      // a cancelled or unknown key: nothing happens
      ensures key.ClientKey? && !(key.index < |old(connections)| && old(connections[key.index].channel.open)) ==>
                && ok && eventQueue == old(eventQueue) && connections == old(connections) && backlog == old(backlog)
                && forall k :: 0 <= k < |connections| ==>
                     unchanged(connections[k], connections[k].stream, connections[k].channel)
    {
      match key
      case ServerKey =>
        ok := Accept();
      case ClientKey(i) =>
        if i < |connections| && connections[i].channel.open {
          assert connections[i].stream in Streams();
          assert connections[i] in connections;
          ok := DrainConnection(i);
        } else {
          ok := true;
        }
    }

    /**
     * `getNextEvent()`: the head of a non-empty queue, without polling the
     * selector; otherwise one `selectNow` and, if it reported keys, the head
     * of the queue after handling them; null when there is none.
     */
    method GetNextEvent() returns (p: Polled)
      requires Valid() && !broken && open
      modifies this, connections, Streams(), set c | c in connections :: c.channel
      ensures Valid() && open
      ensures p.Crashed? <==> broken
      // the event returned is the oldest one not yet returned; the others stay queued
      ensures p.Got? ==> delivered == old(delivered) + [p.event]
      ensures !p.Got? ==> delivered == old(delivered)
      ensures old(queued) <= queued
      ensures old(eventQueue) != [] ==>
                && p == Got(old(eventQueue)[0]) && eventQueue == old(eventQueue)[1..]
                && readiness == old(readiness) && selected == old(selected) && connections == old(connections)
      ensures old(eventQueue) == [] && (old(readiness) == [] || old(readiness)[0] == []) ==>
                p == NoEvent && eventQueue == [] && selected == old(selected) && connections == old(connections)
      ensures p.NoEvent? ==> eventQueue == []
    {
      if eventQueue != [] {
        p := TakeHead();
        return;
      }
      var count := Select();
      if count == 0 {
        return NoEvent;
      }
      var ok := HandleSelectedKeys();
      if !ok {
        return Crashed;
      }
      if eventQueue == [] {
        p := NoEvent;
      } else {
        p := TakeHead();
      }
    }

    /**
     * `blockForNextEvent()`: selects and handles keys until an event is
     * queued; null only when a select reports no key while the queue is
     * empty.
     */
    method BlockForNextEvent() returns (p: Polled)
      requires Valid() && !broken && open
      modifies this, connections, Streams(), set c | c in connections :: c.channel
      ensures Valid() && open
      ensures p.Crashed? <==> broken
      // the event returned is the oldest one not yet returned; the others stay queued
      ensures p.Got? ==> delivered == old(delivered) + [p.event]
      ensures !p.Got? ==> delivered == old(delivered)
      ensures old(queued) <= queued
      ensures old(eventQueue) != [] ==>
                && p == Got(old(eventQueue)[0]) && eventQueue == old(eventQueue)[1..]
                && readiness == old(readiness) && selected == old(selected) && connections == old(connections)
      // the selects made consumed a prefix of the oracle's answers
      ensures |readiness| <= |old(readiness)| && readiness == old(readiness)[|old(readiness)| - |readiness|..]
      // null only when the last select reported no key (an empty answer, or none left) and every earlier one reported some
      ensures p.NoEvent? ==>
                && eventQueue == [] && old(eventQueue) == []
                && var k := |old(readiness)| - |readiness|;
                   || (readiness == [] && forall j :: 0 <= j < k ==> old(readiness)[j] != [])
                   || (0 < k && old(readiness)[k - 1] == [] && forall j :: 0 <= j < k - 1 ==> old(readiness)[j] != [])
      // an event after an empty queue means every select made reported keys
      ensures p.Got? ==> forall j :: 0 <= j < |old(readiness)| - |readiness| ==> old(readiness)[j] != []
    {
      // the oracle's answers, of which `k` have been consumed
      ghost var R0, k := readiness, 0;
      while eventQueue == []
        invariant Valid() && !broken && open
        invariant old(eventQueue) != [] ==>
                    eventQueue == old(eventQueue) && readiness == old(readiness) && selected == old(selected)
                    && connections == old(connections)
        invariant k <= |R0| && readiness == R0[k..]
        invariant forall j :: 0 <= j < k ==> R0[j] != []
        invariant delivered == old(delivered) && old(queued) <= queued
        invariant old(connections) <= connections
        invariant forall k :: |old(connections)| <= k < |connections| ==>
                    fresh(connections[k]) && fresh(connections[k].stream) && fresh(connections[k].channel)
        decreases |readiness|, if eventQueue == [] then 1 else 0
      {
        var count := Select();
        if count == 0 {
          if k < |R0| {
            k := k + 1;
            assert R0[k - 1] == [] && readiness == R0[k..];
          }
          return NoEvent;
        }
        k := k + 1;
        assert R0[k - 1] != [] && readiness == R0[k..];
        var ok := HandleSelectedKeys();
        if !ok {
          return Crashed;
        }
      }
      p := TakeHead();
    }

    /** `eventQueue.poll()` on a non-empty queue: removes and returns the oldest queued event. */
    method TakeHead() returns (p: Polled)
      requires Valid() && eventQueue != []
      modifies this`eventQueue, this`delivered
      ensures Valid() && p == Got(old(eventQueue)[0]) && eventQueue == old(eventQueue)[1..]
      ensures delivered == old(delivered) + [p.event]
    {
      p := Got(eventQueue[0]);
      delivered := delivered + [eventQueue[0]];
      eventQueue := eventQueue[1..];
    }

    /** `close()`: closes every accepted connection and the server socket, and discards queued events. */
    method Close()
      requires Valid() && open
      modifies this, set c | c in connections :: c.channel
      ensures !open && eventQueue == [] && connections == old(connections)
      ensures forall i :: 0 <= i < |connections| ==> !connections[i].channel.open
    {
      for i := 0 to |connections|
        modifies set c | c in connections :: c.channel
        invariant forall k :: 0 <= k < i ==> !connections[k].channel.open
      {
        assert connections[i] in connections;
        connections[i].Close();
      }
      open := false;
      eventQueue := [];
    }
  }

  /** `Drain` after one `tryRead` step: a message is followed by the drain of what remains, anything else ends it. */
  lemma DrainUnfold(nl: nat, avail: seq<i8>, eof: bool)
    ensures var s := Decide(nl, avail, eof);
      && (s.result.Message? ==>
            && s.used > 0
            && Drain(nl, avail, eof).messages == [s.result.bytes] + Drain(0, avail[s.used..], eof).messages
            && Drain(nl, avail, eof).last == Drain(0, avail[s.used..], eof).last
            && Drain(nl, avail, eof).nextLength == Drain(0, avail[s.used..], eof).nextLength)
      && (!s.result.Message? ==> Drain(nl, avail, eof) == Drained([], s.result, s.nextLength, s.used))
  {
  }

  /** `d` is the drain that has yielded `received` so far and continues as `rest`. */
  predicate Continues(d: Drained, received: seq<seq<i8>>, rest: Drained)
  {
    d.messages == received + rest.messages && d.last == rest.last && d.nextLength == rest.nextLength
  }

  /** One more message extends the message events by its event. */
  lemma MessageEventsAppend(c: Connection, ms: seq<seq<i8>>, m: seq<i8>)
    ensures MessageEvents(c, ms + [m]) == MessageEvents(c, ms) + [Event(c, Some(m))]
  {
    assert MessageEvents(c, ms + [m]) == MessageEvents(c, ms) + [Event(c, Some(m))];
  }
}
