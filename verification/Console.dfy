/**
 Console fan-out: a bounded replay of what was published and one bounded queue
 per subscriber. The producer's mutex serialises its methods; consumers receive
 at any moment, so every channel operation is preceded by their interference.
 */
module Console {
  import opened Wrappers

  type Message = seq<bv8>

  const REPLAY_ENTRIES := 128
  const REPLAY_BYTES := 256 * 1024
  const SUBSCRIBER_SIZE := 64
  const QUEUE_SIZE := REPLAY_ENTRIES + SUBSCRIBER_SIZE

  // ----- suffixes and the replay window -----

  function Total(ms: seq<Message>): nat {
    if ms == [] then 0 else |ms[0]| + Total(ms[1..])
  }

  /** At most 128 messages and 256 KiB. */
  predicate Fits(ms: seq<Message>) {
    |ms| <= 128 && Total(ms) <= 262144
  }

  predicate IsSuffix(s: seq<Message>, h: seq<Message>) {
    |s| <= |h| && s == h[|h| - |s|..]
  }

  /** The longest suffix of the history within both limits. */
  ghost predicate IsWindow(r: seq<Message>, history: seq<Message>) {
    IsSuffix(r, history) && Fits(r) && forall s :: IsSuffix(s, history) && Fits(s) ==> |s| <= |r|
  }

  lemma {:induction false} TotalSnoc(ms: seq<Message>, m: Message)
    ensures Total(ms + [m]) == Total(ms) + |m|
  {
    if ms == [] {
      assert ms + [m] == [m] && [m][1..] == [];
    } else {
      TotalSnoc(ms[1..], m);
      assert (ms + [m])[1..] == ms[1..] + [m];
    }
  }

  lemma SuffixSnoc(s: seq<Message>, h: seq<Message>, m: Message)
    requires IsSuffix(s, h)
    ensures IsSuffix(s + [m], h + [m])
  {
  }

  /** No suffix that fits is longer than r. */
  ghost predicate Dominates(r: seq<Message>, history: seq<Message>) {
    forall s :: IsSuffix(s, history) && Fits(s) ==> |s| <= |r|
  }

  lemma AppendDominates(r: seq<Message>, history: seq<Message>, m: Message)
    requires IsWindow(r, history)
    ensures IsSuffix(r + [m], history + [m]) && Dominates(r + [m], history + [m])
  {
    SuffixSnoc(r, history, m);
    forall s | IsSuffix(s, history + [m]) && Fits(s) ensures |s| <= |r| + 1 {
      if s != [] {
        var t := s[..|s| - 1];
        assert s == t + [m] && IsSuffix(t, history);
        TotalSnoc(t, m);
      }
    }
  }

  lemma DropDominates(r: seq<Message>, history: seq<Message>)
    requires IsSuffix(r, history) && Dominates(r, history) && !Fits(r)
    ensures r != [] && IsSuffix(r[1..], history) && Dominates(r[1..], history)
  {
    forall s | IsSuffix(s, history) && Fits(s) ensures |s| <= |r| - 1 {
    }
  }

  // ----- subscriber channels -----

  /** A subscriber at one moment. */
  datatype Moment = Moment(buf: seq<Message>, stream: seq<Message>, received: nat, dropped: seq<nat>)
  {
    /** How much of the stream has left the queue. */
    function Front(): nat {
      received + |dropped|
    }
  }

  /**
   What offering one message may do to a subscriber, the consumer receiving
   meanwhile. At most one message is dropped, only from a queue full with 192, and
   never the new one.
   */
  ghost predicate Offered(was: Moment, now: Moment, m: Message) {
    && now.stream == was.stream + [m] && now.received >= was.received
    && (now.dropped == was.dropped ||
        (|was.buf| == 192 && |now.dropped| == |was.dropped| + 1 && now.dropped[..|was.dropped|] == was.dropped &&
         was.Front() <= now.dropped[|was.dropped|] < |was.stream|))
  }

  class Channel {
    var buf: seq<Message>
    var closed: bool
    /** Everything offered to this subscriber: the replay it started with, then each message published. */
    ghost var stream: seq<Message>
    /** How much of it the consumer has received; only the consumer's own steps change this. */
    ghost var received: nat
    /** Where in the stream a message was dropped for lack of room. */
    ghost var dropped: seq<nat>

    ghost function Now(): Moment
      reads this
    {
      Moment(buf, stream, received, dropped)
    }

    /** The queue holds exactly what is left of what was offered. */
    ghost predicate Queued(offered: seq<Message>)
      reads this
    {
      |buf| <= QUEUE_SIZE && |offered| == Now().Front() + |buf| && buf == offered[Now().Front()..]
    }

    ghost predicate Valid()
      reads this
    {
      Queued(stream)
    }

    /** What this subscriber was offered is an end of the whole history. */
    ghost predicate Follows(history: seq<Message>)
      reads this`stream
    {
      IsSuffix(stream, history)
    }

    constructor ()
      ensures Valid() && !closed && stream == [] && received == 0 && dropped == []
    {
      buf, closed, stream, received, dropped := [], false, [], 0, [];
    }

    /** The consumer receives any number of messages, from the front. */
    method Receive(ghost offered: seq<Message>)
      requires Queued(offered)
      modifies this`buf, this`received
      ensures Queued(offered) && received >= old(received) && |buf| <= |old(buf)|
    {
      var n :| 0 <= n <= |buf|;
      buf, received := buf[n..], received + n;
    }

    /** A send that does not block, `before` being what was offered so far; on a closed channel it would panic. */
    method TrySend(m: Message, ghost before: seq<Message>) returns (ok: bool)
      requires !closed && Queued(before) && stream == before + [m]
      modifies this`buf
      ensures ok <==> |old(buf)| < QUEUE_SIZE
      ensures ok ==> Valid() && buf == old(buf) + [m]
      ensures !ok ==> buf == old(buf)
    {
      ok := |buf| < QUEUE_SIZE;
      if ok { buf := buf + [m]; }
    }

    /** Take the oldest message out of the queue, if there is one, and lose it. */
    method DropOldest(ghost offered: seq<Message>)
      requires Queued(offered)
      modifies this`buf, this`dropped
      ensures Queued(offered) && |buf| < QUEUE_SIZE
      ensures if old(buf) == [] then unchanged(this) else dropped == old(dropped) + [old(Now().Front())]
    {
      if buf != [] {
        buf, dropped := buf[1..], dropped + [Now().Front()];
      }
    }

    /** Closing twice would panic. */
    method Close()
      requires !closed
      modifies this`closed
      ensures closed
    {
      closed := true;
    }
  }

  /** The select statements of publish for one subscriber, the consumer receiving in between. */
  method Deliver(c: Channel, m: Message)
    requires c.Valid() && !c.closed
    modifies c`buf, c`stream, c`received, c`dropped
    ensures c.Valid() && Offered(old(c.Now()), c.Now(), m)
  {
    ghost var before := c.stream;
    c.Receive(before);
    c.stream := c.stream + [m];
    var sent := c.TrySend(m, before);
    if !sent {
      c.Receive(before);
      c.DropOldest(before);
      c.Receive(before);
      sent := c.TrySend(m, before);
      assert sent;
    }
    c.Receive(c.stream);
  }

  /** Offer a message to every subscriber, in whatever order Go ranges over them. */
  method Broadcast(subs: set<Channel>, m: Message, ghost history: seq<Message>)
    requires forall c :: c in subs ==> c.Valid() && !c.closed && IsSuffix(c.stream + [m], history)
    modifies subs`buf, subs`stream, subs`received, subs`dropped
    ensures forall c :: c in subs ==> c.Valid() && Offered(old(c.Now()), c.Now(), m) && c.Follows(history)
  {
    var todo := subs;
    while todo != {}
      invariant todo <= subs
      invariant forall c :: c in subs ==> c.Valid()
      invariant forall c :: c in todo ==> c.Now() == old(c.Now())
      invariant forall c :: c in subs && c !in todo ==> Offered(old(c.Now()), c.Now(), m)
    {
      var c :| c in todo;
      Deliver(c, m);
      todo := todo - {c};
    }
    forall c | c in subs ensures c.Follows(history) {
      assert Offered(old(c.Now()), c.Now(), m);
    }
  }

  /** A new subscriber's channel, with the replay queued; it never blocks. */
  method Prefilled(replay: seq<Message>) returns (c: Channel)
    requires |replay| <= REPLAY_ENTRIES
    ensures fresh(c) && c.Valid() && !c.closed && c.buf == c.stream == replay && c.received == 0 && c.dropped == []
  {
    c := new Channel();
    for i := 0 to |replay|
      invariant c.Valid() && !c.closed && c.buf == c.stream == replay[..i] && c.received == 0 && c.dropped == []
    {
      ghost var before := c.stream;
      c.stream := c.stream + [replay[i]];
      var sent := c.TrySend(replay[i], before);
      assert sent && replay[..i + 1] == replay[..i] + [replay[i]];
    }
    assert replay[..|replay|] == replay;
  }

  /** Close every remaining subscriber, each exactly once. */
  method CloseAll(subs: set<Channel>)
    requires forall c :: c in subs ==> !c.closed
    modifies subs`closed
    ensures forall c :: c in subs ==> c.closed
  {
    var todo := subs;
    while todo != {}
      invariant todo <= subs
      invariant forall c :: c in subs ==> c.closed == (c !in todo)
    {
      var c :| c in todo;
      c.Close();
      todo := todo - {c};
    }
  }

  // ----- the producer -----

  class Producer {
    var replay: seq<Message>
    var bytes: int
    var subs: set<Channel>
    var closed: bool
    ghost var history: seq<Message>
    /** Every channel ever handed out. */
    ghost var channels: set<Channel>

    ghost predicate Valid()
      reads this, channels
    {
      && IsWindow(replay, history) && bytes == Total(replay)
      && subs <= channels && (closed ==> subs == {})
      && (forall c :: c in channels ==> c.Valid() && (c in subs <==> !c.closed))
      && (forall c :: c in subs ==> c.Follows(history))
    }

    constructor ()
      ensures Valid() && history == [] && !closed && subs == {} && channels == {}
    {
      replay, bytes, subs, closed, history, channels := [], 0, {}, false, [], {};
    }

    method Remember(message: Message)
      requires IsWindow(replay, history) && bytes == Total(replay)
      modifies this`replay, this`bytes, this`history
      ensures history == old(history) + [message]
      ensures IsWindow(replay, history) && bytes == Total(replay)
    {
      AppendDominates(replay, history, message);
      TotalSnoc(replay, message);
      history := history + [message];
      replay := replay + [message];
      bytes := bytes + |message|;
      Trim();
    }

    /** Drop from the front until both limits hold; the replay is never empty then. */
    method Trim()
      requires bytes == Total(replay) && IsSuffix(replay, history) && Dominates(replay, history)
      modifies this`replay, this`bytes
      ensures IsWindow(replay, history) && bytes == Total(replay)
    {
      while |replay| > REPLAY_ENTRIES || bytes > REPLAY_BYTES
        invariant bytes == Total(replay)
        invariant IsSuffix(replay, history) && Dominates(replay, history)
        decreases |replay|
      {
        DropDominates(replay, history);
        bytes := bytes - |replay[0]|;
        replay := replay[1..];
      }
    }

    method Publish(message: Message)
      requires Valid()
      modifies this`replay, this`bytes, this`history, subs`buf, subs`stream, subs`received, subs`dropped
      ensures Valid()
      ensures history == if closed then old(history) else old(history) + [message]
      ensures forall c :: c in channels ==>
        if c in subs then Offered(old(c.Now()), c.Now(), message) else c.Now() == old(c.Now())
    {
      if closed { return; }
      forall c | c in subs ensures IsSuffix(c.stream + [message], history + [message]) {
        SuffixSnoc(c.stream, history, message);
      }
      Remember(message);
      Broadcast(subs, message, history);
    }

    /** Hand out a channel that starts with the replay; None once the producer is closed. */
    method Subscribe() returns (channel: Option<Channel>)
      requires Valid()
      modifies this`subs, this`channels
      ensures Valid()
      ensures channel.None? <==> closed
      ensures channel.None? ==> unchanged(this)
      ensures channel.Some? ==> fresh(channel.value) && channel.value.buf == channel.value.stream == replay
      ensures channel.Some? ==> channel.value.received == 0 && channel.value.dropped == []
      ensures channel.Some? ==>
        subs == old(subs) + {channel.value} && channels == old(channels) + {channel.value}
    {
      if closed { return None; }
      var c := Prefilled(replay);
      assert c !in channels && c.Follows(history);
      subs := subs + {c};
      channels := channels + {c};
      return Some(c);
    }

    /** The unsubscribe closure; a second call finds nothing to do. */
    method Unsubscribe(c: Channel)
      requires Valid() && c in channels
      modifies this`subs, c`closed
      ensures Valid() && c.closed && subs == old(subs) - {c}
    {
      if c in subs {
        subs := subs - {c};
        c.Close();
      }
    }

    method CloseSubscribers()
      requires Valid()
      modifies this`subs, this`closed, subs`closed
      ensures Valid() && closed
      ensures forall c :: c in channels ==> c.closed
    {
      if closed { return; }
      closed := true;
      CloseAll(subs);
      subs := {};
    }
  }
}
