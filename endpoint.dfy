/** A MAVLink endpoint: one logical peer connection whatever the transport.
    It counts the messages it sends (and fails to send) and receives, hands
    every received message to a single registered callback, and is alive
    while messages keep arriving. Each endpoint parses on its own MAVLink
    channel, drawn from a process-wide counter. */
module Endpoint {
  import opened Options

  newtype byte = x: int | 0 <= x < 256

  /** One fully decoded MAVLink frame. */
  datatype MavlinkMessage = MavlinkMessage(sysid: byte, compid: byte, msgid: nat, payload: seq<byte>)

  /** A registered callback, known by the subscriber it forwards to. */
  datatype Callback = Callback(subscriber: nat)

  /** One invocation of a callback with a received message. */
  datatype Delivery = Delivery(callback: Callback, message: MavlinkMessage)

  // ---------------------------------------------------------------------------
  // Channels
  // ---------------------------------------------------------------------------

  /** The largest value of the uint8_t channel field of an endpoint. */
  const MaxChannel := 255

  /** An id that the uint8_t channel field can hold unchanged. */
  predicate FitsChannelField(id: int) { 0 <= id <= MaxChannel }

  /** Conversion of an int to the uint8_t channel field: modulo 256. */
  function ToChannelField(id: int): (r: int)
    ensures FitsChannelField(r)
    ensures FitsChannelField(id) ==> r == id
    ensures (r - id) % 256 == 0
  {
    id % 256
  }

  /** Ids issued by a counter that started at 0: the i-th id is i. */
  ghost predicate Sequential(ids: seq<int>)
  {
    forall i :: 0 <= i < |ids| ==> ids[i] == i
  }

  /** Ids issued so far are pairwise distinct and strictly increasing. */
  lemma SequentialIncreasing(ids: seq<int>)
    requires Sequential(ids)
    ensures forall i, j :: 0 <= i < j < |ids| ==> ids[i] < ids[j]
  {
  }

  /** Once 256 ids have been issued, the next one does not fit the channel
      field, and truncated to it collides with the first id issued. */
  lemma ChannelFieldExhausted(ids: seq<int>, next: int)
    requires Sequential(ids) && |ids| >= 256 && next == |ids|
    ensures !FitsChannelField(next)
    ensures ToChannelField(next) == ToChannelField(ids[next - 256])
  {
  }

  /** The process-wide channel counter behind checkoutFreeChannel, made an
      object that every endpoint constructor is handed. */
  class ChannelAllocator {
    /** The next id to hand out (channel_idx). */
    var channelIdx: int
    /** Every id handed out so far, in order. */
    ghost var issued: seq<int>

    ghost predicate Valid()
      reads this
    {
      |issued| == channelIdx && Sequential(issued)
    }

    /** channel_idx starts at 0. */
    constructor ()
      ensures Valid() && channelIdx == 0 && issued == []
    {
      channelIdx := 0;
      issued := [];
    }

    /** checkoutFreeChannel: returns the counter and then increments it. The
        id is new and larger than every id before it; nothing detects that
        it may no longer fit the channel field. */
    method CheckoutFreeChannel() returns (id: int)
      requires Valid()
      modifies this
      ensures Valid()
      ensures id == old(channelIdx) && channelIdx == old(channelIdx) + 1
      ensures issued == old(issued) + [id]
      ensures forall k :: 0 <= k < |old(issued)| ==> old(issued)[k] < id
      ensures FitsChannelField(id) <==> |old(issued)| <= MaxChannel
    {
      id := channelIdx;
      channelIdx := channelIdx + 1;
      issued := issued + [id];
    }
  }

  // ---------------------------------------------------------------------------
  // Counting and liveness
  // ---------------------------------------------------------------------------

  /** How many sends succeeded, given what sendMessageImpl returned for each. */
  function Successes(outcomes: seq<bool>): nat
  {
    if outcomes == [] then 0
    else Successes(outcomes[..|outcomes| - 1]) + (if outcomes[|outcomes| - 1] then 1 else 0)
  }

  /** How many sends failed. */
  function Failures(outcomes: seq<bool>): nat
  {
    if outcomes == [] then 0
    else Failures(outcomes[..|outcomes| - 1]) + (if outcomes[|outcomes| - 1] then 0 else 1)
  }

  /** Every send is counted exactly once, as a success or as a failure. */
  lemma {:induction false} EverySendCounted(outcomes: seq<bool>)
    ensures Successes(outcomes) + Failures(outcomes) == |outcomes|
    ensures Successes(outcomes) == |outcomes| <==> forall i :: 0 <= i < |outcomes| ==> outcomes[i]
  {
    if outcomes != [] {
      var prefix := outcomes[..|outcomes| - 1];
      EverySendCounted(prefix);
      if Successes(outcomes) == |outcomes| {
        assert forall i :: 0 <= i < |prefix| ==> prefix[i] == outcomes[i];
      }
    }
  }

  /** The callback invocations for messages received while cb is registered:
      one per message, in order, or none when the slot is empty. */
  function Deliveries(cb: Option<Callback>, messages: seq<MavlinkMessage>): (r: seq<Delivery>)
    ensures cb.None? ==> r == []
    ensures cb.Some? ==> |r| == |messages|
    ensures cb.Some? ==> forall i :: 0 <= i < |messages| ==> r[i] == Delivery(cb.value, messages[i])
  {
    if cb.None? || messages == [] then []
    else Deliveries(cb, messages[..|messages| - 1]) + [Delivery(cb.value, messages[|messages| - 1])]
  }

  /** The liveness window X: an endpoint is alive while its last message is
      less than this many seconds old. */
  const AliveWindow := 5

  /** isAlive: a message has been received, and less than AliveWindow ago. */
  predicate AliveAt(lastMessage: Option<int>, now: int)
  {
    lastMessage.Some? && now - lastMessage.value < AliveWindow
  }

  /** Never alive before the first message; alive at the moment one arrives;
      alive ever after only while the window lasts. */
  lemma AliveWindowBounds(t: int, now: int, later: int)
    ensures !AliveAt(None, now)
    ensures AliveAt(Some(t), t)
    ensures AliveAt(Some(t), now) && t <= later <= now ==> AliveAt(Some(t), later)
    ensures now >= t + AliveWindow ==> !AliveAt(Some(t), now)
  {
  }

  /** Arrival times read off a steady clock, which never runs backward. */
  ghost predicate NonDecreasing(ts: seq<int>)
  {
    forall i, j :: 0 <= i < j < |ts| ==> ts[i] <= ts[j]
  }

  /** The most recent of a series of arrival times, if there is one. */
  function Latest(ts: seq<int>): Option<int>
  {
    if ts == [] then None else Some(ts[|ts| - 1])
  }

  /** Some message arrived less than AliveWindow before now. */
  ghost predicate ReceivedWithin(ts: seq<int>, now: int)
  {
    exists i :: 0 <= i < |ts| && now - ts[i] < AliveWindow
  }

  /** On a steady clock, judging liveness by the last arrival alone is the
      same as asking whether any message arrived within the window. */
  lemma AliveIffRecentArrival(ts: seq<int>, now: int)
    requires NonDecreasing(ts)
    ensures AliveAt(Latest(ts), now) <==> ReceivedWithin(ts, now)
  {
    if ts != [] && AliveAt(Latest(ts), now) {
      assert now - ts[|ts| - 1] < AliveWindow;
    }
  }

  // ---------------------------------------------------------------------------
  // The endpoint
  // ---------------------------------------------------------------------------

  /** MEndpoint, with the transport's sendMessageImpl outcome, the decoder's
      output and the steady clock passed in as arguments. */
  class MEndpoint {
    /** The debug tag. */
    const tag: string
    /** The MAVLink channel used for parsing (uint8_t). */
    const mavlinkChannel: int
    /** The single callback slot; None is the null callback. */
    var callback: Option<Callback>
    /** When the last message was received; None before the first one. */
    var lastMessage: Option<int>
    var nMessagesReceived: nat
    var nMessagesSent: nat
    var nMessagesSendFailed: nat
    /** Every message handed to sendMessageImpl, in order. */
    ghost var transmitted: seq<MavlinkMessage>
    /** Every callback invocation, in order. */
    ghost var forwarded: seq<Delivery>
    /** The arrival time of every message received, in order. */
    ghost var arrivals: seq<int>

    ghost predicate Valid()
      reads this
    {
      FitsChannelField(mavlinkChannel) &&
      nMessagesSent + nMessagesSendFailed == |transmitted| &&
      |forwarded| <= nMessagesReceived &&
      |arrivals| == nMessagesReceived && NonDecreasing(arrivals) &&
      lastMessage == Latest(arrivals)
    }

    /** The clock reading now is not before the last arrival. */
    predicate ClockAtOrAfterLast(now: int)
      reads this
    {
      lastMessage.None? || lastMessage.value <= now
    }

    /** isAlive */
    predicate IsAlive(now: int)
      reads this
    {
      AliveAt(lastMessage, now)
    }

    /** isAlive answers whether any message at all was received in the last
        AliveWindow seconds. */
    lemma IsAliveIffRecentArrival(now: int)
      requires Valid()
      ensures IsAlive(now) <==> ReceivedWithin(arrivals, now)
    {
      AliveIffRecentArrival(arrivals, now);
    }

    /** A new endpoint takes the next channel id, truncated to the uint8_t
        field; nothing has been sent or received and no callback is set. */
    constructor (tag: string, channels: ChannelAllocator)
      requires channels.Valid()
      modifies channels
      ensures Valid() && channels.Valid()
      ensures this.tag == tag
      ensures channels.issued == old(channels.issued) + [old(channels.channelIdx)]
      ensures channels.channelIdx == old(channels.channelIdx) + 1
      ensures mavlinkChannel == ToChannelField(old(channels.channelIdx))
      ensures callback.None? && lastMessage.None?
      ensures nMessagesReceived == 0 && nMessagesSent == 0 && nMessagesSendFailed == 0
      ensures transmitted == [] && forwarded == [] && arrivals == []
      ensures forall now :: !IsAlive(now)
    {
      var id := channels.CheckoutFreeChannel();
      this.tag := tag;
      mavlinkChannel := ToChannelField(id);
      callback := None;
      lastMessage := None;
      nMessagesReceived, nMessagesSent, nMessagesSendFailed := 0, 0, 0;
      transmitted, forwarded, arrivals := [], [], [];
    }

    /** sendMessage: hands the message to sendMessageImpl, whose result is
        delivered, and counts it as sent or as failed. It never fails itself,
        and nothing else changes. */
    method SendMessage(message: MavlinkMessage, delivered: bool)
      requires Valid()
      modifies this
      ensures Valid()
      ensures transmitted == old(transmitted) + [message]
      ensures nMessagesSent == old(nMessagesSent) + (if delivered then 1 else 0)
      ensures nMessagesSendFailed == old(nMessagesSendFailed) + (if delivered then 0 else 1)
      ensures nMessagesReceived == old(nMessagesReceived) && lastMessage == old(lastMessage)
      ensures callback == old(callback) && forwarded == old(forwarded) && arrivals == old(arrivals)
    {
      if delivered {
        nMessagesSent := nMessagesSent + 1;
      } else {
        nMessagesSendFailed := nMessagesSendFailed + 1;
      }
      transmitted := transmitted + [message];
    }

    /** sendMessages: sends every message in order, outcomes[i] being what
        sendMessageImpl returns for messages[i]; a failure does not stop the
        rest, so sent plus failed grows by exactly |messages|. */
    method SendMessages(messages: seq<MavlinkMessage>, outcomes: seq<bool>)
      requires Valid()
      requires |outcomes| == |messages|
      modifies this
      ensures Valid()
      ensures transmitted == old(transmitted) + messages
      ensures nMessagesSent == old(nMessagesSent) + Successes(outcomes)
      ensures nMessagesSendFailed == old(nMessagesSendFailed) + Failures(outcomes)
      ensures nMessagesSent + nMessagesSendFailed == old(nMessagesSent + nMessagesSendFailed) + |messages|
      ensures nMessagesReceived == old(nMessagesReceived) && lastMessage == old(lastMessage)
      ensures callback == old(callback) && forwarded == old(forwarded) && arrivals == old(arrivals)
    {
      var i := 0;
      while i < |messages|
        invariant 0 <= i <= |messages|
        invariant Valid()
        invariant transmitted == old(transmitted) + messages[..i]
        invariant nMessagesSent == old(nMessagesSent) + Successes(outcomes[..i])
        invariant nMessagesSendFailed == old(nMessagesSendFailed) + Failures(outcomes[..i])
        invariant nMessagesReceived == old(nMessagesReceived) && lastMessage == old(lastMessage)
        invariant callback == old(callback) && forwarded == old(forwarded) && arrivals == old(arrivals)
      {
        assert outcomes[..i + 1][..i] == outcomes[..i];
        assert messages[..i + 1] == messages[..i] + [messages[i]];
        SendMessage(messages[i], outcomes[i]);
        i := i + 1;
      }
      assert messages[..i] == messages && outcomes[..i] == outcomes;
      EverySendCounted(outcomes);
    }

    /** registerCallback: puts cb in the single slot, replacing whatever was
        there; the null callback (None) empties it. */
    method RegisterCallback(cb: Option<Callback>)
      requires Valid()
      modifies this
      ensures Valid()
      ensures callback == cb
      ensures nMessagesReceived == old(nMessagesReceived) && lastMessage == old(lastMessage)
      ensures nMessagesSent == old(nMessagesSent) && nMessagesSendFailed == old(nMessagesSendFailed)
      ensures transmitted == old(transmitted) && forwarded == old(forwarded) && arrivals == old(arrivals)
    {
      callback := cb;
    }

    /** onNewMavlinkMessage: counts the message, records when it arrived, and
        forwards it to the callback if one is registered. */
    method OnNewMavlinkMessage(message: MavlinkMessage, now: int)
      requires Valid() && ClockAtOrAfterLast(now)
      modifies this
      ensures Valid()
      ensures nMessagesReceived == old(nMessagesReceived) + 1
      ensures arrivals == old(arrivals) + [now]
      ensures lastMessage == Some(now) && IsAlive(now)
      ensures forwarded == old(forwarded) + Deliveries(callback, [message])
      ensures callback == old(callback) && transmitted == old(transmitted)
      ensures nMessagesSent == old(nMessagesSent) && nMessagesSendFailed == old(nMessagesSendFailed)
    {
      nMessagesReceived := nMessagesReceived + 1;
      lastMessage := Some(now);
      arrivals := arrivals + [now];
      if callback.Some? {
        forwarded := forwarded + [Delivery(callback.value, message)];
      }
    }

    /** parseNewDataEmulateForMavsdk: the message was already parsed, so it
        has exactly the effect of onNewMavlinkMessage. */
    method ParseNewDataEmulateForMavsdk(message: MavlinkMessage, now: int)
      requires Valid() && ClockAtOrAfterLast(now)
      modifies this
      ensures Valid()
      ensures nMessagesReceived == old(nMessagesReceived) + 1
      ensures arrivals == old(arrivals) + [now]
      ensures lastMessage == Some(now) && IsAlive(now)
      ensures forwarded == old(forwarded) + Deliveries(callback, [message])
      ensures callback == old(callback) && transmitted == old(transmitted)
      ensures nMessagesSent == old(nMessagesSent) && nMessagesSendFailed == old(nMessagesSendFailed)
    {
      OnNewMavlinkMessage(message, now);
    }

    /** parseNewData: decoded is what the channel's decoder extracts from the
        new bytes, whole messages only; each one goes through
        onNewMavlinkMessage in order, all at the same clock reading. */
    method ParseNewData(decoded: seq<MavlinkMessage>, now: int)
      requires Valid() && ClockAtOrAfterLast(now)
      modifies this
      ensures Valid()
      ensures nMessagesReceived == old(nMessagesReceived) + |decoded|
      ensures arrivals == old(arrivals) + seq(|decoded|, _ => now)
      ensures lastMessage == if decoded == [] then old(lastMessage) else Some(now)
      ensures forwarded == old(forwarded) + Deliveries(callback, decoded)
      ensures callback == old(callback) && transmitted == old(transmitted)
      ensures nMessagesSent == old(nMessagesSent) && nMessagesSendFailed == old(nMessagesSendFailed)
    {
      var i := 0;
      while i < |decoded|
        invariant 0 <= i <= |decoded|
        invariant Valid() && ClockAtOrAfterLast(now)
        invariant nMessagesReceived == old(nMessagesReceived) + i
        invariant arrivals == old(arrivals) + seq(i, _ => now)
        invariant lastMessage == if i == 0 then old(lastMessage) else Some(now)
        invariant forwarded == old(forwarded) + Deliveries(callback, decoded[..i])
        invariant callback == old(callback) && transmitted == old(transmitted)
        invariant nMessagesSent == old(nMessagesSent) && nMessagesSendFailed == old(nMessagesSendFailed)
      {
        assert decoded[..i + 1][..i] == decoded[..i];
        assert seq(i + 1, _ => now) == seq(i, _ => now) + [now];
        OnNewMavlinkMessage(decoded[i], now);
        i := i + 1;
      }
      assert decoded[..i] == decoded;
    }
  }
}
