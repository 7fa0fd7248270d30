/**
 * The in-process publish/subscribe registry of poll results
 * (src/utils/voting-pub-sub.ts): a table from poll id to the ordered list of
 * subscribers of that poll. A subscriber callback is modelled by an opaque id,
 * and calling it with a message is recorded as a `Delivery`.
 */
module PubSub {

  type PollId = string

  /** Identifies one subscriber callback; two registrations may share an id. */
  type SubscriberId = nat

  /** What subscribers receive: an option of the poll and its vote count. */
  datatype Message = Message(pollOptionId: string, votes: int)

  /** One call of a subscriber callback with a message. */
  datatype Delivery = Delivery(subscriber: SubscriberId, message: Message)

  type Channels = map<PollId, seq<SubscriberId>>

  /** The subscribers of `pollId`, in registration order; none when it has no channel. */
  function ChannelOf(channels: Channels, pollId: PollId): seq<SubscriberId>
  {
    if pollId in channels then channels[pollId] else []
  }

  /** The table after `subscriber` subscribes to `pollId`. */
  function Subscribed(channels: Channels, pollId: PollId, subscriber: SubscriberId): Channels
  {
    channels[pollId := ChannelOf(channels, pollId) + [subscriber]]
  }

  /** The calls made when `message` is published to the list `subscribers`. */
  function Fanout(subscribers: seq<SubscriberId>, message: Message): (ds: seq<Delivery>)
    ensures |ds| == |subscribers|
    ensures forall i :: 0 <= i < |ds| ==> ds[i] == Delivery(subscribers[i], message)
  {
    if subscribers == [] then []
    else [Delivery(subscribers[0], message)] + Fanout(subscribers[1..], message)
  }

  /** How many of the calls `ds` go to `subscriber`. */
  function DeliveriesTo(ds: seq<Delivery>, subscriber: SubscriberId): nat
  {
    if ds == [] then 0
    else (if ds[0].subscriber == subscriber then 1 else 0) + DeliveriesTo(ds[1..], subscriber)
  }

  class VotingPubSub {
    var channels: Channels

    constructor ()
      ensures channels == map[]
    {
      channels := map[];
    }

    /** Registers `subscriber` at the end of the channel of `pollId`, creating the channel if missing. */
    method Subscribe(pollId: PollId, subscriber: SubscriberId)
      modifies this
      ensures channels == Subscribed(old(channels), pollId, subscriber)
    {
      if pollId !in channels {
        channels := channels[pollId := []];
      }
      channels := channels[pollId := channels[pollId] + [subscriber]];
    }

    /**
     * Calls every subscriber of `pollId` once per registration, in registration
     * order, with `message`; returns the calls made. It changes no field.
     */
    method Publish(pollId: PollId, message: Message) returns (deliveries: seq<Delivery>)
      ensures deliveries == Fanout(ChannelOf(channels, pollId), message)
    {
      var subscribers := if pollId in channels then channels[pollId] else [];
      deliveries := [];
      for i := 0 to |subscribers|
        invariant |deliveries| == i
        invariant forall k :: 0 <= k < i ==> deliveries[k] == Delivery(subscribers[k], message)
      {
        deliveries := deliveries + [Delivery(subscribers[i], message)];
      }
    }
  }

  /** A poll id with no channel gets exactly `[subscriber]`. */
  lemma SubscribeCreatesChannel(channels: Channels, pollId: PollId, subscriber: SubscriberId)
    requires pollId !in channels
    ensures Subscribed(channels, pollId, subscriber)[pollId] == [subscriber]
  {
  }

  /** Subscribing appends: the old channel is a prefix of the new one, which ends with the subscriber. */
  lemma SubscribeAppends(channels: Channels, pollId: PollId, subscriber: SubscriberId)
    ensures var after := ChannelOf(Subscribed(channels, pollId, subscriber), pollId);
      |after| == |ChannelOf(channels, pollId)| + 1 &&
      after[..|after| - 1] == ChannelOf(channels, pollId) &&
      after[|after| - 1] == subscriber
  {
  }

  /** Subscribing changes only the entry of its own poll id. */
  lemma SubscribeLeavesOtherPolls(channels: Channels, pollId: PollId, subscriber: SubscriberId)
    ensures Subscribed(channels, pollId, subscriber).Keys == channels.Keys + {pollId}
    ensures forall q :: q != pollId && q in channels ==>
      Subscribed(channels, pollId, subscriber)[q] == channels[q]
  {
  }

  /** Publishing to a poll id with no channel calls nobody. */
  lemma PublishWithoutChannel(channels: Channels, pollId: PollId, message: Message)
    requires pollId !in channels
    ensures Fanout(ChannelOf(channels, pollId), message) == []
  {
  }

  /** Each registration of a subscriber yields exactly one call to it. */
  lemma {:induction false} FanoutPerRegistration(subscribers: seq<SubscriberId>, message: Message, s: SubscriberId)
    ensures DeliveriesTo(Fanout(subscribers, message), s) == multiset(subscribers)[s]
  {
    if subscribers != [] {
      var ds := Fanout(subscribers, message);
      FanoutPerRegistration(subscribers[1..], message, s);
      assert ds[1..] == Fanout(subscribers[1..], message);
      assert subscribers == [subscribers[0]] + subscribers[1..];
    }
  }

  /** A subscriber registered only under other poll ids receives nothing from a publish to `pollId`. */
  lemma PublishOnlyToItsChannel(channels: Channels, pollId: PollId, message: Message, s: SubscriberId)
    requires forall q :: q in channels && s in channels[q] ==> q != pollId
    ensures DeliveriesTo(Fanout(ChannelOf(channels, pollId), message), s) == 0
  {
    FanoutPerRegistration(ChannelOf(channels, pollId), message, s);
  }

  /** A later publish reaches a new subscriber after everybody registered before it. */
  lemma PublishAfterSubscribe(channels: Channels, pollId: PollId, subscriber: SubscriberId, message: Message)
    ensures Fanout(ChannelOf(Subscribed(channels, pollId, subscriber), pollId), message)
         == Fanout(ChannelOf(channels, pollId), message) + [Delivery(subscriber, message)]
  {
  }

  /** Registrations are not deduplicated: subscribing twice means two calls on every publish. */
  lemma SubscribeTwiceDeliversTwice(channels: Channels, pollId: PollId, s: SubscriberId, message: Message)
    ensures var twice := Subscribed(Subscribed(channels, pollId, s), pollId, s);
      ChannelOf(twice, pollId) == ChannelOf(channels, pollId) + [s, s] &&
      DeliveriesTo(Fanout(ChannelOf(twice, pollId), message), s)
        == DeliveriesTo(Fanout(ChannelOf(channels, pollId), message), s) + 2
  {
    var before := ChannelOf(channels, pollId);
    var twice := Subscribed(Subscribed(channels, pollId, s), pollId, s);
    assert ChannelOf(twice, pollId) == before + [s, s];
    FanoutPerRegistration(before, message, s);
    FanoutPerRegistration(before + [s, s], message, s);
  }
}
