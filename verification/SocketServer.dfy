/**
  The socket server in front of the hub (src/Websocket/SocketServer.cpp): it keeps the list of connections and decides
  which messages reach the hub's inbox. A UUID counts as registered when it occurs INSIDE a registered one.
 */
module SocketServer {
  import opened Wrappers
  import opened Hub

  datatype DeviceRegistration = DeviceRegistration(uuid: string, handle: nat)

  /** A websocket message; the payload is None when it is not JSON or lacks one of the three required fields. */
  datatype WebsocketMessage = WebsocketMessage(handle: nat, payload: Option<Message>)

  /** What one round of the receiving thread takes from its queue, or the heartbeat thread adds to the hub's inbox. */
  datatype Event = Received(packet: WebsocketMessage) | Status(uuid: string, kind: string, text: string)

  datatype Reply = Reply(handle: nat, error: nat)

  predicate OccursAt(s: string, sub: string, i: nat) {
    i + |sub| <= |s| && s[i..i + |sub|] == sub
  }

  /** `s.find(sub) != string::npos` */
  predicate Contains(s: string, sub: string) {
    exists i :: 0 <= i <= |s| && OccursAt(s, sub, i)
  }

  lemma ContainsItself(s: string)
    ensures Contains(s, s)
  {
    assert OccursAt(s, s, 0);
  }

  /** One string stands somewhere in another. */
  ghost predicate Inside(s: string, sub: string) {
    exists before, after :: s == before + sub + after
  }

  lemma FoundInside(before: string, sub: string, after: string)
    ensures Contains(before + sub + after, sub)
  {
    assert OccursAt(before + sub + after, sub, |before|);
  }

  lemma ContainsIff(s: string, sub: string)
    ensures Contains(s, sub) <==> Inside(s, sub)
  {
    if i :| 0 <= i <= |s| && OccursAt(s, sub, i) {
      assert s == s[..i] + sub + s[i + |sub|..];
    }
    if before, after :| s == before + sub + after {
      FoundInside(before, sub, after);
    }
  }

  predicate IsRegistration(e: Event) {
    e.Received? && e.packet.payload.Some? && e.packet.payload.value.command == REGISTRATION
  }

  predicate RegistersUuid(e: Event, uuid: string) {
    IsRegistration(e) && e.packet.payload.value.uuid == uuid
  }

  /** The last registration of `uuid` among the first `n` events. */
  ghost function Last(events: seq<Event>, n: nat, uuid: string): (r: Option<nat>)
    requires n <= |events|
    ensures r.None? <==> forall i :: 0 <= i < n ==> !RegistersUuid(events[i], uuid)
    ensures r.Some? ==> r.value < n && RegistersUuid(events[r.value], uuid)
                        && forall i :: r.value < i < n ==> !RegistersUuid(events[i], uuid)
  {
    if n == 0 then None
    else if RegistersUuid(events[n - 1], uuid) then Some(n - 1)
    else Last(events, n - 1, uuid)
  }

  /** Some registration before event `n` has a UUID inside which `uuid` occurs. */
  ghost predicate ContainedBefore(events: seq<Event>, n: nat, uuid: string)
    requires n <= |events|
  {
    exists i :: 0 <= i < n && IsRegistration(events[i]) && Contains(events[i].packet.payload.value.uuid, uuid)
  }

  /** The hub gets a registration only if its UUID counts as new, and anything but a heartbeat only if it does not. */
  ghost predicate ForwardedAt(events: seq<Event>, i: nat)
    requires i < |events|
  {
    match events[i]
    case Status(_, _, _) => true
    case Received(packet) =>
      packet.payload.Some? &&
      var m := packet.payload.value;
      if m.command == REGISTRATION then !ContainedBefore(events, i, m.uuid)
      else ContainedBefore(events, i, m.uuid) && m.command != HEARTBEAT
  }

  ghost function MessageOf(e: Event): Message
    requires e.Received? ==> e.packet.payload.Some?
  {
    match e
    case Received(packet) => packet.payload.value
    case Status(uuid, kind, text) => Message(HEARTBEAT, uuid, kind, text)
  }

  ghost function Forwarded(events: seq<Event>, n: nat): seq<Message>
    requires n <= |events|
  {
    if n == 0 then []
    else Forwarded(events, n - 1) + if ForwardedAt(events, n - 1) then [MessageOf(events[n - 1])] else []
  }

  /** The error that event `i` is answered with, if any. */
  ghost function ReplyAt(events: seq<Event>, i: nat): seq<Reply>
    requires i < |events|
  {
    match events[i]
    case Status(_, _, _) => []
    case Received(packet) =>
      if packet.payload.None? then [Reply(packet.handle, INVALID_FORMAT)]
      else if packet.payload.value.command != REGISTRATION && !ContainedBefore(events, i, packet.payload.value.uuid)
      then [Reply(packet.handle, NOT_REGISTERED)]
      else []
  }

  ghost function Replies(events: seq<Event>, n: nat): seq<Reply>
    requires n <= |events|
  {
    if n == 0 then [] else Replies(events, n - 1) + ReplyAt(events, n - 1)
  }

  /**
    What one event adds to the hub's inbox and to the replies. A well-formed packet is forwarded or answered, and never
    both; only a registration of a known UUID and a heartbeat from one are neither.
   */
  lemma EventOutputs(events: seq<Event>, i: nat)
    requires i < |events|
    ensures var forwarded, replies := Forwarded(events, i), Replies(events, i);
            match events[i]
            case Status(uuid, kind, text) =>
              && Forwarded(events, i + 1) == forwarded + [Message(20, uuid, kind, text)]
              && Replies(events, i + 1) == replies
            case Received(WebsocketMessage(handle, None)) =>
              Forwarded(events, i + 1) == forwarded && Replies(events, i + 1) == replies + [Reply(handle, 11)]
            case Received(WebsocketMessage(handle, Some(m))) =>
              var known := ContainedBefore(events, i, m.uuid);
              && Forwarded(events, i + 1)
                 == (if (m.command == 21 && !known) || (m.command != 21 && m.command != 20 && known) then forwarded + [m]
                     else forwarded)
              && Replies(events, i + 1)
                 == if m.command != 21 && !known then replies + [Reply(handle, 10)] else replies
  {
  }

  /** Event `i` is answered: it is no message at all, or one of an unknown UUID that does not register. */
  ghost predicate Answered(events: seq<Event>, i: nat)
    requires i < |events|
  {
    && events[i].Received?
    && (events[i].packet.payload.Some? ==>
          var m := events[i].packet.payload.value;
          m.command != 21 && !ContainedBefore(events, i, m.uuid))
  }

  /** Event `i` reaches the hub: a status report, a new registration, or a message of a known UUID but its heartbeat. */
  ghost predicate Passed(events: seq<Event>, i: nat)
    requires i < |events|
  {
    match events[i]
    case Status(_, _, _) => true
    case Received(packet) =>
      packet.payload.Some? &&
      var m := packet.payload.value;
      if m.command == 21 then !ContainedBefore(events, i, m.uuid)
      else m.command != 20 && ContainedBefore(events, i, m.uuid)
  }

  ghost function AllAnswered(events: seq<Event>, n: nat): (r: seq<bool>)
    requires n <= |events|
    ensures |r| == n && forall i :: 0 <= i < n ==> r[i] == Answered(events, i)
  {
    if n == 0 then [] else AllAnswered(events, n - 1) + [Answered(events, n - 1)]
  }

  ghost function AllPassed(events: seq<Event>, n: nat): (r: seq<bool>)
    requires n <= |events|
    ensures |r| == n && forall i :: 0 <= i < n ==> r[i] == Passed(events, i)
  {
    if n == 0 then [] else AllPassed(events, n - 1) + [Passed(events, n - 1)]
  }

  ghost predicate Answers(reply: Reply, e: Event) {
    && e.Received? && reply.handle == e.packet.handle
    && reply.error == if e.packet.payload.None? then 11 else 10
  }

  ghost predicate Carries(m: Message, e: Event) {
    match e
    case Status(uuid, kind, text) => m == Message(20, uuid, kind, text)
    case Received(packet) => packet.payload == Some(m)
  }

  /** The replies go to the senders of just the answered events, in the order of these. */
  ghost predicate AnswersTo(replies: seq<Reply>, events: seq<Event>, n: nat)
    requires n <= |events|
  {
    var places := Chosen(AllAnswered(events, n));
    |replies| == |places|
    && forall k :: 0 <= k < |places| ==> places[k] < n && Answers(replies[k], events[places[k]])
  }

  /** The inbox holds the messages of just the passed events, in the order of these. */
  ghost predicate InboxOf(inbox: seq<Message>, events: seq<Event>, n: nat)
    requires n <= |events|
  {
    var places := Chosen(AllPassed(events, n));
    |inbox| == |places|
    && forall k :: 0 <= k < |places| ==> places[k] < n && Carries(inbox[k], events[places[k]])
  }

  lemma AnswersExtended(replies: seq<Reply>, events: seq<Event>, n: nat, reply: Reply)
    requires n < |events| && AnswersTo(replies, events, n)
    ensures !Answered(events, n) ==> AnswersTo(replies, events, n + 1)
    ensures Answered(events, n) && Answers(reply, events[n]) ==> AnswersTo(replies + [reply], events, n + 1)
  {
    ChosenNext(AllAnswered(events, n), Answered(events, n));
  }

  lemma AnswersNext(events: seq<Event>, n: nat)
    requires n < |events| && AnswersTo(Replies(events, n), events, n)
    ensures AnswersTo(Replies(events, n + 1), events, n + 1)
  {
    EventOutputs(events, n);
    var reply := if ReplyAt(events, n) == [] then Reply(0, 0) else ReplyAt(events, n)[0];
    AnswersExtended(Replies(events, n), events, n, reply);
  }

  lemma {:induction false} RepliesInOrder(events: seq<Event>, n: nat)
    requires n <= |events|
    ensures AnswersTo(Replies(events, n), events, n)
  {
    if n > 0 {
      RepliesInOrder(events, n - 1);
      AnswersNext(events, n - 1);
    }
  }

  lemma InboxExtended(inbox: seq<Message>, events: seq<Event>, n: nat, m: Message)
    requires n < |events| && InboxOf(inbox, events, n)
    ensures !Passed(events, n) ==> InboxOf(inbox, events, n + 1)
    ensures Passed(events, n) && Carries(m, events[n]) ==> InboxOf(inbox + [m], events, n + 1)
  {
    ChosenNext(AllPassed(events, n), Passed(events, n));
  }

  lemma InboxNext(events: seq<Event>, n: nat)
    requires n < |events| && InboxOf(Forwarded(events, n), events, n)
    ensures InboxOf(Forwarded(events, n + 1), events, n + 1)
  {
    var m := if Passed(events, n) then MessageOf(events[n]) else Message(0, "", "", "");
    InboxExtended(Forwarded(events, n), events, n, m);
  }

  lemma {:induction false} ForwardedInOrder(events: seq<Event>, n: nat)
    requires n <= |events|
    ensures InboxOf(Forwarded(events, n), events, n)
  {
    if n > 0 {
      ForwardedInOrder(events, n - 1);
      InboxNext(events, n - 1);
    }
  }

  ghost predicate HasEntry(list: seq<DeviceRegistration>, uuid: string) {
    exists k :: 0 <= k < |list| && list[k].uuid == uuid
  }

  /** Each entry is a UUID's last registration, and they stand in the order in which those came. */
  ghost predicate InOrder(list: seq<DeviceRegistration>, events: seq<Event>, n: nat)
    requires n <= |events|
  {
    && (forall k :: 0 <= k < |list| ==>
          Last(events, n, list[k].uuid).Some?
          && list[k].handle == events[Last(events, n, list[k].uuid).value].packet.handle)
    && (forall j, k :: 0 <= j < k < |list| ==> Last(events, n, list[j].uuid).value < Last(events, n, list[k].uuid).value)
  }

  /** The list has one entry for each registered UUID, with the connection of its last registration. */
  ghost predicate ListOf(list: seq<DeviceRegistration>, events: seq<Event>, n: nat)
    requires n <= |events|
  {
    && InOrder(list, events, n)
    && (forall uuid :: Last(events, n, uuid).Some? ==> HasEntry(list, uuid))
  }

  /** The same, with the entry of `uuid` missing. */
  ghost predicate ListOfOthers(list: seq<DeviceRegistration>, events: seq<Event>, n: nat, uuid: string)
    requires n <= |events|
  {
    && InOrder(list, events, n)
    && !HasEntry(list, uuid)
    && (forall other :: other != uuid && Last(events, n, other).Some? ==> HasEntry(list, other))
  }

  function Erased(list: seq<DeviceRegistration>, i: nat): (r: seq<DeviceRegistration>)
    requires i < |list|
    ensures |r| == |list| - 1
    ensures forall k :: 0 <= k < |r| ==> r[k] == list[if k < i then k else k + 1]
  {
    list[..i] + list[i + 1..]
  }

  lemma ErasedInOrder(list: seq<DeviceRegistration>, i: nat, events: seq<Event>, n: nat)
    requires i < |list| && n <= |events| && InOrder(list, events, n)
    ensures InOrder(Erased(list, i), events, n)
  {
  }

  lemma ErasedEntries(list: seq<DeviceRegistration>, i: nat, other: string)
    requires i < |list|
    requires forall j, k :: 0 <= j < k < |list| ==> list[j].uuid != list[k].uuid
    ensures HasEntry(Erased(list, i), other) <==> other != list[i].uuid && HasEntry(list, other)
  {
    var rest := Erased(list, i);
    if other != list[i].uuid && HasEntry(list, other) {
      var k :| 0 <= k < |list| && list[k].uuid == other;
      assert rest[if k < i then k else k - 1].uuid == other;
    }
  }

  lemma Erasing(list: seq<DeviceRegistration>, i: nat, events: seq<Event>, n: nat)
    requires i < |list| && n <= |events| && ListOf(list, events, n)
    ensures ListOfOthers(Erased(list, i), events, n, list[i].uuid)
  {
    ErasedInOrder(list, i, events, n);
    assert forall j, k :: 0 <= j < k < |list| ==> list[j].uuid != list[k].uuid;
    forall other
      ensures HasEntry(Erased(list, i), other) <==> other != list[i].uuid && HasEntry(list, other)
    {
      ErasedEntries(list, i, other);
    }
  }

  function EntryOf(packet: WebsocketMessage): DeviceRegistration
    requires packet.payload.Some?
  {
    DeviceRegistration(packet.payload.value.uuid, packet.handle)
  }

  lemma AppendingInOrder(list: seq<DeviceRegistration>, events: seq<Event>, n: nat)
    requires n < |events| && IsRegistration(events[n])
    requires InOrder(list, events, n) && !HasEntry(list, events[n].packet.payload.value.uuid)
    ensures InOrder(list + [EntryOf(events[n].packet)], events, n + 1)
  {
    var all := list + [EntryOf(events[n].packet)];
    forall k | 0 <= k < |list|
      ensures all[k] == list[k] && Last(events, n + 1, list[k].uuid) == Last(events, n, list[k].uuid)
    {
      assert list[k].uuid != events[n].packet.payload.value.uuid;
    }
  }

  lemma Appending(list: seq<DeviceRegistration>, events: seq<Event>, n: nat)
    requires n < |events| && IsRegistration(events[n])
    requires ListOfOthers(list, events, n, events[n].packet.payload.value.uuid)
    ensures ListOf(list + [EntryOf(events[n].packet)], events, n + 1)
  {
    var all := list + [EntryOf(events[n].packet)];
    AppendingInOrder(list, events, n);
    forall uuid | Last(events, n + 1, uuid).Some?
      ensures HasEntry(all, uuid)
    {
      if uuid == events[n].packet.payload.value.uuid {
        assert all[|list|].uuid == uuid;
      } else {
        assert HasEntry(list, uuid);
        var k :| 0 <= k < |list| && list[k].uuid == uuid;
        assert all[k].uuid == uuid;
      }
    }
  }

  /** A packet that is no registration leaves the list as it was. */
  lemma Keeping(list: seq<DeviceRegistration>, events: seq<Event>, n: nat)
    requires n < |events| && !IsRegistration(events[n]) && ListOf(list, events, n)
    ensures ListOf(list, events, n + 1)
  {
    assert forall uuid :: Last(events, n + 1, uuid) == Last(events, n, uuid);
  }

  /** Being inside an entry of the list is being inside some earlier registration. */
  lemma ContainedInList(list: seq<DeviceRegistration>, events: seq<Event>, n: nat, uuid: string)
    requires n <= |events| && ListOf(list, events, n)
    ensures (exists k :: 0 <= k < |list| && Contains(list[k].uuid, uuid)) <==> ContainedBefore(events, n, uuid)
  {
    if k :| 0 <= k < |list| && Contains(list[k].uuid, uuid) {
      assert Last(events, n, list[k].uuid).Some?;
    }
    if ContainedBefore(events, n, uuid) {
      var i :| 0 <= i < n && IsRegistration(events[i]) && Contains(events[i].packet.payload.value.uuid, uuid);
      assert RegistersUuid(events[i], events[i].packet.payload.value.uuid);
      assert HasEntry(list, events[i].packet.payload.value.uuid);
    }
  }

  class SocketServer {
    var registeredDevices: seq<DeviceRegistration>
    var messageQueue: seq<Message>
    var replies: seq<Reply>

    constructor ()
      ensures registeredDevices == [] && messageQueue == [] && replies == []
    {
      registeredDevices, messageQueue, replies := [], [], [];
    }

    ghost predicate After(events: seq<Event>, n: nat)
      requires n <= |events|
      reads this
    {
      && ListOf(registeredDevices, events, n)
      && messageQueue == Forwarded(events, n)
      && replies == Replies(events, n)
    }

    /** The search in `isDeviceRegistered` and `getRegisteredDevice`: the first entry inside which the UUID occurs. */
    method FindEntry(uuid: string) returns (r: Option<nat>)
      ensures r.Some? ==> r.value < |registeredDevices| && Contains(registeredDevices[r.value].uuid, uuid)
                          && forall k :: 0 <= k < r.value ==> !Contains(registeredDevices[k].uuid, uuid)
      ensures r.None? ==> forall k :: 0 <= k < |registeredDevices| ==> !Contains(registeredDevices[k].uuid, uuid)
    {
      for i := 0 to |registeredDevices|
        invariant forall k :: 0 <= k < i ==> !Contains(registeredDevices[k].uuid, uuid)
      {
        if Contains(registeredDevices[i].uuid, uuid) {
          return Some(i);
        }
      }
      r := None;
    }

    /** The connection that `SendMessage(uuid, text)` sends on; None when it returns false. */
    method SendMessage(uuid: string) returns (r: Option<nat>)
      ensures r.None? <==> forall k :: 0 <= k < |registeredDevices| ==> !Contains(registeredDevices[k].uuid, uuid)
      ensures r.Some? ==> exists k ::
                0 <= k < |registeredDevices| && r.value == registeredDevices[k].handle
                && Contains(registeredDevices[k].uuid, uuid)
                && forall j :: 0 <= j < k ==> !Contains(registeredDevices[j].uuid, uuid)
    {
      var entry := FindEntry(uuid);
      r := if entry.None? then None else Some(registeredDevices[entry.value].handle);
    }

    /** The erasing loop: removes the first entry with exactly this UUID. */
    method EraseEntry(uuid: string, ghost events: seq<Event>, ghost n: nat)
      requires n <= |events| && ListOf(registeredDevices, events, n)
      modifies `registeredDevices
      ensures ListOfOthers(registeredDevices, events, n, uuid)
    {
      for i := 0 to |registeredDevices|
        invariant registeredDevices == old(registeredDevices)
        invariant forall k :: 0 <= k < i ==> registeredDevices[k].uuid != uuid
      {
        if registeredDevices[i].uuid == uuid {
          Erasing(registeredDevices, i, events, n);
          registeredDevices := Erased(registeredDevices, i);
          return;
        }
      }
    }

    method RegisterDevice(packet: WebsocketMessage)
      requires packet.payload.Some?
      modifies `registeredDevices
      ensures registeredDevices == old(registeredDevices) + [EntryOf(packet)]
    {
      registeredDevices := registeredDevices + [EntryOf(packet)];
    }

    /** One round of `parseIncomingMessages`. */
    method Receive(packet: WebsocketMessage, ghost events: seq<Event>, ghost n: nat)
      requires n < |events| && events[n] == Received(packet) && After(events, n)
      modifies this
      ensures After(events, n + 1)
    {
      if !IsRegistration(events[n]) {
        Keeping(registeredDevices, events, n);
      }
      if packet.payload.None? {
        replies := replies + [Reply(packet.handle, INVALID_FORMAT)];
        return;
      }
      var message := packet.payload.value;
      ContainsItself(message.uuid);
      ContainedInList(registeredDevices, events, n, message.uuid);
      var entry := FindEntry(message.uuid);

      if entry.None? {
        if message.command == REGISTRATION {
          Appending(registeredDevices, events, n);
          RegisterDevice(packet);
        } else {
          replies := replies + [Reply(packet.handle, NOT_REGISTERED)];
          return;
        }
      } else if message.command == REGISTRATION {
        EraseEntry(message.uuid, events, n);
        Appending(registeredDevices, events, n);
        RegisterDevice(packet);
        return;
      } else if message.command == HEARTBEAT {
        // goes to the heartbeat thread
        return;
      }

      messageQueue := messageQueue + [message];
    }

    /** The heartbeat thread reports a change of status to the device. */
    method ReportStatus(uuid: string, kind: string, text: string, ghost events: seq<Event>, ghost n: nat)
      requires n < |events| && events[n] == Status(uuid, kind, text) && After(events, n)
      modifies `messageQueue
      ensures After(events, n + 1)
    {
      Keeping(registeredDevices, events, n);
      messageQueue := messageQueue + [Message(HEARTBEAT, uuid, kind, text)];
    }
  }

  method ServeAll(events: seq<Event>) returns (server: SocketServer)
    ensures fresh(server) && server.After(events, |events|)
  {
    server := new SocketServer();
    for i := 0 to |events|
      invariant fresh(server) && server.After(events, i)
    {
      match events[i] {
        case Received(packet) => server.Receive(packet, events, i);
        case Status(uuid, kind, text) => server.ReportStatus(uuid, kind, text, events, i);
      }
    }
  }

  /** Any interleaving of received packets and heartbeat reports. */
  method Serve(events: seq<Event>) returns (list: seq<DeviceRegistration>, inbox: seq<Message>, replies: seq<Reply>)
    ensures ListOf(list, events, |events|)
    ensures inbox == Forwarded(events, |events|) && InboxOf(inbox, events, |events|)
    ensures replies == Replies(events, |events|) && AnswersTo(replies, events, |events|)
  {
    var server := ServeAll(events);
    list, inbox, replies := server.registeredDevices, server.messageQueue, server.replies;
    ForwardedInOrder(events, |events|);
    RepliesInOrder(events, |events|);
  }

  /** Event `i` is the last registration of a UUID inside which `uuid` stands. */
  ghost predicate Offers(events: seq<Event>, i: nat, uuid: string) {
    && i < |events| && IsRegistration(events[i])
    && Inside(events[i].packet.payload.value.uuid, uuid)
    && forall j :: i < j < |events| ==> !RegistersUuid(events[j], events[i].packet.payload.value.uuid)
  }

  lemma EntryOffers(list: seq<DeviceRegistration>, events: seq<Event>, k: nat, uuid: string) returns (i: nat)
    requires ListOf(list, events, |events|) && k < |list| && Contains(list[k].uuid, uuid)
    ensures Offers(events, i, uuid) && events[i].packet.handle == list[k].handle
    ensures Last(events, |events|, list[k].uuid) == Some(i)
  {
    i := Last(events, |events|, list[k].uuid).value;
    ContainsIff(list[k].uuid, uuid);
  }

  lemma OfferHasEntry(list: seq<DeviceRegistration>, events: seq<Event>, i: nat, uuid: string) returns (k: nat)
    requires ListOf(list, events, |events|) && Offers(events, i, uuid)
    ensures k < |list| && Contains(list[k].uuid, uuid) && Last(events, |events|, list[k].uuid) == Some(i)
  {
    var other := events[i].packet.payload.value.uuid;
    ContainsIff(other, uuid);
    assert RegistersUuid(events[i], other);
    assert HasEntry(list, other);
    k :| 0 <= k < |list| && list[k].uuid == other;
  }

  /** Event `i` is the earliest of the last registrations of the UUIDs inside which `uuid` stands. */
  ghost predicate FirstOffer(events: seq<Event>, i: nat, uuid: string) {
    Offers(events, i, uuid) && forall j: nat :: Offers(events, j, uuid) ==> i <= j
  }

  lemma EntryIsFirstOffer(list: seq<DeviceRegistration>, events: seq<Event>, k: nat, uuid: string) returns (i: nat)
    requires ListOf(list, events, |events|) && k < |list| && Contains(list[k].uuid, uuid)
    requires forall j :: 0 <= j < k ==> !Contains(list[j].uuid, uuid)
    ensures FirstOffer(events, i, uuid) && events[i].packet.handle == list[k].handle
  {
    i := EntryOffers(list, events, k, uuid);
    forall j: nat | Offers(events, j, uuid)
      ensures i <= j
    {
      var other := OfferHasEntry(list, events, j, uuid);
      assert k <= other;
    }
  }

  lemma NoEntryNoOffer(list: seq<DeviceRegistration>, events: seq<Event>, uuid: string, i: nat)
    requires ListOf(list, events, |events|) && forall k :: 0 <= k < |list| ==> !Contains(list[k].uuid, uuid)
    ensures !Offers(events, i, uuid)
  {
    if Offers(events, i, uuid) {
      var k := OfferHasEntry(list, events, i, uuid);
    }
  }

  /**
    `SendMessage(uuid)` after any history: it goes out on the connection of the earliest of the last registrations of
    the UUIDs inside which `uuid` stands, and on none if there is no such registration.
   */
  method Route(events: seq<Event>, uuid: string) returns (r: Option<nat>)
    ensures r.None? ==> forall i: nat :: !Offers(events, i, uuid)
    ensures r.Some? ==> exists i: nat :: FirstOffer(events, i, uuid) && events[i].packet.handle == r.value
  {
    var server := ServeAll(events);
    r := server.SendMessage(uuid);
    if r.Some? {
      ghost var k: nat :| k < |server.registeredDevices| && r.value == server.registeredDevices[k].handle
                          && Contains(server.registeredDevices[k].uuid, uuid)
                          && forall j :: 0 <= j < k ==> !Contains(server.registeredDevices[j].uuid, uuid);
      ghost var i := EntryIsFirstOffer(server.registeredDevices, events, k, uuid);
    } else {
      forall i: nat
        ensures !Offers(events, i, uuid)
      {
        NoEntryNoOffer(server.registeredDevices, events, uuid, i);
      }
    }
  }
}
