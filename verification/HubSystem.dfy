/**
  Server and hub together: which devices come to exist, for every history of packets, heartbeat reports and empty polls.
 */
module HubSystem {
  import opened Wrappers
  import opened Hub
  import opened SocketServer

  /** What is left of the first `n` polls when the empty ones are dropped. */
  ghost function Messages(polls: seq<Option<Message>>, n: nat): seq<Message>
    requires n <= |polls|
  {
    if n == 0 then [] else Messages(polls, n - 1) + if polls[n - 1].Some? then [polls[n - 1].value] else []
  }

  /** The first registration of `uuid`, of whatever type. */
  ghost function FirstRegistration(events: seq<Event>, n: nat, uuid: string): (r: Option<nat>)
    requires n <= |events|
    ensures r.None? <==> forall i :: 0 <= i < n ==> !RegistersUuid(events[i], uuid)
    ensures r.Some? ==> r.value < n && RegistersUuid(events[r.value], uuid)
                        && forall i :: 0 <= i < r.value ==> !RegistersUuid(events[i], uuid)
  {
    if n == 0 then None
    else if FirstRegistration(events, n - 1, uuid).Some? then FirstRegistration(events, n - 1, uuid)
    else if RegistersUuid(events[n - 1], uuid) then Some(n - 1)
    else None
  }

  /**
    Among the first `n` events, the first registration of the UUID has a known type, and no UUID registered before it
    contains the UUID.
   */
  ghost predicate Welcomed(events: seq<Event>, n: nat, uuid: string)
    requires n <= |events|
  {
    match FirstRegistration(events, n, uuid)
    case None => false
    case Some(i) => ClassOf(events[i].packet.payload.value.kind).Some? && !ContainedBefore(events, i, uuid)
  }

  ghost predicate RegistersSome(messages: seq<Message>, uuid: string) {
    exists k :: 0 <= k < |messages| && Registers(Some(messages[k]), uuid)
  }

  lemma RegistersSomeAppended(messages: seq<Message>, m: Message, uuid: string)
    ensures RegistersSome(messages + [m], uuid) <==> RegistersSome(messages, uuid) || Registers(Some(m), uuid)
  {
    var all := messages + [m];
    if RegistersSome(messages, uuid) {
      var k :| 0 <= k < |messages| && Registers(Some(messages[k]), uuid);
      assert all[k] == messages[k];
    }
    if Registers(Some(m), uuid) {
      assert all[|messages|] == m;
    }
  }

  lemma {:induction false} RegistersAmongPolls(polls: seq<Option<Message>>, n: nat, uuid: string)
    requires n <= |polls|
    ensures RegistersSome(Messages(polls, n), uuid) <==> First(polls, n, uuid).Some?
  {
    if n > 0 {
      RegistersAmongPolls(polls, n - 1, uuid);
      if polls[n - 1].Some? {
        RegistersSomeAppended(Messages(polls, n - 1), polls[n - 1].value, uuid);
      } else {
        assert Messages(polls, n) == Messages(polls, n - 1);
      }
    }
  }

  /** Event `i` brings the hub a registration of `uuid` with a known type. */
  ghost predicate Introduces(events: seq<Event>, i: nat, uuid: string)
    requires i < |events|
  {
    ForwardedAt(events, i) && Registers(Some(MessageOf(events[i])), uuid)
  }

  lemma {:induction false} RegistersForwarded(events: seq<Event>, n: nat, uuid: string)
    requires n <= |events|
    ensures RegistersSome(Forwarded(events, n), uuid) <==> exists i :: 0 <= i < n && Introduces(events, i, uuid)
  {
    if n > 0 {
      RegistersForwarded(events, n - 1, uuid);
      if ForwardedAt(events, n - 1) {
        RegistersSomeAppended(Forwarded(events, n - 1), MessageOf(events[n - 1]), uuid);
        assert Introduces(events, n - 1, uuid) <==> Registers(Some(MessageOf(events[n - 1])), uuid);
      } else {
        assert Forwarded(events, n) == Forwarded(events, n - 1);
      }
    }
  }

  /** Only the first registration of a UUID can reach the hub: the UUID occurs inside itself. */
  lemma WelcomedForwarded(events: seq<Event>, n: nat, uuid: string)
    requires n <= |events|
    ensures Welcomed(events, n, uuid) <==> exists i :: 0 <= i < n && Introduces(events, i, uuid)
  {
    ContainsItself(uuid);
    if i :| 0 <= i < n && Introduces(events, i, uuid) {
      assert RegistersUuid(events[i], uuid) && !ContainedBefore(events, i, uuid);
      assert FirstRegistration(events, n, uuid) == Some(i);
    }
    if Welcomed(events, n, uuid) {
      var i := FirstRegistration(events, n, uuid).value;
      assert Introduces(events, i, uuid);
    }
  }

  /** How many of the first `n` events it took to forward `m` messages and no more. */
  ghost function Seen(events: seq<Event>, n: nat, m: nat): (r: nat)
    requires n <= |events| && m <= |Forwarded(events, n)|
    ensures r <= n && Forwarded(events, r) == Forwarded(events, n)[..m]
  {
    if m == |Forwarded(events, n)| then n else Seen(events, n - 1, m)
  }

  lemma WelcomedRegisters(events: seq<Event>, n: nat, uuid: string)
    requires n <= |events|
    ensures RegistersSome(Forwarded(events, n), uuid) <==> Welcomed(events, n, uuid)
  {
    RegistersForwarded(events, n, uuid);
    WelcomedForwarded(events, n, uuid);
  }

  lemma SeenPolled(events: seq<Event>, polls: seq<Option<Message>>)
    requires Messages(polls, |polls|) <= Forwarded(events, |events|)
    ensures Forwarded(events, Seen(events, |events|, |Messages(polls, |polls|)|)) == Messages(polls, |polls|)
  {
  }

  /** Whatever the hub has polled so far, its devices are those of the UUIDs welcomed by the events behind that. */
  lemma DeviceExists(events: seq<Event>, polls: seq<Option<Message>>, uuid: string)
    requires Messages(polls, |polls|) <= Forwarded(events, |events|)
    ensures First(polls, |polls|, uuid).Some?
            <==> Welcomed(events, Seen(events, |events|, |Messages(polls, |polls|)|), uuid)
  {
    SeenPolled(events, polls);
    WelcomedRegisters(events, Seen(events, |events|, |Messages(polls, |polls|)|), uuid);
    RegistersAmongPolls(polls, |polls|, uuid);
  }

  /**
    Both threads' loops, at any moment: the hub has polled some of what was forwarded to it. It has a device for exactly
    the UUIDs welcomed by the events behind that, and all of them are connected.
   */
  method Run(events: seq<Event>, polls: seq<Option<Message>>)
    returns (list: seq<DeviceRegistration>, devices: map<string, Device>)
    requires Messages(polls, |polls|) <= Forwarded(events, |events|)
    ensures ListOf(list, events, |events|)
    ensures forall uuid ::
              uuid in devices <==> Welcomed(events, Seen(events, |events|, |Messages(polls, |polls|)|), uuid)
    ensures forall uuid :: uuid in devices ==> HasEntry(list, uuid)
  {
    var inbox, replies, effects;
    list, inbox, replies := Serve(events);
    devices, effects := Dispatch(polls);
    ghost var n := Seen(events, |events|, |Messages(polls, |polls|)|);
    forall uuid
      ensures uuid in devices <==> Welcomed(events, n, uuid)
      ensures uuid in devices ==> HasEntry(list, uuid)
    {
      DeviceExists(events, polls, uuid);
      if Welcomed(events, n, uuid) {
        assert Last(events, |events|, uuid).Some?;
      }
    }
  }

  /** When no registered UUID occurs inside another, the type of the first registration alone decides. */
  lemma WelcomedWhenApart(events: seq<Event>, n: nat, uuid: string)
    requires n <= |events|
    requires forall i, j :: 0 <= i < n && 0 <= j < n && IsRegistration(events[i]) && IsRegistration(events[j])
               && Contains(events[i].packet.payload.value.uuid, events[j].packet.payload.value.uuid)
               ==> events[i].packet.payload.value.uuid == events[j].packet.payload.value.uuid
    ensures Welcomed(events, n, uuid)
            <==> FirstRegistration(events, n, uuid).Some?
                 && ClassOf(events[FirstRegistration(events, n, uuid).value].packet.payload.value.kind).Some?
  {
    var first := FirstRegistration(events, n, uuid);
    if first.Some? {
      assert RegistersUuid(events[first.value], uuid);
      assert forall i :: 0 <= i < first.value ==> !RegistersUuid(events[i], uuid);
    }
  }

  ghost predicate FirstContaining(list: seq<DeviceRegistration>, k: nat, uuid: string) {
    && k < |list| && Contains(list[k].uuid, uuid)
    && forall j :: 0 <= j < k ==> !Contains(list[j].uuid, uuid)
  }

  lemma EntryAfter(list: seq<DeviceRegistration>, events: seq<Event>, k: nat, uuid: string, other: string)
    requires ListOf(list, events, |events|) && FirstContaining(list, k, uuid)
    requires Contains(other, uuid) && Last(events, |events|, other).Some?
    ensures list[k].uuid == other
            || Last(events, |events|, list[k].uuid).value < Last(events, |events|, other).value
  {
    assert HasEntry(list, other);
    var j :| 0 <= j < |list| && list[j].uuid == other;
    assert k <= j;
  }

  /**
    `SendMessage(uuid)` takes the first entry inside which the UUID occurs. That is the UUID's own connection exactly
    when it is registered and no UUID containing it was last registered before it.
   */
  lemma RoutedHome(list: seq<DeviceRegistration>, events: seq<Event>, k: nat, uuid: string)
    requires ListOf(list, events, |events|) && FirstContaining(list, k, uuid)
    ensures var n := |events|;
            list[k].uuid == uuid
            <==> Last(events, n, uuid).Some?
                 && forall other :: other != uuid && Contains(other, uuid) && Last(events, n, other).Some? ==>
                      Last(events, n, uuid).value < Last(events, n, other).value
  {
    if list[k].uuid == uuid {
      forall other | other != uuid && Contains(other, uuid) && Last(events, |events|, other).Some?
        ensures Last(events, |events|, uuid).value < Last(events, |events|, other).value
      {
        EntryAfter(list, events, k, uuid, other);
      }
    } else if Last(events, |events|, uuid).Some? {
      ContainsItself(uuid);
      EntryAfter(list, events, k, uuid, uuid);
    }
  }

  lemma ShadowedFrom(events: seq<Event>, outer: string, inner: string)
    requires |events| == 3 && RegistersUuid(events[0], outer) && RegistersUuid(events[1], inner)
    requires events[2].Received? && events[2].packet.payload.Some? && !IsRegistration(events[2])
    requires events[2].packet.payload.value.uuid == inner && events[2].packet.payload.value.command != HEARTBEAT
    requires outer != inner && Contains(outer, inner)
    ensures ForwardedAt(events, 0) && !ForwardedAt(events, 1) && ForwardedAt(events, 2)
    ensures !Welcomed(events, 3, inner)
  {
    assert IsRegistration(events[0]) && Contains(events[0].packet.payload.value.uuid, inner);
    assert ContainedBefore(events, 1, inner) && ContainedBefore(events, 2, inner);
  }

  lemma ForwardedNext(events: seq<Event>, n: nat)
    requires n < |events|
    ensures Forwarded(events, n + 1)
            == if ForwardedAt(events, n) then Forwarded(events, n) + [MessageOf(events[n])] else Forwarded(events, n)
  {
  }

  lemma FirstAndThird(events: seq<Event>)
    requires |events| == 3 && ForwardedAt(events, 0) && !ForwardedAt(events, 1) && ForwardedAt(events, 2)
    ensures Forwarded(events, 3) == [MessageOf(events[0]), MessageOf(events[2])]
  {
    ForwardedNext(events, 0);
    ForwardedNext(events, 1);
    ForwardedNext(events, 2);
  }

  lemma ShadowedReply(first: Message, third: Message)
    requires first.uuid != third.uuid && first.command == REGISTRATION && third.command != REGISTRATION
    ensures var polls := [Some(first), Some(third)];
            Messages(polls, 2) == [first, third] && EffectOf(polls, 1) == [Sent(third.uuid, NotRegisteredText())]
  {
    var polls := [Some(first), Some(third)];
    assert Messages(polls, 1) == [first];
    assert !Registers(polls[0], third.uuid);
  }

  /**
    A longer UUID registers, then one that stands anywhere inside it: the second never gets a device, and what it sends
    is answered as not registered.
   */
  lemma ShadowedUuid(before: string, after: string, first: Message, second: Message, third: Message)
    requires first.command == 21 && first.uuid == before + second.uuid + after && |before| + |after| > 0
    requires second.command == 21
    requires third.command != 21 && third.command != 20 && third.uuid == second.uuid
    ensures var events := [Received(WebsocketMessage(7, Some(first))), Received(WebsocketMessage(8, Some(second))),
                           Received(WebsocketMessage(8, Some(third)))];
            var polls := [Some(first), Some(third)];
            && !Welcomed(events, 3, second.uuid)
            && Messages(polls, |polls|) == Forwarded(events, 3)
            && EffectOf(polls, 1) == [Sent(second.uuid, NotRegisteredText())]
  {
    var events := [Received(WebsocketMessage(7, Some(first))), Received(WebsocketMessage(8, Some(second))),
                   Received(WebsocketMessage(8, Some(third)))];
    assert |first.uuid| > |second.uuid|;
    FoundInside(before, second.uuid, after);
    ShadowedFrom(events, first.uuid, second.uuid);
    ShadowedReply(first, third);
    FirstAndThird(events);
  }

  /** After the same two registrations, what is sent to the shorter UUID goes out on the connection of the longer one. */
  lemma ShadowedRoute(before: string, after: string, first: Message, second: Message, i: nat)
    requires first.command == 21 && first.uuid == before + second.uuid + after && |before| + |after| > 0
    requires second.command == 21
    ensures var events := [Received(WebsocketMessage(7, Some(first))), Received(WebsocketMessage(8, Some(second)))];
            FirstOffer(events, i, second.uuid) <==> i == 0
  {
    var events := [Received(WebsocketMessage(7, Some(first))), Received(WebsocketMessage(8, Some(second)))];
    assert |first.uuid| > |second.uuid|;
    assert Offers(events, 0, second.uuid);
  }
}
