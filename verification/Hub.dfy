/**
  The hub's dispatch loop (src/main.cpp): a registry of devices, filled by registration messages, to which every other
  message is passed on. Devices are identified by the place in the inbox of the message that made them.
 */
module Hub {
  import opened Wrappers

  // headers/CommandTypes.hpp
  const NOT_REGISTERED: nat := 10
  const INVALID_FORMAT: nat := 11
  const HEARTBEAT: int := 20
  const REGISTRATION: int := 21

  /** A parsed message: its fields "command", "UUID" and "Type", and its text. */
  datatype Message = Message(command: int, uuid: string, kind: string, text: string)

  /** The device classes */
  datatype Class = Bed | Chair | Column | Door | Fridge | Lamp | SimulatedDevice | Wall | Website | WIB {
    function Name(): string {
      match this
      case Bed => "Bed"
      case Chair => "Chair"
      case Column => "Column"
      case Door => "Door"
      case Fridge => "Fridge"
      case Lamp => "Lamp"
      case SimulatedDevice => "SimulatedDevice"
      case Wall => "Wall"
      case Website => "Website"
      case WIB => "WIB"
    }
  }

  /** A device object; its further state is not modelled, and nothing it does changes the registry. */
  datatype Device = Device(id: nat, class_: Class, uuid: string, kind: string)

  datatype Effect =
    | Constructed(device: Device)
    | Handled(device: Device, text: string)
    | Sent(uuid: string, text: string)

  /** The chain of type tests */
  function ClassOf(kind: string): (c: Option<Class>)
    ensures c.Some? ==> c.value.Name() == kind
  {
    if kind == "Bed" then Some(Bed)
    else if kind == "Chair" then Some(Chair)
    else if kind == "Column" then Some(Column)
    else if kind == "Door" then Some(Door)
    else if kind == "Fridge" then Some(Fridge)
    else if kind == "Lamp" then Some(Lamp)
    else if kind == "SimulatedDevice" then Some(SimulatedDevice)
    else if kind == "Wall" then Some(Wall)
    else if kind == "Website" then Some(Website)
    else if kind == "WIB" then Some(WIB)
    else None
  }

  /** Ten types are known, each under its own name. */
  lemma ClassOfName(c: Class)
    ensures ClassOf(c.Name()) == Some(c)
  {
  }

  predicate KnownType(kind: string) {
    kind in ["Bed", "Chair", "Column", "Door", "Fridge", "Lamp", "SimulatedDevice", "Wall", "Website", "WIB"]
  }

  lemma KnownTypes(kind: string)
    ensures ClassOf(kind).Some? <==> KnownType(kind)
  {
  }

  function NotRegisteredText(): string {
    "{\"error\":10,\"description\":\"Device object was not yet created!\"}"
  }

  /** The message registers `uuid` with a known type. */
  predicate Registers(item: Option<Message>, uuid: string) {
    item.Some? && item.value.command == REGISTRATION && item.value.uuid == uuid && ClassOf(item.value.kind).Some?
  }

  /** The place of the first registration of `uuid` among the first `n` items. */
  ghost function First(inbox: seq<Option<Message>>, n: nat, uuid: string): (r: Option<nat>)
    requires n <= |inbox|
    ensures r.None? <==> forall i :: 0 <= i < n ==> !Registers(inbox[i], uuid)
    ensures r.Some? ==> r.value < n && Registers(inbox[r.value], uuid)
                        && forall i :: 0 <= i < r.value ==> !Registers(inbox[i], uuid)
  {
    if n == 0 then None
    else if First(inbox, n - 1, uuid).Some? then First(inbox, n - 1, uuid)
    else if Registers(inbox[n - 1], uuid) then Some(n - 1)
    else None
  }

  lemma FirstStays(inbox: seq<Option<Message>>, m: nat, n: nat, uuid: string)
    requires m <= n <= |inbox| && First(inbox, m, uuid).Some?
    ensures First(inbox, n, uuid) == First(inbox, m, uuid)
  {
    var i := First(inbox, m, uuid).value;
    assert Registers(inbox[i], uuid);
    var r := First(inbox, n, uuid);
    assert r.Some?;
    assert !(r.value < i) && !(i < r.value);
  }

  /** The device that item `i` makes. */
  ghost function DeviceOf(inbox: seq<Option<Message>>, i: nat): Device
    requires i < |inbox| && exists uuid :: Registers(inbox[i], uuid)
  {
    var m := inbox[i].value;
    Device(i, ClassOf(m.kind).value, m.uuid, m.kind)
  }

  /**
    What item `i` causes. A registration with a known type makes a device, even if its UUID has one already. Another
    message goes to the device of the first registration before it, and is answered once if there was none.
   */
  ghost function EffectOf(inbox: seq<Option<Message>>, i: nat): seq<Effect>
    requires i < |inbox|
  {
    if inbox[i].None? then []
    else
      var m := inbox[i].value;
      if m.command == REGISTRATION then
        if Registers(inbox[i], m.uuid) then [Constructed(DeviceOf(inbox, i))] else []
      else
        match First(inbox, i, m.uuid)
        case Some(j) => [Handled(DeviceOf(inbox, j), m.text)]
        case None => [Sent(m.uuid, NotRegisteredText())]
  }

  /**
    A message that is no registration is handled, by a device of the type that its UUID first registered with, if and
    only if there was such a registration; otherwise it causes one reply and nothing else.
   */
  lemma HandledIffRegistered(inbox: seq<Option<Message>>, i: nat)
    requires i < |inbox| && inbox[i].Some? && inbox[i].value.command != REGISTRATION
    ensures var m := inbox[i].value;
            (exists device :: EffectOf(inbox, i) == [Handled(device, m.text)])
            <==> exists j :: 0 <= j < i && Registers(inbox[j], m.uuid)
    ensures var m := inbox[i].value;
            forall device :: EffectOf(inbox, i) == [Handled(device, m.text)] ==>
              device.uuid == m.uuid && device.class_.Name() == device.kind
              && device.id < i && Registers(inbox[device.id], m.uuid) && device.kind == inbox[device.id].value.kind
              && forall j :: 0 <= j < device.id ==> !Registers(inbox[j], m.uuid)
    ensures var m := inbox[i].value;
            EffectOf(inbox, i) == [Sent(m.uuid, NotRegisteredText())]
            <==> forall j :: 0 <= j < i ==> !Registers(inbox[j], m.uuid)
  {
    var m := inbox[i].value;
    match First(inbox, i, m.uuid)
    case None =>
      assert EffectOf(inbox, i)[0] == Sent(m.uuid, NotRegisteredText());
    case Some(j) =>
      assert Registers(inbox[j], m.uuid);
      assert EffectOf(inbox, i) == [Handled(DeviceOf(inbox, j), m.text)];
      assert EffectOf(inbox, i)[0] == Handled(DeviceOf(inbox, j), m.text);
  }

  ghost function EffectsUpTo(inbox: seq<Option<Message>>, n: nat): seq<Effect>
    requires n <= |inbox|
  {
    if n == 0 then [] else EffectsUpTo(inbox, n - 1) + EffectOf(inbox, n - 1)
  }

  /** Item `j` makes a device of `uuid`. */
  predicate Makes(inbox: seq<Option<Message>>, j: nat, uuid: string) {
    && j < |inbox| && inbox[j].Some?
    && inbox[j].value.command == 21 && inbox[j].value.uuid == uuid && KnownType(inbox[j].value.kind)
  }

  lemma MakesIff(inbox: seq<Option<Message>>, j: nat, uuid: string)
    requires j < |inbox|
    ensures Makes(inbox, j, uuid) <==> Registers(inbox[j], uuid)
  {
    if inbox[j].Some? {
      KnownTypes(inbox[j].value.kind);
    }
  }

  /** Item `i` causes something: it is neither an empty poll nor a registration of an unknown type. */
  predicate Acts(inbox: seq<Option<Message>>, i: nat)
    requires i < |inbox|
  {
    inbox[i].Some? && (inbox[i].value.command == 21 ==> KnownType(inbox[i].value.kind))
  }

  /** The device is the one that item `j` makes. */
  predicate MadeBy(device: Device, inbox: seq<Option<Message>>, j: nat) {
    && Makes(inbox, j, device.uuid)
    && device.id == j && device.kind == inbox[j].value.kind == device.class_.Name()
  }

  /** The effect is what item `i` has to cause. */
  ghost predicate Explains(effect: Effect, inbox: seq<Option<Message>>, i: nat)
    requires i < |inbox|
  {
    inbox[i].Some? &&
    var m := inbox[i].value;
    match effect
    case Constructed(device) => m.command == 21 && MadeBy(device, inbox, i)
    case Handled(device, text) =>
      && m.command != 21 && text == m.text && device.uuid == m.uuid && device.id < i
      && MadeBy(device, inbox, device.id) && forall j :: 0 <= j < device.id ==> !Makes(inbox, j, m.uuid)
    case Sent(uuid, text) =>
      && m.command != 21 && uuid == m.uuid && text == "{\"error\":10,\"description\":\"Device object was not yet created!\"}"
      && forall j :: 0 <= j < i ==> !Makes(inbox, j, m.uuid)
  }

  /** A registration causes one construction or nothing, another message one effect, and an empty poll none. */
  lemma EffectExplained(inbox: seq<Option<Message>>, i: nat)
    requires i < |inbox|
    ensures if Acts(inbox, i) then |EffectOf(inbox, i)| == 1 && Explains(EffectOf(inbox, i)[0], inbox, i)
            else EffectOf(inbox, i) == []
  {
    if inbox[i].Some? {
      var m := inbox[i].value;
      forall j | 0 <= j <= i
        ensures Makes(inbox, j, m.uuid) <==> Registers(inbox[j], m.uuid)
      {
        MakesIff(inbox, j, m.uuid);
      }
    }
  }

  ghost function AllActs(inbox: seq<Option<Message>>, n: nat): (r: seq<bool>)
    requires n <= |inbox|
    ensures |r| == n && forall i :: 0 <= i < n ==> r[i] == Acts(inbox, i)
  {
    if n == 0 then [] else AllActs(inbox, n - 1) + [Acts(inbox, n - 1)]
  }

  /** Just the acting items have caused the effects, one each, in the order of these. */
  ghost predicate EffectsOf(effects: seq<Effect>, inbox: seq<Option<Message>>, n: nat)
    requires n <= |inbox|
  {
    var places := Chosen(AllActs(inbox, n));
    |effects| == |places|
    && forall k :: 0 <= k < |places| ==> places[k] < n && Explains(effects[k], inbox, places[k])
  }

  lemma EffectsExtended(effects: seq<Effect>, inbox: seq<Option<Message>>, n: nat, more: seq<Effect>)
    requires n < |inbox| && EffectsOf(effects, inbox, n)
    requires if Acts(inbox, n) then |more| == 1 && Explains(more[0], inbox, n) else |more| == 0
    ensures EffectsOf(effects + more, inbox, n + 1)
  {
    ChosenNext(AllActs(inbox, n), Acts(inbox, n));
  }

  lemma EffectsNext(inbox: seq<Option<Message>>, n: nat)
    requires n < |inbox| && EffectsOf(EffectsUpTo(inbox, n), inbox, n)
    ensures EffectsOf(EffectsUpTo(inbox, n + 1), inbox, n + 1)
  {
    EffectExplained(inbox, n);
    EffectsExtended(EffectsUpTo(inbox, n), inbox, n, EffectOf(inbox, n));
  }

  lemma EffectsInOrder(inbox: seq<Option<Message>>, n: nat)
    requires n <= |inbox|
    ensures EffectsOf(EffectsUpTo(inbox, n), inbox, n)
  {
    for i := 0 to n
      invariant EffectsOf(EffectsUpTo(inbox, i), inbox, i)
    {
      EffectsNext(inbox, i);
    }
  }

  lemma {:induction false} EffectsContain(inbox: seq<Option<Message>>, i: nat, n: nat, effect: Effect)
    requires i < n <= |inbox| && effect in EffectOf(inbox, i)
    ensures effect in EffectsUpTo(inbox, n)
    decreases n
  {
    if i < n - 1 {
      EffectsContain(inbox, i, n - 1, effect);
    }
  }

  lemma FirstConstructed(inbox: seq<Option<Message>>, n: nat, uuid: string)
    requires n <= |inbox| && First(inbox, n, uuid).Some?
    ensures Constructed(DeviceOf(inbox, First(inbox, n, uuid).value)) in EffectsUpTo(inbox, n)
  {
    var j := First(inbox, n, uuid).value;
    assert EffectOf(inbox, j)[0] == Constructed(DeviceOf(inbox, j));
    EffectsContain(inbox, j, n, Constructed(DeviceOf(inbox, j)));
  }

  /** No device handles a message before it is constructed. */
  ghost predicate Constructive(effects: seq<Effect>) {
    forall k :: 0 <= k < |effects| && effects[k].Handled? ==> Constructed(effects[k].device) in effects[..k]
  }

  lemma ConstructiveExtended(effects: seq<Effect>, more: seq<Effect>)
    requires Constructive(effects) && |more| <= 1
    requires forall e :: e in more && e.Handled? ==> Constructed(e.device) in effects
    ensures Constructive(effects + more)
  {
    var all := effects + more;
    forall k | 0 <= k < |all| && all[k].Handled?
      ensures Constructed(all[k].device) in all[..k]
    {
      if k < |effects| {
        assert all[..k] == effects[..k];
      } else {
        assert all[..k] == effects && all[k] in more;
      }
    }
  }

  lemma HandledConstructed(inbox: seq<Option<Message>>, i: nat, effect: Effect)
    requires i < |inbox| && effect in EffectOf(inbox, i) && effect.Handled?
    ensures Constructed(effect.device) in EffectsUpTo(inbox, i)
  {
    FirstConstructed(inbox, i, inbox[i].value.uuid);
  }

  lemma ConstructiveNext(inbox: seq<Option<Message>>, n: nat)
    requires n < |inbox| && Constructive(EffectsUpTo(inbox, n))
    ensures Constructive(EffectsUpTo(inbox, n + 1))
  {
    EffectExplained(inbox, n);
    forall e | e in EffectOf(inbox, n) && e.Handled?
      ensures Constructed(e.device) in EffectsUpTo(inbox, n)
    {
      HandledConstructed(inbox, n, e);
    }
    ConstructiveExtended(EffectsUpTo(inbox, n), EffectOf(inbox, n));
  }

  lemma ConstructedFirst(inbox: seq<Option<Message>>, n: nat)
    requires n <= |inbox|
    ensures Constructive(EffectsUpTo(inbox, n))
  {
    for i := 0 to n
      invariant Constructive(EffectsUpTo(inbox, i))
    {
      ConstructiveNext(inbox, i);
    }
  }

  /** The registry holds the device of the first registration of each UUID, and nothing else. */
  ghost predicate RegistryOf(devices: map<string, Device>, inbox: seq<Option<Message>>, n: nat)
    requires n <= |inbox|
  {
    forall uuid ::
      (uuid in devices <==> First(inbox, n, uuid).Some?)
      && (uuid in devices ==> devices[uuid] == DeviceOf(inbox, First(inbox, n, uuid).value))
  }

  /** Once a UUID has a device, it keeps that device. */
  lemma RegistryKeeps(before: map<string, Device>, after: map<string, Device>,
                      inbox: seq<Option<Message>>, m: nat, n: nat, uuid: string)
    requires m <= n <= |inbox| && RegistryOf(before, inbox, m) && RegistryOf(after, inbox, n)
    requires uuid in before
    ensures uuid in after && after[uuid] == before[uuid]
  {
    FirstStays(inbox, m, n, uuid);
  }

  /** `std::map::insert`, which does not replace */
  function Inserted(devices: map<string, Device>, device: Device): map<string, Device> {
    if device.uuid in devices then devices else devices[device.uuid := device]
  }

  lemma RegistryExtends(devices: map<string, Device>, inbox: seq<Option<Message>>, i: nat)
    requires i < |inbox| && RegistryOf(devices, inbox, i)
    ensures if inbox[i].Some? && Registers(inbox[i], inbox[i].value.uuid)
            then RegistryOf(Inserted(devices, DeviceOf(inbox, i)), inbox, i + 1)
            else RegistryOf(devices, inbox, i + 1)
  {
  }

  /** The body of the loop in `main`, for the item that `GetMessage` returned. */
  method DispatchOne(inbox: seq<Option<Message>>, i: nat, devices: map<string, Device>)
    returns (after: map<string, Device>, effects: seq<Effect>)
    requires i < |inbox| && RegistryOf(devices, inbox, i)
    ensures RegistryOf(after, inbox, i + 1)
    ensures effects == EffectOf(inbox, i)
  {
    RegistryExtends(devices, inbox, i);
    after, effects := devices, [];
    if inbox[i].None? {
      // nothing in the inbox yet
      return;
    }
    var message := inbox[i].value;
    if message.command == REGISTRATION {
      var class_ := ClassOf(message.kind);
      if class_.Some? {
        assert Registers(inbox[i], message.uuid);
        var device := Device(i, class_.value, message.uuid, message.kind);
        effects := [Constructed(device)];
        after := Inserted(devices, device);
      }
    } else if message.uuid in devices {
      effects := [Handled(devices[message.uuid], message.text)];
    } else {
      effects := [Sent(message.uuid, NotRegisteredText())];
    }
  }

  /** `main`, over what `GetMessage` returns; None is the empty string. */
  method Dispatch(inbox: seq<Option<Message>>) returns (devices: map<string, Device>, effects: seq<Effect>)
    ensures RegistryOf(devices, inbox, |inbox|)
    ensures effects == EffectsUpTo(inbox, |inbox|) && EffectsOf(effects, inbox, |inbox|) && Constructive(effects)
    ensures forall uuid :: uuid in devices ==> Constructed(devices[uuid]) in effects
  {
    devices, effects := map[], [];
    for i := 0 to |inbox|
      invariant RegistryOf(devices, inbox, i)
      invariant effects == EffectsUpTo(inbox, i)
    {
      var more;
      devices, more := DispatchOne(inbox, i, devices);
      effects := effects + more;
    }
    EffectsInOrder(inbox, |inbox|);
    ConstructedFirst(inbox, |inbox|);
    forall uuid | uuid in devices
      ensures Constructed(devices[uuid]) in effects
    {
      FirstConstructed(inbox, |inbox|, uuid);
    }
  }
}
