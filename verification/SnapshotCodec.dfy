/**
 Snapshots on the wire: how a source turns one into a message, with the pointers it leaves shared, and what the sink
 makes of it.
 */
module SnapshotCodec {
  import opened Prelude
  import opened Text

  type Device = map<string, string>

  /** A container or snapshot, as the database has it. */
  datatype Instance = Instance(
    name: string,
    config: map<string, string>,
    profiles: seq<string>,
    ephemeral: bool,
    devices: map<string, Device>,
    architecture: int,
    stateful: bool
  )

  datatype Pair = Pair(key: string, value: string)

  datatype DeviceMessage = DeviceMessage(name: string, config: seq<Pair>)

  datatype Message = Message(
    name: string,
    config: seq<Pair>,
    profiles: seq<string>,
    ephemeral: bool,
    devices: seq<DeviceMessage>,
    architecture: int,
    stateful: bool
  )

  // ----- messages under construction hold their names by pointer ---------------------------------------------------

  class Cell {
    var text: string

    constructor (text: string)
      ensures this.text == text
    {
      this.text := text;
    }
  }

  datatype DeviceRecord = DeviceRecord(name: Cell, config: seq<Pair>)

  datatype Record = Record(
    name: Cell,
    config: seq<Pair>,
    profiles: seq<string>,
    ephemeral: bool,
    devices: seq<DeviceRecord>,
    architecture: int,
    stateful: bool
  )

  function DevicesNow(records: seq<DeviceRecord>): (r: seq<DeviceMessage>)
    reads set d | d in records :: d.name
    ensures |r| == |records|
    ensures forall i :: 0 <= i < |r| ==> r[i] == DeviceMessage(records[i].name.text, records[i].config)
  {
    if records == [] then []
    else
      var last := records[|records| - 1];
      DevicesNow(records[..|records| - 1]) + [DeviceMessage(last.name.text, last.config)]
  }

  /** What goes out when the record is sent: every pointer stands for what it points to at that time. */
  function Sent(r: Record): Message
    reads r.name, set d | d in r.devices :: d.name
  {
    Message(r.name.text, r.config, r.profiles, r.ephemeral, DevicesNow(r.devices), r.architecture, r.stateful)
  }

  // ----- encoding --------------------------------------------------------------------------------------------------

  /** Reading pairs into a map: a later pair overwrites an earlier one with the same key. */
  function MapOf(pairs: seq<Pair>): map<string, string> {
    if pairs == [] then map[]
    else MapOf(pairs[..|pairs| - 1])[pairs[|pairs| - 1].key := pairs[|pairs| - 1].value]
  }

  /** The entries of a map whose keys are not in `todo`. */
  function Without(m: map<string, string>, todo: set<string>): (r: map<string, string>)
    ensures todo == {} ==> r == m
  {
    map k | k in m && k !in todo :: m[k]
  }

  lemma NextPair(m: map<string, string>, todo: set<string>, r: seq<Pair>, k: string)
    requires MapOf(r) == Without(m, todo) && k in todo && todo <= m.Keys
    ensures MapOf(r + [Pair(k, m[k])]) == Without(m, todo - {k})
  {
    assert (r + [Pair(k, m[k])])[..|r|] == r;
  }

  /** The pairs of a map, in whatever order they come. */
  method Pairs(m: map<string, string>) returns (r: seq<Pair>)
    ensures MapOf(r) == m && |r| == |m|
  {
    r := [];
    var todo := m.Keys;
    while todo != {}
      invariant todo <= m.Keys && |r| + |todo| == |m.Keys|
      invariant MapOf(r) == Without(m, todo)
    {
      ghost var some := SomeElement(todo);
      var k :| k in todo;
      NextPair(m, todo, r, k);
      r := r + [Pair(k, m[k])];
      todo := todo - {k};
    }
  }

  /** The last of the fields that SplitN with a limit of two finds. */
  function LastField(name: string): string {
    if '/' in name then Cut(name, '/').1 else name
  }

  /** What follows the first slash, and the whole of a name without one. */
  lemma LastFieldIs(name: string, parent: string, snap: string)
    ensures '/' !in name ==> LastField(name) == name
    ensures '/' !in parent ==> LastField(parent + ['/'] + snap) == snap
  {
    if '/' !in parent {
      CutAtSeparator(parent, snap, '/');
      assert (parent + ['/'] + snap)[|parent|] == '/';
    }
  }

  /** A later pair, or device, overwrites an earlier one of the same name, and no other. */
  lemma LaterOverwrites(pairs: seq<Pair>, devices: seq<DeviceMessage>, key: string, value: string, config: seq<Pair>)
    ensures MapOf(pairs + [Pair(key, value)]) == MapOf(pairs)[key := value]
    ensures DevicesOf(devices + [DeviceMessage(key, config)]) == DevicesOf(devices)[key := MapOf(config)]
  {
    assert (pairs + [Pair(key, value)])[..|pairs|] == pairs;
    assert (devices + [DeviceMessage(key, config)])[..|devices|] == devices;
  }

  /** The message of an instance whose devices are visited in the given order: each device has the last one's name. */
  predicate Encodes(i: Instance, order: seq<string>, m: Message) {
    && Enumerates(order, i.devices)
    && m.name == LastField(i.name)
    && MapOf(m.config) == i.config
    && m.profiles == i.profiles && m.ephemeral == i.ephemeral && m.stateful == i.stateful
    && m.architecture == Int32(i.architecture)
    && EncodesDevices(i.devices, order, m.devices)
  }

  predicate EncodesDevices(devices: map<string, Device>, order: seq<string>, messages: seq<DeviceMessage>) {
    |messages| == |order| &&
    forall k :: 0 <= k < |order| ==>
      && order[k] in devices
      && messages[k].name == order[|order| - 1]
      && MapOf(messages[k].config) == devices[order[k]]
  }

  /** The parts of a record that no pointer decides: all devices share the name of the first. */
  predicate Builds(i: Instance, order: seq<string>, r: Record) {
    && Enumerates(order, i.devices)
    && MapOf(r.config) == i.config
    && r.profiles == i.profiles && r.ephemeral == i.ephemeral && r.stateful == i.stateful
    && r.architecture == Int32(i.architecture)
    && |r.devices| == |order|
    && forall k :: 0 <= k < |order| ==> BuildsDevice(i.devices, order[k], r.devices[k], r.devices[0].name)
  }

  predicate BuildsDevice(devices: map<string, Device>, key: string, d: DeviceRecord, name: Cell) {
    key in devices && d.name == name && MapOf(d.config) == devices[key]
  }

  predicate HoldsLast(order: seq<string>, devices: seq<DeviceRecord>)
    reads if devices == [] then {} else {devices[0].name}
  {
    order != [] && devices != [] ==> devices[0].name.text == order[|order| - 1]
  }

  lemma BuiltIsEncoded(i: Instance, order: seq<string>, r: Record)
    requires Builds(i, order, r) && HoldsLast(order, r.devices)
    ensures Encodes(i, order, Sent(r).(name := LastField(i.name)))
  {
    forall k | 0 <= k < |order|
      ensures Sent(r).devices[k].name == order[|order| - 1]
      ensures order[k] in i.devices && MapOf(Sent(r).devices[k].config) == i.devices[order[k]]
    {
      assert BuildsDevice(i.devices, order[k], r.devices[k], r.devices[0].name);
    }
  }

  /** The range loop over devices: one variable holds the names in turn, and every device points to it. */
  method EncodeDevices(devices: map<string, Device>, order: seq<string>) returns (r: seq<DeviceRecord>)
    requires Enumerates(order, devices)
    ensures |r| == |order| && HoldsLast(order, r)
    ensures forall k :: 0 <= k < |order| ==> BuildsDevice(devices, order[k], r[k], r[0].name)
    ensures r != [] ==> fresh(r[0].name)
  {
    r := [];
    var name := new Cell("");
    for k := 0 to |order|
      invariant |r| == k
      invariant k > 0 ==> name.text == order[k - 1]
      invariant forall j :: 0 <= j < k ==> BuildsDevice(devices, order[j], r[j], name)
    {
      name.text := order[k];
      assert order[k] in Elements(order);
      var props := Pairs(devices[order[k]]);
      r := r + [DeviceRecord(name, props)];
    }
    assert r != [] ==> BuildsDevice(devices, order[0], r[0], name);
  }

  /** snapshotToProtobuf, visiting the devices in the given order. */
  method Encode(i: Instance, order: seq<string>) returns (r: Record)
    requires Enumerates(order, i.devices)
    ensures Builds(i, order, r) && HoldsLast(order, r.devices) && Encodes(i, order, Sent(r))
    ensures fresh(r.name) && (r.devices != [] ==> fresh(r.devices[0].name))
  {
    var config := Pairs(i.config);
    var devices := EncodeDevices(i.devices, order);
    var field := new Cell(LastField(i.name));
    r := Record(field, config, i.profiles, i.ephemeral, devices, Int32(i.architecture), i.stateful);
    BuiltIsEncoded(i, order, r);
  }

  // ----- decoding --------------------------------------------------------------------------------------------------

  function DevicesOf(devices: seq<DeviceMessage>): map<string, Device> {
    if devices == [] then map[]
    else DevicesOf(devices[..|devices| - 1])[devices[|devices| - 1].name := MapOf(devices[|devices| - 1].config)]
  }

  function Decoded(parent: string, m: Message): Instance {
    Instance(parent + ['/'] + m.name, MapOf(m.config), m.profiles, m.ephemeral, DevicesOf(m.devices), m.architecture,
             m.stateful)
  }

  method ReadPairs(pairs: seq<Pair>) returns (r: map<string, string>)
    ensures r == MapOf(pairs)
  {
    r := map[];
    for i := 0 to |pairs|
      invariant r == MapOf(pairs[..i])
    {
      r := r[pairs[i].key := pairs[i].value];
      assert pairs[..i + 1][..i] == pairs[..i];
    }
    assert pairs[..|pairs|] == pairs;
  }

  /** snapshotProtobufToContainerArgs. */
  method Decode(parent: string, m: Message) returns (r: Instance)
    ensures r == Decoded(parent, m)
  {
    var config := ReadPairs(m.config);
    var devices: map<string, Device> := map[];
    for i := 0 to |m.devices|
      invariant devices == DevicesOf(m.devices[..i])
    {
      var props := ReadPairs(m.devices[i].config);
      devices := devices[m.devices[i].name := props];
      assert m.devices[..i + 1][..i] == m.devices[..i];
    }
    assert m.devices[..|m.devices|] == m.devices;
    r := Instance(parent + ['/'] + m.name, config, m.profiles, m.ephemeral, devices, m.architecture, m.stateful);
  }

  // ----- the round trip --------------------------------------------------------------------------------------------

  /** What is left of the devices: the one visited last. */
  function LastOnly(devices: map<string, Device>, order: seq<string>): map<string, Device>
    requires Enumerates(order, devices)
  {
    if order == [] then map[]
    else
      assert order[|order| - 1] in Elements(order);
      map[order[|order| - 1] := devices[order[|order| - 1]]]
  }

  lemma {:induction false} SharedNameCollapses(messages: seq<DeviceMessage>, name: string)
    requires forall k :: 0 <= k < |messages| ==> messages[k].name == name
    ensures DevicesOf(messages) == if messages == [] then map[] else map[name := MapOf(messages[|messages| - 1].config)]
  {
    if messages != [] {
      SharedNameCollapses(messages[..|messages| - 1], name);
    }
  }

  /** Sending a snapshot and reading it under the same parent keeps all but devices and architecture, whatever the order. */
  lemma RoundTrip(parent: string, snap: string, i: Instance, order: seq<string>, m: Message)
    requires Encodes(i, order, m) && i.name == parent + ['/'] + snap && '/' !in parent
    ensures Decoded(parent, m)
         == i.(devices := LastOnly(i.devices, order), architecture := Int32(i.architecture))
    ensures order == [] ==> Decoded(parent, m).devices == map[]
    ensures order != [] ==>
              && order[|order| - 1] in i.devices
              && Decoded(parent, m).devices == map[order[|order| - 1] := i.devices[order[|order| - 1]]]
  {
    CutAtSeparator(parent, snap, '/');
    assert i.name[|parent|] == '/';
    if order != [] {
      SharedNameCollapses(m.devices, order[|order| - 1]);
    }
  }

  /** The snapshot comes back whole exactly with at most one device and an architecture that fits 32 bits. */
  lemma RoundTripIff(parent: string, snap: string, i: Instance, order: seq<string>, m: Message)
    requires Encodes(i, order, m) && i.name == parent + ['/'] + snap && '/' !in parent
    ensures Decoded(parent, m) == i <==> |i.devices| <= 1 && -0x8000_0000 <= i.architecture < 0x8000_0000
  {
    RoundTrip(parent, snap, i, order, m);
    DistinctCardinality(order);
    assert |i.devices.Keys| == |i.devices|;
    if |order| == 1 {
      assert order == [order[0]];
      assert forall k :: k in i.devices ==> k in Elements(order);
      assert LastOnly(i.devices, order) == i.devices;
    } else if order == [] {
      assert i.devices == map[];
    } else {
      assert |LastOnly(i.devices, order).Keys| == 1;
    }
  }

  // ----- headers without snapshots ---------------------------------------------------------------------------------

  /** A copy of the container's settings under the last of the names. */
  predicate LegacyCopy(c: Instance, order: seq<string>, names: seq<string>, m: Message) {
    names != [] && m.name == names[|names| - 1] && Encodes(c, order, m.(name := LastField(c.name)))
  }

  /** A record with this very name cell and the settings of the container. */
  predicate IsStandIn(c: Instance, order: seq<string>, name: Cell, r: Record)
    reads if r.devices == [] then {} else {r.devices[0].name}
  {
    && r.name == name && Builds(c, order, r) && HoldsLast(order, r.devices)
    && (r.devices != [] ==> r.devices[0].name != name)
  }

  method StandIn(c: Instance, order: seq<string>, name: Cell) returns (r: Record)
    requires Enumerates(order, c.devices)
    ensures IsStandIn(c, order, name, r)
  {
    r := Encode(c, order);
    r := r.(name := name);
  }

  lemma StandInIsCopy(c: Instance, order: seq<string>, names: seq<string>, name: Cell, r: Record)
    requires names != [] && name.text == names[|names| - 1] && IsStandIn(c, order, name, r)
    ensures LegacyCopy(c, order, names, Sent(r))
  {
    BuiltIsEncoded(c, order, r);
  }

  /**
   The sink's stand-ins when a header carries only names: copies of the container, all pointing to one name. Each visits
   the devices in an order of its own.
   */
  method LegacySnapshots(c: Instance, orders: seq<seq<string>>, names: seq<string>) returns (r: seq<Record>)
    requires |orders| == |names| && forall i :: 0 <= i < |orders| ==> Enumerates(orders[i], c.devices)
    ensures |r| == |names|
    ensures forall i :: 0 <= i < |r| ==> LegacyCopy(c, orders[i], names, Sent(r[i]))
  {
    r := [];
    var name := new Cell("");
    for i := 0 to |names|
      invariant fresh(name) && |r| == i
      invariant i > 0 ==> name.text == names[i - 1]
      invariant forall j :: 0 <= j < i ==> IsStandIn(c, orders[j], name, r[j])
    {
      name.text := names[i];
      var base := StandIn(c, orders[i], name);
      r := r + [base];
    }
    forall i | 0 <= i < |names|
      ensures LegacyCopy(c, orders[i], names, Sent(r[i]))
    {
      StandInIsCopy(c, orders[i], names, name, r[i]);
    }
  }

  function NamesOf(messages: seq<Message>): (r: seq<string>)
    ensures |r| == |messages| && forall i :: 0 <= i < |r| ==> r[i] == messages[i].name
  {
    seq(|messages|, i requires 0 <= i < |messages| => messages[i].name)
  }

  /** The stand-ins carry the names of the header exactly when these are all the same. */
  lemma LegacyNamesIff(c: Instance, orders: seq<seq<string>>, names: seq<string>, messages: seq<Message>)
    requires |messages| == |orders| == |names|
    requires forall i :: 0 <= i < |messages| ==> LegacyCopy(c, orders[i], names, messages[i])
    ensures NamesOf(messages) == names <==> forall i, j :: 0 <= i < |names| && 0 <= j < |names| ==> names[i] == names[j]
  {
    if NamesOf(messages) == names {
      forall i | 0 <= i < |names|
        ensures names[i] == names[|names| - 1]
      {
        assert LegacyCopy(c, orders[i], names, messages[i]);
        assert NamesOf(messages)[i] == names[i];
      }
    }
  }
}
