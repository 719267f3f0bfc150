/** Devices, net indices and schematic databases
    (libs/polygon/doc/tutorial/device.hpp, schematic_database.hpp). */
module Schematics {

  const PIN := "PIN"

  datatype Device = Device(typ: string, terminals: seq<string>)

  // A net name and the indices of the devices that have a terminal on it.
  type NetIndex = map<string, set<nat>>

  // The value of a schematic database at one moment.
  datatype Schematic = Schematic(devices: seq<Device>, nets: NetIndex)

  // What the parser and the device extractor produce: a pin has one terminal, a transistor three.
  predicate WellFormedDevice(d: Device) {
    |d.terminals| == if d.typ == PIN then 1 else 3
  }

  predicate WellFormed(devices: seq<Device>) {
    forall i :: 0 <= i < |devices| ==> WellFormedDevice(devices[i])
  }

  // The device set of a net; a name that is not indexed has none.
  function NodesOf(nets: NetIndex, net: string): set<nat> {
    if net in nets then nets[net] else {}
  }

  ghost predicate SameIndex(a: NetIndex, b: NetIndex) {
    forall net :: NodesOf(a, net) == NodesOf(b, net)
  }

  // The devices of which some terminal is on the net.
  function DevicesOn(devices: seq<Device>, net: string): set<nat> {
    set i: nat | i < |devices| && net in devices[i].terminals
  }

  // The net names in use.
  function NetNames(devices: seq<Device>): set<string> {
    set i, j | 0 <= i < |devices| && 0 <= j < |devices[i].terminals| :: devices[i].terminals[j]
  }

  // The index that belongs to a device list.
  function Netlist(devices: seq<Device>): (nets: NetIndex)
    ensures forall net :: NodesOf(nets, net) == DevicesOn(devices, net)
  {
    var nets: NetIndex := map net | net in NetNames(devices) :: DevicesOn(devices, net);
    assert forall net :: NodesOf(nets, net) == DevicesOn(devices, net) by {
      forall net ensures NodesOf(nets, net) == DevicesOn(devices, net) {
        if net !in NetNames(devices) {
          assert forall i: nat :: i < |devices| ==> net !in devices[i].terminals;
        }
      }
    }
    nets
  }

  // A device list together with its own index.
  function Indexed(devices: seq<Device>): Schematic {
    Schematic(devices, Netlist(devices))
  }

  class SchematicDatabase {
    var devices: seq<Device>
    var nets: NetIndex

    constructor (devices: seq<Device>)
      ensures this.devices == devices && nets == map[]
    {
      this.devices := devices;
      nets := map[];
    }

    // The database holds a given value, up to names indexed with an empty set.
    ghost predicate Represents(s: Schematic)
      reads this
    {
      devices == s.devices && SameIndex(nets, s.nets)
    }

    // Subscripting the index: a missing name is entered with an empty set.
    method At(net: string) returns (nodes: set<nat>)
      modifies this`nets
      ensures nodes == NodesOf(old(nets), net)
      ensures nets == if net in old(nets) then old(nets) else old(nets)[net := {}]
      ensures SameIndex(nets, old(nets))
    {
      if net !in nets {
        nets := nets[net := {}];
      }
      nodes := nets[net];
    }

    // Enter every device under the nets of all its terminals, on top of what the index holds.
    method ExtractNetlist()
      modifies this`nets
      ensures nets.Keys == old(nets).Keys + NetNames(devices)
      ensures forall net :: NodesOf(nets, net) == NodesOf(old(nets), net) + DevicesOn(devices, net)
      ensures old(nets) == map[] ==> nets == Netlist(devices)
    {
      for i := 0 to |devices|
        invariant nets.Keys == old(nets).Keys + NetNames(devices[..i])
        invariant forall net :: NodesOf(nets, net) == NodesOf(old(nets), net) + DevicesOn(devices[..i], net)
      {
        OneMore(devices, i);
        EnterDevice(i);
      }
      assert devices[..|devices|] == devices;
      if old(nets) == map[] {
        SameKeysSameIndex(nets, Netlist(devices));
      }
    }

    // The inner loop: one device's terminals.
    method EnterDevice(i: nat)
      requires i < |devices|
      modifies this`nets
      ensures nets.Keys == old(nets).Keys + Elements(devices[i].terminals)
      ensures forall net :: NodesOf(nets, net) ==
                            NodesOf(old(nets), net) + (if net in devices[i].terminals then {i} else {})
    {
      var terminals := devices[i].terminals;
      for j := 0 to |terminals|
        invariant nets.Keys == old(nets).Keys + Elements(terminals[..j])
        invariant forall net :: NodesOf(nets, net) ==
                                NodesOf(old(nets), net) + (if net in terminals[..j] then {i} else {})
      {
        TerminalOneMore(terminals, j);
        EnterTerminal(i, terminals[j]);
      }
      assert terminals[..|terminals|] == terminals;
    }

    // One terminal's net.
    method EnterTerminal(i: nat, terminal: string)
      modifies this`nets
      ensures nets.Keys == old(nets).Keys + {terminal}
      ensures forall net :: NodesOf(nets, net) == NodesOf(old(nets), net) + (if net == terminal then {i} else {})
    {
      var nodes := At(terminal);
      nets := nets[terminal := nodes + {i}];
    }
  }

  function Elements(names: seq<string>): set<string> {
    set name | name in names
  }

  lemma TerminalOneMore(terminals: seq<string>, j: nat)
    requires j < |terminals|
    ensures Elements(terminals[..j + 1]) == Elements(terminals[..j]) + {terminals[j]}
    ensures forall net :: net in terminals[..j + 1] <==> net in terminals[..j] || net == terminals[j]
  {
    assert terminals[..j + 1] == terminals[..j] + [terminals[j]];
  }

  lemma SameKeysSameIndex(a: NetIndex, b: NetIndex)
    requires a.Keys == b.Keys && SameIndex(a, b)
    ensures a == b
  {
    forall net | net in a
      ensures a[net] == b[net]
    {
      assert NodesOf(a, net) == NodesOf(b, net);
    }
  }

  // Adding one device adds its terminals' names, and its index to the sets of those names.
  lemma OneMore(devices: seq<Device>, i: nat)
    requires i < |devices|
    ensures NetNames(devices[..i + 1]) ==
            NetNames(devices[..i]) + Elements(devices[i].terminals)
    ensures forall net :: DevicesOn(devices[..i + 1], net) ==
                          DevicesOn(devices[..i], net) + (if net in devices[i].terminals then {i} else {})
  {
    var shorter, longer := devices[..i], devices[..i + 1];
    assert forall k :: 0 <= k < i ==> longer[k] == shorter[k];
    assert longer[i] == devices[i];
    forall name | name in NetNames(shorter)
      ensures name in NetNames(longer)
    {
      var k, j :| 0 <= k < i && 0 <= j < |shorter[k].terminals| && shorter[k].terminals[j] == name;
      assert longer[k].terminals[j] == name;
    }
    forall j | 0 <= j < |devices[i].terminals|
      ensures devices[i].terminals[j] in NetNames(longer)
    {
      assert longer[i].terminals[j] in NetNames(longer);
    }
  }
}
