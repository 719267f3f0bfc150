/** The backtracking search that compares two schematics
    (libs/polygon/doc/tutorial/compare_schematics.hpp). */
module Matcher {
  import opened Schematics

  // ---- What the search decides ----

  // A map from reference devices to layout devices, as a sequence indexed by reference device.
  type DeviceMap = seq<nat>

  // Where a map sends a set of reference devices.
  ghost function Image(m: DeviceMap, nodes: set<nat>): set<nat> {
    set d | d in nodes && d < |m| :: m[d]
  }

  // The devices on a reference net are sent to devices on a layout net.
  ghost predicate NetInto(r: Schematic, x: Schematic, m: DeviceMap, refNet: string, net: string) {
    Image(m, NodesOf(r.nets, refNet)) <= NodesOf(x.nets, net)
  }

  // One reference device and its image: pins carry the same net, a gate net goes into the gate net,
  // and each of source and drain goes into one of the two outer nets.
  ghost predicate Corresponds(r: Schematic, x: Schematic, m: DeviceMap, rd: Device, xd: Device)
    requires WellFormedDevice(rd) && WellFormedDevice(xd) && rd.typ == xd.typ
  {
    if rd.typ == PIN then
      rd.terminals[0] == xd.terminals[0]
    else
      && NetInto(r, x, m, rd.terminals[1], xd.terminals[1])
      && (NetInto(r, x, m, rd.terminals[0], xd.terminals[0]) || NetInto(r, x, m, rd.terminals[0], xd.terminals[2]))
      && (NetInto(r, x, m, rd.terminals[2], xd.terminals[0]) || NetInto(r, x, m, rd.terminals[2], xd.terminals[2]))
  }

  // An assignment: distinct layout devices of the right types.
  ghost predicate Assignment(r: seq<Device>, x: seq<Device>, m: DeviceMap) {
    && |m| <= |r|
    && (forall i {:trigger m[i]} :: 0 <= i < |m| ==> m[i] < |x| && r[i].typ == x[m[i]].typ)
    && (forall i, j :: 0 <= i < j < |m| ==> m[i] != m[j])
  }

  ghost predicate IsEmbedding(r: Schematic, x: Schematic, m: DeviceMap)
    requires WellFormed(r.devices) && WellFormed(x.devices)
  {
    && |m| == |r.devices|
    && Assignment(r.devices, x.devices, m)
    && forall i {:trigger m[i]} :: 0 <= i < |m| ==> Corresponds(r, x, m, r.devices[i], x.devices[m[i]])
  }

  // The reference schematic embeds in the layout schematic.
  ghost predicate Embeds(r: Schematic, x: Schematic)
    requires WellFormed(r.devices) && WellFormed(x.devices)
  {
    exists m :: IsEmbedding(r, x, m)
  }

  // ---- What the check at one search node establishes ----

  // The devices of a reference net that are assigned so far are sent to devices on a layout net.
  ghost predicate Connected(r: Schematic, x: Schematic, m: DeviceMap, k: nat, refNet: string, net: string)
    requires k <= |m|
  {
    forall d :: d in NodesOf(r.nets, refNet) && d < k ==> m[d] in NodesOf(x.nets, net)
  }

  ghost predicate TerminalAgrees(r: Schematic, x: Schematic, m: DeviceMap, k: nat, rd: Device, xd: Device, j: nat)
    requires k <= |m|
    requires WellFormedDevice(rd) && WellFormedDevice(xd) && rd.typ == xd.typ && j < |rd.terminals|
  {
    if rd.typ == PIN then
      rd.terminals[j] == xd.terminals[j]
    else if j == 1 then
      Connected(r, x, m, k, rd.terminals[1], xd.terminals[1])
    else
      Connected(r, x, m, k, rd.terminals[j], xd.terminals[0]) || Connected(r, x, m, k, rd.terminals[j], xd.terminals[2])
  }

  ghost predicate DeviceAgrees(r: Schematic, x: Schematic, m: DeviceMap, k: nat, rd: Device, xd: Device)
    requires k <= |m|
    requires WellFormedDevice(rd) && WellFormedDevice(xd) && rd.typ == xd.typ
  {
    forall j :: 0 <= j < |rd.terminals| ==> TerminalAgrees(r, x, m, k, rd, xd, j)
  }

  ghost predicate Consistent(r: Schematic, x: Schematic, m: DeviceMap, k: nat)
    requires WellFormed(r.devices) && WellFormed(x.devices)
    requires k <= |m| && Assignment(r.devices, x.devices, m[..k])
  {
    forall i :: 0 <= i < k ==> DeviceAgrees(r, x, m, k, r.devices[i], x.devices[m[i]])
  }

  // At full length the check is exactly the definition of an embedding.
  lemma FullCheckIsEmbedding(r: Schematic, x: Schematic, m: DeviceMap)
    requires WellFormed(r.devices) && WellFormed(x.devices)
    requires |m| == |r.devices| && Assignment(r.devices, x.devices, m)
    ensures m[..|m|] == m
    ensures IsEmbedding(r, x, m) <==> Consistent(r, x, m, |m|)
  {
    assert m[..|m|] == m;
    forall refNet, net
      ensures NetInto(r, x, m, refNet, net) <==> Connected(r, x, m, |m|, refNet, net)
    {
      NetIntoIsConnected(r, x, m, refNet, net);
    }
    forall i | 0 <= i < |m|
      ensures Corresponds(r, x, m, r.devices[i], x.devices[m[i]]) <==>
              DeviceAgrees(r, x, m, |m|, r.devices[i], x.devices[m[i]])
    {
      DeviceCheckIsCorrespondence(r, x, m, r.devices[i], x.devices[m[i]]);
    }
  }

  lemma NetIntoIsConnected(r: Schematic, x: Schematic, m: DeviceMap, refNet: string, net: string)
    ensures NetInto(r, x, m, refNet, net) <==> Connected(r, x, m, |m|, refNet, net)
  {
    if NetInto(r, x, m, refNet, net) {
      forall d | d in NodesOf(r.nets, refNet) && d < |m|
        ensures m[d] in NodesOf(x.nets, net)
      {
        assert m[d] in Image(m, NodesOf(r.nets, refNet));
      }
    }
  }

  lemma DeviceCheckIsCorrespondence(r: Schematic, x: Schematic, m: DeviceMap, rd: Device, xd: Device)
    requires WellFormedDevice(rd) && WellFormedDevice(xd) && rd.typ == xd.typ
    requires forall refNet, net :: NetInto(r, x, m, refNet, net) <==> Connected(r, x, m, |m|, refNet, net)
    ensures Corresponds(r, x, m, rd, xd) <==> DeviceAgrees(r, x, m, |m|, rd, xd)
  {
    if DeviceAgrees(r, x, m, |m|, rd, xd) {
      assert TerminalAgrees(r, x, m, |m|, rd, xd, 0);
      if rd.typ != PIN {
        assert TerminalAgrees(r, x, m, |m|, rd, xd, 1);
        assert TerminalAgrees(r, x, m, |m|, rd, xd, 2);
      }
    }
  }

  // Pruning is safe: a map that agrees with an embedding on its first k entries passes the check at k.
  lemma EmbeddingPassesEveryPrefix(r: Schematic, x: Schematic, f: DeviceMap, m: DeviceMap, k: nat)
    requires WellFormed(r.devices) && WellFormed(x.devices)
    requires IsEmbedding(r, x, f) && k <= |f| == |m| && m[..k] == f[..k]
    ensures Assignment(r.devices, x.devices, m[..k])
    ensures Consistent(r, x, m, k)
  {
    FullCheckIsEmbedding(r, x, f);
    assert forall i :: 0 <= i < k ==> m[..k][i] == m[i] == f[..k][i] == f[i];
    assert forall i :: 0 <= i < k ==> m[..k][i] == f[i];
    assert forall refNet, net :: Connected(r, x, f, |f|, refNet, net) ==> Connected(r, x, m, k, refNet, net);
    forall i | 0 <= i < k
      ensures DeviceAgrees(r, x, m, k, r.devices[i], x.devices[m[i]])
    {
      var rd, xd := r.devices[i], x.devices[m[i]];
      assert DeviceAgrees(r, x, f, |f|, rd, xd);
      forall j | 0 <= j < |rd.terminals|
        ensures TerminalAgrees(r, x, m, k, rd, xd, j)
      {
        assert TerminalAgrees(r, x, f, |f|, rd, xd, j);
      }
    }
  }

  // ---- The search ----

  // The vector and the set that the recursive calls share.
  class SearchState {
    const deviceMap: array<nat>
    var assignedDevices: set<nat>

    constructor (size: nat)
      ensures deviceMap.Length == size && fresh(deviceMap)
      ensures forall i :: 0 <= i < size ==> deviceMap[i] == 0
      ensures assignedDevices == {}
    {
      deviceMap := new nat[size](_ => 0);
      assignedDevices := {};
    }

    // The assigned devices are the image of the assigned prefix.
    ghost predicate Tracks(nodeId: nat)
      reads this, deviceMap
    {
      nodeId <= deviceMap.Length && assignedDevices == Elems(deviceMap[..nodeId])
    }
  }

  ghost function Elems(m: seq<nat>): set<nat> {
    set d | d in m
  }

  lemma Least(s: set<nat>) returns (least: nat)
    requires s != {}
    ensures least in s && forall e :: e in s ==> least <= e
  {
    least :| least in s;
    var d, rest := least, s - {least};
    if rest != {} {
      var other := Least(rest);
      least := if other < d then other else d;
    }
    forall e | e in s
      ensures least <= e
    {
      assert e == d || e in rest;
    }
  }

  // Walks the reference net's devices in increasing order up to nodeId.
  method CompareConnectivity(refNet: string, net: string,
                             reference: SchematicDatabase, schematic: SchematicDatabase,
                             deviceMap: array<nat>, nodeId: nat, ghost r: Schematic, ghost x: Schematic)
    returns (same: bool)
    requires reference.Represents(r) && schematic.Represents(x)
    requires nodeId <= deviceMap.Length
    modifies reference`nets, schematic`nets
    ensures reference.Represents(r) && schematic.Represents(x)
    ensures same <==> Connected(r, x, deviceMap[..], nodeId, refNet, net)
  {
    var refNodes := reference.At(refNet);
    assert reference.Represents(r) && schematic.Represents(x);
    var nodes := schematic.At(net);
    assert reference.Represents(r) && schematic.Represents(x);
    var rest := refNodes;
    while rest != {}
      invariant reference.Represents(r) && schematic.Represents(x)
      invariant rest <= refNodes
      invariant forall d :: d in refNodes && d !in rest ==> d < nodeId && deviceMap[d] in nodes
    {
      ghost var least := Least(rest);
      var d :| d in rest && forall e :: e in rest ==> d <= e;
      if d >= nodeId {
        break;
      }
      if deviceMap[d] !in nodes {
        return false;
      }
      rest := rest - {d};
    }
    return true;
  }

  // The check of one device of the assigned prefix, terminal by terminal.
  method CheckDevice(i: nat, reference: SchematicDatabase, schematic: SchematicDatabase,
                     deviceMap: array<nat>, nodeId: nat, ghost r: Schematic, ghost x: Schematic)
    returns (ok: bool)
    requires reference.Represents(r) && schematic.Represents(x)
    requires WellFormed(r.devices) && WellFormed(x.devices)
    requires i < nodeId <= deviceMap.Length <= |r.devices|
    requires deviceMap[i] < |x.devices| && r.devices[i].typ == x.devices[deviceMap[i]].typ
    modifies reference`nets, schematic`nets
    ensures reference.Represents(r) && schematic.Represents(x)
    ensures ok <==> DeviceAgrees(r, x, deviceMap[..], nodeId, r.devices[i], x.devices[deviceMap[i]])
  {
    var rd := reference.devices[i];
    var xd := schematic.devices[deviceMap[i]];
    for j := 0 to |rd.terminals|
      invariant reference.Represents(r) && schematic.Represents(x)
      invariant forall h :: 0 <= h < j ==> TerminalAgrees(r, x, deviceMap[..], nodeId, rd, xd, h)
    {
      var agrees;
      if rd.typ == PIN {
        agrees := rd.terminals[j] == xd.terminals[j];
      } else if j == 1 {
        agrees := CompareConnectivity(rd.terminals[1], xd.terminals[1],
                                      reference, schematic, deviceMap, nodeId, r, x);
      } else {
        agrees := CompareConnectivity(rd.terminals[j], xd.terminals[0],
                                      reference, schematic, deviceMap, nodeId, r, x);
        if !agrees {
          agrees := CompareConnectivity(rd.terminals[j], xd.terminals[2],
                                        reference, schematic, deviceMap, nodeId, r, x);
        }
      }
      assert agrees <==> TerminalAgrees(r, x, deviceMap[..], nodeId, rd, xd, j);
      if !agrees {
        return false;
      }
    }
    return true;
  }

  // The check of the whole assigned prefix.
  method CheckPrefix(reference: SchematicDatabase, schematic: SchematicDatabase,
                     deviceMap: array<nat>, nodeId: nat, ghost r: Schematic, ghost x: Schematic)
    returns (ok: bool)
    requires reference.Represents(r) && schematic.Represents(x)
    requires WellFormed(r.devices) && WellFormed(x.devices)
    requires nodeId <= deviceMap.Length == |r.devices|
    requires Assignment(r.devices, x.devices, deviceMap[..nodeId])
    modifies reference`nets, schematic`nets
    ensures reference.Represents(r) && schematic.Represents(x)
    ensures ok <==> (assert deviceMap[..][..nodeId] == deviceMap[..nodeId]; Consistent(r, x, deviceMap[..], nodeId))
  {
    assert deviceMap[..][..nodeId] == deviceMap[..nodeId];
    assert forall i :: 0 <= i < nodeId ==> deviceMap[..nodeId][i] == deviceMap[i];
    for i := 0 to nodeId
      invariant reference.Represents(r) && schematic.Represents(x)
      invariant forall h :: 0 <= h < i ==>
                  DeviceAgrees(r, x, deviceMap[..], nodeId, r.devices[h], x.devices[deviceMap[h]])
    {
      var agrees := CheckDevice(i, reference, schematic, deviceMap, nodeId, r, x);
      if !agrees {
        return false;
      }
    }
    return true;
  }

  // No embedding continues the given prefix.
  ghost predicate Fruitless(r: Schematic, x: Schematic, prefix: DeviceMap)
    requires WellFormed(r.devices) && WellFormed(x.devices)
  {
    forall f :: prefix <= f ==> !IsEmbedding(r, x, f)
  }

  lemma AssignedOneMore(r: seq<Device>, x: seq<Device>, m: DeviceMap, i: nat)
    requires Assignment(r, x, m) && |m| < |r|
    requires i < |x| && r[|m|].typ == x[i].typ && i !in m
    ensures Assignment(r, x, m + [i])
    ensures Elems(m + [i]) == Elems(m) + {i}
  {
  }

  // If no candidate for the next device leads to an embedding, neither does the prefix.
  lemma NoCandidate(r: Schematic, x: Schematic, prefix: DeviceMap)
    requires WellFormed(r.devices) && WellFormed(x.devices)
    requires |prefix| < |r.devices|
    requires forall i: nat :: i < |x.devices| ==> Fruitless(r, x, prefix + [i])
    ensures Fruitless(r, x, prefix)
  {
    forall f: DeviceMap | prefix <= f && |f| == |r.devices|
      ensures !IsEmbedding(r, x, f)
    {
      var i := f[|prefix|];
      assert prefix + [i] <= f;
    }
  }

  // A prefix that fails the check is continued by no embedding.
  lemma PrunedIsFruitless(r: Schematic, x: Schematic, m: DeviceMap, k: nat)
    requires WellFormed(r.devices) && WellFormed(x.devices)
    requires k <= |m| == |r.devices| && Assignment(r.devices, x.devices, m[..k]) && !Consistent(r, x, m, k)
    ensures Fruitless(r, x, m[..k])
  {
    forall f: DeviceMap | m[..k] <= f
      ensures !IsEmbedding(r, x, f)
    {
      if IsEmbedding(r, x, f) {
        assert m[..k] == f[..k];
        EmbeddingPassesEveryPrefix(r, x, f, m, k);
      }
    }
  }

  method CompareRecursive(reference: SchematicDatabase, schematic: SchematicDatabase,
                          state: SearchState, nodeId: nat, ghost r: Schematic, ghost x: Schematic)
    returns (found: bool)
    requires reference.Represents(r) && schematic.Represents(x)
    requires WellFormed(r.devices) && WellFormed(x.devices)
    requires state.deviceMap.Length == |r.devices| && state.Tracks(nodeId)
    requires Assignment(r.devices, x.devices, state.deviceMap[..nodeId])
    modifies reference`nets, schematic`nets, state`assignedDevices, state.deviceMap
    ensures reference.Represents(r) && schematic.Represents(x)
    ensures state.deviceMap[..nodeId] == old(state.deviceMap[..nodeId])
    ensures found ==> IsEmbedding(r, x, state.deviceMap[..]) && state.Tracks(|r.devices|)
    ensures !found ==> state.assignedDevices == old(state.assignedDevices)
    ensures !found ==> Fruitless(r, x, state.deviceMap[..nodeId])
    decreases |r.devices| - nodeId, 1
  {
    var consistent := CheckPrefix(reference, schematic, state.deviceMap, nodeId, r, x);
    ghost var prefix := state.deviceMap[..nodeId];
    if !consistent {
      assert state.deviceMap[..][..nodeId] == prefix;
      PrunedIsFruitless(r, x, state.deviceMap[..], nodeId);
      return false;
    }
    if nodeId >= |reference.devices| {
      assert state.deviceMap[..] == state.deviceMap[..nodeId];
      FullCheckIsEmbedding(r, x, state.deviceMap[..]);
      return true;
    }
    for i := 0 to |schematic.devices|
      invariant reference.Represents(r) && schematic.Represents(x)
      invariant state.deviceMap[..nodeId] == prefix && state.Tracks(nodeId)
      invariant forall h: nat :: h < i ==> Fruitless(r, x, prefix + [h])
    {
      if reference.devices[nodeId].typ == schematic.devices[i].typ && i !in state.assignedDevices {
        found := TryDevice(reference, schematic, state, nodeId, i, r, x);
        if found {
          return true;
        }
      } else {
        CannotContinue(r, x, prefix, i);
      }
    }
    NoCandidate(r, x, prefix);
    return false;
  }

  // Assign one layout device and go on. If that does not lead to an embedding it is given back.
  method TryDevice(reference: SchematicDatabase, schematic: SchematicDatabase,
                   state: SearchState, nodeId: nat, i: nat, ghost r: Schematic, ghost x: Schematic)
    returns (found: bool)
    requires reference.Represents(r) && schematic.Represents(x)
    requires WellFormed(r.devices) && WellFormed(x.devices)
    requires nodeId < state.deviceMap.Length == |r.devices| && state.Tracks(nodeId)
    requires Assignment(r.devices, x.devices, state.deviceMap[..nodeId])
    requires i < |x.devices| && r.devices[nodeId].typ == x.devices[i].typ && i !in state.assignedDevices
    modifies reference`nets, schematic`nets, state`assignedDevices, state.deviceMap
    ensures reference.Represents(r) && schematic.Represents(x)
    ensures state.deviceMap[..nodeId] == old(state.deviceMap[..nodeId])
    ensures found ==> IsEmbedding(r, x, state.deviceMap[..]) && state.Tracks(|r.devices|)
    ensures !found ==> state.assignedDevices == old(state.assignedDevices)
    ensures !found ==> Fruitless(r, x, state.deviceMap[..nodeId] + [i])
    decreases |r.devices| - nodeId, 0
  {
    ghost var prefix := state.deviceMap[..nodeId];
    state.deviceMap[nodeId] := i;
    state.assignedDevices := state.assignedDevices + {i};
    assert state.deviceMap[..nodeId + 1] == prefix + [i];
    AssignedOneMore(r.devices, x.devices, prefix, i);
    found := CompareRecursive(reference, schematic, state, nodeId + 1, r, x);
    assert state.deviceMap[..nodeId] == state.deviceMap[..nodeId + 1][..nodeId] == prefix;
    if !found {
      state.assignedDevices := state.assignedDevices - {i};
    }
  }

  lemma CannotContinue(r: Schematic, x: Schematic, prefix: DeviceMap, i: nat)
    requires WellFormed(r.devices) && WellFormed(x.devices)
    requires |prefix| < |r.devices| && i < |x.devices|
    requires r.devices[|prefix|].typ != x.devices[i].typ || i in prefix
    ensures Fruitless(r, x, prefix + [i])
  {
    forall f: DeviceMap | prefix + [i] <= f
      ensures !IsEmbedding(r, x, f)
    {
      assert f[|prefix|] == (prefix + [i])[|prefix|] == i;
      if i in prefix {
        var h :| 0 <= h < |prefix| && prefix[h] == i;
        assert f[h] == (prefix + [i])[h] == i;
      }
    }
  }

  // The comparison returns true exactly when the reference embeds in the layout.
  method CompareSchematics(reference: SchematicDatabase, schematic: SchematicDatabase)
    returns (matches: bool, state: SearchState)
    requires WellFormed(reference.devices) && WellFormed(schematic.devices)
    modifies reference`nets, schematic`nets
    ensures SameIndex(reference.nets, old(reference.nets)) && SameIndex(schematic.nets, old(schematic.nets))
    ensures matches <==> Embeds(old(Schematic(reference.devices, reference.nets)),
                                old(Schematic(schematic.devices, schematic.nets)))
    ensures matches ==> IsEmbedding(old(Schematic(reference.devices, reference.nets)),
                                    old(Schematic(schematic.devices, schematic.nets)), state.deviceMap[..])
  {
    ghost var r := Schematic(reference.devices, reference.nets);
    ghost var x := Schematic(schematic.devices, schematic.nets);
    state := new SearchState(|reference.devices|);
    assert state.deviceMap[..0] == [];
    matches := CompareRecursive(reference, schematic, state, 0, r, x);
    if !matches {
      assert state.deviceMap[..0] == [];
      assert forall f: DeviceMap :: IsEmbedding(r, x, f) ==> state.deviceMap[..0] <= f;
    }
  }
}
