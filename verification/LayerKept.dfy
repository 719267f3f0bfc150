/** What holds between the traversals of one layer connection whatever the nets are called. */
module LayerKept {
  import opened NetState
  import opened NetOwners
  import opened LayerInvariant

  // What was on any one net is still on one net.
  ghost predicate Kept(base: Connectivity, conn: Connectivity) {
    forall n :: n in base ==> KeptNet(base, n, conn)
  }

  ghost predicate KeptNet(base: Connectivity, n: string, conn: Connectivity) {
    exists net :: net in conn && Within(base, n, conn, net)
  }

  ghost predicate OnSomeNet(t: Task, conn: Connectivity, h: nat)
    requires h < |t.polygons|
  {
    exists net :: Has(conn, net, t.layer, t.polygons[h])
  }

  ghost predicate Placed(t: Task, conn: Connectivity, j: nat) {
    forall h :: 0 <= h < j && h < |t.polygons| ==> OnSomeNet(t, conn, h)
  }

  // Every starting and every fresh name belongs to its node's class.
  ghost predicate OwnsNodes(t: Task, k: Owners, suffix: nat)
    requires ValidTask(t) && ValidOwners(t, k)
  {
    && (forall w :: 0 <= w < t.offset ==> Belongs(k, k.names[w], k.comp[w]))
    && (forall h :: 0 <= h < |t.polygons| ==> Belongs(k, Fresh(t, suffix, h), k.comp[t.offset + h]))
  }

  // After the traversals from j polygons: no net has shapes of different classes, nothing is lost.
  ghost predicate Loose(t: Task, k: Owners, conn: Connectivity, ids: seq<string>, j: nat)
    requires ValidTask(t) && ValidOwners(t, k)
  {
    && Solid(conn) && Sound(t, k, conn) && Kept(k.base, conn) && Placed(t, conn, j)
    && |ids| == t.offset && forall w :: 0 <= w < |ids| ==> Belongs(k, ids[w], k.comp[w])
  }

  lemma LooseInitially(t: Task, k: Owners, suffix: nat)
    requires ValidTask(t) && ValidOwners(t, k) && OwnsNodes(t, k, suffix) && Solid(k.base)
    requires forall n :: n in k.base ==> n in k.names
    ensures Loose(t, k, k.base, k.names, 0)
  {
    SoundInitially(t, k);
    forall n | n in k.base
      ensures KeptNet(k.base, n, k.base)
    {
      assert Within(k.base, n, k.base, n);
    }
  }

  // A shape that is on a net stays on one.
  lemma StaysOnSomeNet(s: State, s': State, net: string, layer: string, shape: Shape)
    requires Conserves(s, s') && Has(s.conn, net, layer, shape)
    ensures exists net' :: Has(s'.conn, net', layer, shape)
  {
    if net in s'.conn && net != s'.net {
      assert Has(s'.conn, net, layer, shape);
    } else {
      assert Has(s'.conn, s'.net, layer, shape);
    }
  }

  lemma StaysKept(base: Connectivity, s: State, s': State, n: string)
    requires Conserves(s, s') && n in base && KeptNet(base, n, s.conn)
    ensures KeptNet(base, n, s'.conn)
  {
    var net :| net in s.conn && Within(base, n, s.conn, net);
    var net' := if net in s'.conn && net != s'.net then net else s'.net;
    assert Within(s.conn, net, s'.conn, net');
    WithinTransitive(base, n, s.conn, net, s'.conn, net');
  }

  lemma LooseStep(t: Task, k: Owners, slot: NetRef, c: set<nat>, s: State, s': State, covered: set<nat>,
                  j: nat, next: nat)
    requires ValidTask(t) && ValidOwners(t, k) && Loose(t, k, s.conn, s.ids, j)
    requires Walked(t, k, slot, c, s, s', covered)
    requires next == j || (next == j + 1 <= |t.polygons| && t.offset + j in covered)
    ensures Loose(t, k, s'.conn, s'.ids, next)
  {
    forall n | n in k.base
      ensures KeptNet(k.base, n, s'.conn)
    {
      StaysKept(k.base, s, s', n);
    }
    forall h | 0 <= h < next && h < |t.polygons|
      ensures OnSomeNet(t, s'.conn, h)
    {
      if h == j {
        CoversPolygon(t, s, s', covered, j);
      } else {
        assert OnSomeNet(t, s.conn, h);
        var net :| Has(s.conn, net, t.layer, t.polygons[h]);
        StaysOnSomeNet(s, s', net, t.layer, t.polygons[h]);
      }
    }
  }
}
