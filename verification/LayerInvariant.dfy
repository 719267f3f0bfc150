/** What holds between the traversals of one layer connection, and the nets it ends with. */
module LayerInvariant {
  import opened Decimals
  import opened NetState
  import opened NetOwners

  // The internal net name made from a prefix and a running number.
  function FreshName(prefix: string, number: nat): string {
    prefix + Decimal(number)
  }

  lemma FreshNameInjective(prefix: string, m: nat, n: nat)
    ensures FreshName(prefix, m) == FreshName(prefix, n) ==> m == n
  {
    if FreshName(prefix, m) == FreshName(prefix, n) {
      assert Decimal(m) == FreshName(prefix, m)[|prefix|..];
      assert Decimal(n) == FreshName(prefix, n)[|prefix|..];
      DecimalInjective(m, n);
    }
  }

  // The name tried for polygon h when the counter starts at suffix.
  function Fresh(t: Task, suffix: nat, h: nat): string {
    FreshName(t.prefix, suffix + h)
  }

  // A component's members are the nodes with that component.
  ghost predicate MembersAreEqual(t: Task, k: Owners)
    requires ValidTask(t) && ValidOwners(t, k)
  {
    forall v, w {:trigger w in k.comp[v]} :: 0 <= v < |t.graph| && 0 <= w < |t.graph| ==>
      (w in k.comp[v] <==> k.comp[v] == k.comp[w])
  }

  // All nodes with the component c are in it.
  ghost predicate HasMembers(t: Task, k: Owners, c: set<nat>)
    requires ValidTask(t) && ValidOwners(t, k)
  {
    forall w :: 0 <= w < |t.graph| && k.comp[w] == c ==> w in c
  }

  lemma NodeHasMembers(t: Task, k: Owners, v: nat)
    requires ValidTask(t) && ValidOwners(t, k) && MembersAreEqual(t, k) && v < |t.graph|
    ensures HasMembers(t, k, k.comp[v])
  {
    forall w | 0 <= w < |t.graph| && k.comp[w] == k.comp[v]
      ensures w in k.comp[v]
    {
    }
  }

  // Components are those of the graph, and every starting and every fresh name belongs to its node's.
  ghost predicate Naming(t: Task, k: Owners, suffix: nat) {
    && ValidTask(t) && ValidOwners(t, k)
    && MembersAreEqual(t, k)
    && (forall w :: 0 <= w < t.offset ==> k.names[w] in k.base && Belongs(k, k.names[w], k.comp[w]))
    && FreshNamesFit(t, k, suffix)
  }

  ghost predicate FreshNamesFit(t: Task, k: Owners, suffix: nat)
    requires ValidTask(t) && ValidOwners(t, k)
  {
    forall h :: 0 <= h < |t.polygons| ==>
      Fresh(t, suffix, h) !in k.names && Belongs(k, Fresh(t, suffix, h), k.comp[t.offset + h])
  }

  ghost predicate HasNetNode(t: Task, k: Owners, c: set<nat>)
    requires ValidTask(t) && ValidOwners(t, k)
  {
    exists w :: 0 <= w < t.offset && k.comp[w] == c
  }

  ghost predicate Belongs(k: Owners, net: string, c: set<nat>) {
    net in k.owner && k.owner[net] == c
  }

  // One net, and no other of the component, has what the component's nets had and its polygons.
  ghost predicate GatheredOn(t: Task, k: Owners, conn: Connectivity, c: set<nat>, net: string)
    requires ValidTask(t) && ValidOwners(t, k)
  {
    && net in conn && Belongs(k, net, c)
    && (forall n :: n in conn && Belongs(k, n, c) ==> n == net)
    && (forall w :: 0 <= w < t.offset && k.comp[w] == c ==> Within(k.base, k.names[w], conn, net))
    && HasPolygons(t, k, conn, c, net)
    && PinNamesWin(t, k, c, net)
  }

  // If any of the component's nets had a name that is not internal, so has this one.
  ghost predicate PinNamesWin(t: Task, k: Owners, c: set<nat>, net: string)
    requires ValidTask(t) && ValidOwners(t, k)
  {
    forall w :: 0 <= w < t.offset && k.comp[w] == c && !(t.prefix <= k.names[w]) ==> !(t.prefix <= net)
  }

  ghost predicate HasPolygons(t: Task, k: Owners, conn: Connectivity, c: set<nat>, net: string)
    requires ValidTask(t) && ValidOwners(t, k)
  {
    forall j :: 0 <= j < |t.polygons| && k.comp[t.offset + j] == c ==> Has(conn, net, t.layer, t.polygons[j])
  }

  ghost predicate Gathered(t: Task, k: Owners, conn: Connectivity, c: set<nat>)
    requires ValidTask(t) && ValidOwners(t, k)
  {
    exists net :: GatheredOn(t, k, conn, c, net)
  }

  // ---- The invariant ----

  ghost predicate IdsTagged(t: Task, k: Owners, ids: seq<string>)
    requires ValidTask(t) && ValidOwners(t, k)
  {
    && |ids| == t.offset
    && forall w :: 0 <= w < |ids| ==>
         && ids[w] in k.names && Belongs(k, ids[w], k.comp[w])
         && (!(t.prefix <= k.names[w]) ==> !(t.prefix <= ids[w]))
  }

  // Nets of components with a net node are named by net ids.
  ghost predicate KeysAreIds(t: Task, k: Owners, conn: Connectivity, ids: seq<string>)
    requires ValidTask(t) && ValidOwners(t, k)
  {
    forall n :: n in conn && n in k.owner && HasNetNode(t, k, k.owner[n]) ==> n in ids
  }

  // What a net node had is on a net named by some net id of its component.
  ghost predicate HeldBy(t: Task, k: Owners, conn: Connectivity, ids: seq<string>, w: nat, u: nat)
    requires ValidTask(t) && ValidOwners(t, k)
    requires w < t.offset == |ids|
  {
    u < t.offset && k.comp[u] == k.comp[w] && Within(k.base, k.names[w], conn, ids[u])
  }

  ghost predicate HeldSomewhere(t: Task, k: Owners, conn: Connectivity, ids: seq<string>, w: nat)
    requires ValidTask(t) && ValidOwners(t, k)
    requires w < t.offset == |ids|
  {
    exists u: nat :: HeldBy(t, k, conn, ids, w, u)
  }

  ghost predicate Held(t: Task, k: Owners, conn: Connectivity, ids: seq<string>)
    requires ValidTask(t) && ValidOwners(t, k) && |ids| == t.offset
  {
    forall w :: 0 <= w < t.offset ==> HeldSomewhere(t, k, conn, ids, w)
  }

  // If polygon h reaches no net, it has made a net with all the polygons of its component.
  ghost predicate MadeNet(t: Task, k: Owners, suffix: nat, conn: Connectivity, h: nat)
    requires ValidTask(t) && ValidOwners(t, k) && h < |t.polygons|
  {
    var c := k.comp[t.offset + h];
    HasNetNode(t, k, c) || (Fresh(t, suffix, h) in conn && HasPolygons(t, k, conn, c, Fresh(t, suffix, h)))
  }

  ghost predicate Unused(t: Task, suffix: nat, conn: Connectivity, h: nat) {
    Fresh(t, suffix, h) !in conn
  }

  // The name is one of the first j fresh names.
  ghost predicate FreshBelow(t: Task, suffix: nat, net: string, j: nat) {
    exists h :: 0 <= h < j && h < |t.polygons| && net == Fresh(t, suffix, h)
  }

  // Nets of components without a net node are made by polygons.
  ghost predicate Explained(t: Task, k: Owners, suffix: nat, conn: Connectivity, net: string, j: nat)
    requires ValidTask(t) && ValidOwners(t, k)
  {
    net in conn && net in k.owner ==> HasNetNode(t, k, k.owner[net]) || FreshBelow(t, suffix, net, j)
  }

  ghost predicate AllMade(t: Task, k: Owners, suffix: nat, conn: Connectivity, j: nat)
    requires ValidTask(t) && ValidOwners(t, k)
  {
    forall h {:trigger MadeNet(t, k, suffix, conn, h)} ::
      0 <= h < j && h < |t.polygons| ==> MadeNet(t, k, suffix, conn, h)
  }

  ghost predicate AllExplained(t: Task, k: Owners, suffix: nat, conn: Connectivity, j: nat)
    requires ValidTask(t) && ValidOwners(t, k)
  {
    forall net {:trigger Explained(t, k, suffix, conn, net, j)} :: Explained(t, k, suffix, conn, net, j)
  }

  ghost predicate AllUnused(t: Task, suffix: nat, conn: Connectivity, j: nat) {
    forall h {:trigger Unused(t, suffix, conn, h)} :: j <= h < |t.polygons| ==> Unused(t, suffix, conn, h)
  }

  // Components without a net node, after j polygons.
  ghost predicate FloatingNets(t: Task, k: Owners, suffix: nat, conn: Connectivity, j: nat)
    requires ValidTask(t) && ValidOwners(t, k)
  {
    AllMade(t, k, suffix, conn, j) && AllExplained(t, k, suffix, conn, j) && AllUnused(t, suffix, conn, j)
  }

  // Components with a net node, after the traversals from i net nodes.
  ghost predicate NetsInv(t: Task, k: Owners, conn: Connectivity, ids: seq<string>, i: nat)
    requires ValidTask(t) && ValidOwners(t, k)
  {
    && Solid(conn) && Sound(t, k, conn) && IdsTagged(t, k, ids)
    && KeysAreIds(t, k, conn, ids) && Held(t, k, conn, ids)
    && (forall w :: 0 <= w < i && w < t.offset ==> Gathered(t, k, conn, k.comp[w]))
  }

  // After the traversals from i net nodes and j polygons.
  ghost predicate Inv(t: Task, k: Owners, suffix: nat, conn: Connectivity, ids: seq<string>, i: nat, j: nat)
    requires Naming(t, k, suffix)
  {
    NetsInv(t, k, conn, ids, i) && FloatingNets(t, k, suffix, conn, j)
  }

  lemma SoundInitially(t: Task, k: Owners)
    requires ValidTask(t) && ValidOwners(t, k)
    requires forall w :: 0 <= w < t.offset ==> Belongs(k, k.names[w], k.comp[w])
    requires forall n :: n in k.base ==> n in k.names
    ensures Sound(t, k, k.base)
  {
    forall net | net in k.base
      ensures net in k.owner
      ensures forall layer, shape :: Has(k.base, net, layer, shape) ==> Origin(t, k, k.owner[net], layer, shape)
    {
      var w :| 0 <= w < t.offset && k.names[w] == net;
      assert Belongs(k, k.names[w], k.comp[w]);
    }
  }

  lemma FloatingInitially(t: Task, k: Owners, suffix: nat)
    requires Naming(t, k, suffix)
    requires forall n :: n in k.base ==> n in k.names
    ensures FloatingNets(t, k, suffix, k.base, 0)
  {
    forall net
      ensures Explained(t, k, suffix, k.base, net, 0)
    {
      if net in k.base {
        var w :| 0 <= w < t.offset && k.names[w] == net;
        assert Belongs(k, k.names[w], k.comp[w]);
      }
    }
    forall h: nat | h < |t.polygons|
      ensures Unused(t, suffix, k.base, h)
    {
      assert Fresh(t, suffix, h) !in k.names;
    }
  }

  lemma InvInitially(t: Task, k: Owners, suffix: nat)
    requires Naming(t, k, suffix) && Solid(k.base)
    requires forall n :: n in k.base ==> n in k.names
    ensures Inv(t, k, suffix, k.base, k.names, 0, 0)
  {
    SoundInitially(t, k);
    FloatingInitially(t, k, suffix);
    assert forall w :: 0 <= w < t.offset ==> Belongs(k, k.names[w], k.comp[w]);
    forall w | 0 <= w < t.offset
      ensures HeldSomewhere(t, k, k.base, k.names, w)
    {
      assert HeldBy(t, k, k.base, k.names, w, w);
    }
  }

  // ---- One traversal ----

  // A traversal of the whole component c, from s to s'.
  ghost predicate Step(t: Task, k: Owners, slot: NetRef, c: set<nat>, s: State, s': State)
    requires ValidTask(t) && ValidOwners(t, k)
  {
    Walked(t, k, slot, c, s, s', c)
  }

  lemma StepNames(t: Task, k: Owners, slot: NetRef, c: set<nat>, s: State, s': State)
    requires ValidTask(t) && ValidOwners(t, k) && IdsTagged(t, k, s.ids)
    requires UsesNames(s, s') && RenamesIds(t, slot, s, s') && FollowsNet(t, s, s') && Tagged(t, k, s', c)
    requires Aliased(slot, s) && Aliased(slot, s')
    requires s.net in k.names || (slot == Local && t.prefix <= s.net && s.net !in k.names)
    ensures IdsTagged(t, k, s'.ids)
  {
    forall w | 0 <= w < |s'.ids|
      ensures s'.ids[w] in k.names
      ensures !(t.prefix <= k.names[w]) ==> !(t.prefix <= s'.ids[w])
    {
      if s'.ids[w] != s.ids[w] {
        assert InNames(s', s'.ids[w]);
      }
    }
  }

  // What a net node of the component had is on the current net.
  lemma StepHoldsNet(t: Task, k: Owners, c: set<nat>, v: nat, s: State, s': State, w: nat)
    requires ValidTask(t) && ValidOwners(t, k) && MembersAreEqual(t, k) && Covers(t, s, s', c)
    requires |s.ids| == t.offset && Held(t, k, s.conn, s.ids)
    requires v < |t.graph| && c == k.comp[v] && w < t.offset && k.comp[w] == c
    ensures s'.net in s'.ids && (k.names[w] in k.base ==> s'.net in s'.conn)
    ensures Within(k.base, k.names[w], s'.conn, s'.net)
    ensures IdsTagged(t, k, s.ids) && !(t.prefix <= k.names[w]) ==> !(t.prefix <= s'.net)
  {
    assert w in k.comp[v];
    assert HeldSomewhere(t, k, s.conn, s.ids, w);
    var u: nat :| HeldBy(t, k, s.conn, s.ids, w, u);
    assert u in k.comp[v];
    WithinTransitive(k.base, k.names[w], s.conn, s.ids[u], s'.conn, s'.net);
  }

  // No other net of the component is left.
  lemma StepLeavesOne(t: Task, k: Owners, c: set<nat>, v: nat, s: State, s': State, n: string)
    requires ValidTask(t) && ValidOwners(t, k) && MembersAreEqual(t, k) && Conserves(s, s') && Covers(t, s, s', c)
    requires IdsTagged(t, k, s.ids) && KeysAreIds(t, k, s.conn, s.ids)
    requires v < |t.graph| && c == k.comp[v] && HasNetNode(t, k, c)
    requires n in s'.conn && Belongs(k, n, c)
    ensures n == s'.net
  {
    if n in s.conn {
      assert n in s.ids;
      var w :| 0 <= w < |s.ids| && s.ids[w] == n;
      assert w in k.comp[v];
    }
  }

  lemma StepHasPolygons(t: Task, k: Owners, c: set<nat>, s: State, s': State)
    requires ValidTask(t) && ValidOwners(t, k) && HasMembers(t, k, c) && Covers(t, s, s', c)
    ensures HasPolygons(t, k, s'.conn, c, s'.net)
  {
    forall j | 0 <= j < |t.polygons| && k.comp[t.offset + j] == c
      ensures Has(s'.conn, s'.net, t.layer, t.polygons[j])
    {
      var w := t.offset + j;
      assert w in c;
      assert t.polygons[w - t.offset] == t.polygons[j];
    }
  }

  // The traversal of a component with a net node leaves it gathered on the current net.
  lemma StepGathers(t: Task, k: Owners, c: set<nat>, v: nat, s: State, s': State)
    requires ValidTask(t) && ValidOwners(t, k) && MembersAreEqual(t, k)
    requires Conserves(s, s') && Covers(t, s, s', c) && Belongs(k, s'.net, c)
    requires IdsTagged(t, k, s.ids) && KeysAreIds(t, k, s.conn, s.ids) && Held(t, k, s.conn, s.ids)
    requires v < |t.graph| && c == k.comp[v] && HasNetNode(t, k, c)
    requires forall w :: 0 <= w < t.offset ==> k.names[w] in k.base
    ensures s'.net in s'.ids && GatheredOn(t, k, s'.conn, c, s'.net)
  {
    var u :| 0 <= u < t.offset && k.comp[u] == c;
    StepHoldsNet(t, k, c, v, s, s', u);
    forall w | 0 <= w < t.offset && k.comp[w] == c
      ensures Within(k.base, k.names[w], s'.conn, s'.net)
      ensures !(t.prefix <= k.names[w]) ==> !(t.prefix <= s'.net)
    {
      StepHoldsNet(t, k, c, v, s, s', w);
    }
    forall n | n in s'.conn && Belongs(k, n, c)
      ensures n == s'.net
    {
      StepLeavesOne(t, k, c, v, s, s', n);
    }
    NodeHasMembers(t, k, v);
    StepHasPolygons(t, k, c, s, s');
  }

  lemma StepKeys(t: Task, k: Owners, slot: NetRef, c: set<nat>, s: State, s': State)
    requires ValidTask(t) && ValidOwners(t, k) && Conserves(s, s') && RenamesIds(t, slot, s, s')
    requires Belongs(k, s'.net, c) && (HasNetNode(t, k, c) ==> s'.net in s'.ids)
    requires KeysAreIds(t, k, s.conn, s.ids)
    ensures KeysAreIds(t, k, s'.conn, s'.ids)
  {
    forall n | n in s'.conn && n in k.owner && HasNetNode(t, k, k.owner[n])
      ensures n in s'.ids
    {
      if n != s'.net {
        var w :| 0 <= w < |s.ids| && s.ids[w] == n;
        assert s'.ids[w] == n;
      }
    }
  }

  lemma StillHeld(t: Task, k: Owners, slot: NetRef, c: set<nat>, s: State, s': State, w: nat, u: nat)
    requires ValidTask(t) && ValidOwners(t, k) && RenamesIds(t, slot, s, s') && Untouched(k, c, s.conn, s'.conn)
    requires IdsTagged(t, k, s.ids) && Tagged(t, k, s', c) && w < t.offset && k.comp[w] != c
    requires HeldBy(t, k, s.conn, s.ids, w, u)
    ensures HeldBy(t, k, s'.conn, s'.ids, w, u)
  {
    assert Belongs(k, s.ids[u], k.comp[u]) && Belongs(k, s'.ids[u], k.comp[u]) && Belongs(k, s'.net, c);
    assert s'.ids[u] == s.ids[u];
  }

  lemma StepHeld(t: Task, k: Owners, slot: NetRef, c: set<nat>, s: State, s': State)
    requires ValidTask(t) && ValidOwners(t, k) && RenamesIds(t, slot, s, s') && Untouched(k, c, s.conn, s'.conn)
    requires IdsTagged(t, k, s.ids) && Tagged(t, k, s', c) && Held(t, k, s.conn, s.ids)
    requires HasNetNode(t, k, c) ==> s'.net in s'.ids && GatheredOn(t, k, s'.conn, c, s'.net)
    ensures Held(t, k, s'.conn, s'.ids)
  {
    forall w | 0 <= w < t.offset
      ensures HeldSomewhere(t, k, s'.conn, s'.ids, w)
    {
      if k.comp[w] == c {
        var u :| 0 <= u < |s'.ids| && s'.ids[u] == s'.net;
        assert HeldBy(t, k, s'.conn, s'.ids, w, u);
      } else {
        assert HeldSomewhere(t, k, s.conn, s.ids, w);
        var u: nat :| HeldBy(t, k, s.conn, s.ids, w, u);
        StillHeld(t, k, slot, c, s, s', w, u);
      }
    }
  }

  lemma GatheredElsewhere(t: Task, k: Owners, c: set<nat>, other: set<nat>, before: Connectivity, after: Connectivity)
    requires ValidTask(t) && ValidOwners(t, k) && other != c
    requires Untouched(k, c, before, after) && Gathered(t, k, before, other)
    ensures Gathered(t, k, after, other)
  {
    var net :| GatheredOn(t, k, before, other, net);
    assert GatheredOn(t, k, after, other, net);
  }

  lemma StepGathered(t: Task, k: Owners, c: set<nat>, s: State, s': State, i: nat)
    requires ValidTask(t) && ValidOwners(t, k) && Untouched(k, c, s.conn, s'.conn)
    requires forall w :: 0 <= w < i && w < t.offset ==> Gathered(t, k, s.conn, k.comp[w])
    requires HasNetNode(t, k, c) ==> GatheredOn(t, k, s'.conn, c, s'.net)
    ensures forall w :: 0 <= w < t.offset && (w < i || k.comp[w] == c) ==> Gathered(t, k, s'.conn, k.comp[w])
  {
    forall w | 0 <= w < t.offset && (w < i || k.comp[w] == c)
      ensures Gathered(t, k, s'.conn, k.comp[w])
    {
      if k.comp[w] != c {
        GatheredElsewhere(t, k, c, k.comp[w], s.conn, s'.conn);
      }
    }
  }

  // A traversal of a component with a net node makes no net that is unexplained.
  lemma StepStaysExplained(t: Task, k: Owners, suffix: nat, c: set<nat>, s: State, s': State)
    requires ValidTask(t) && ValidOwners(t, k) && Conserves(s, s') && Belongs(k, s'.net, c) && HasNetNode(t, k, c)
    requires AllExplained(t, k, suffix, s.conn, 0)
    ensures AllExplained(t, k, suffix, s'.conn, 0)
  {
    forall net
      ensures Explained(t, k, suffix, s'.conn, net, 0)
    {
      assert Explained(t, k, suffix, s.conn, net, 0);
    }
  }

  // Under a net id it uses no fresh name.
  lemma StepStaysUnused(t: Task, k: Owners, suffix: nat, s: State, s': State)
    requires ValidTask(t) && ValidOwners(t, k) && FreshNamesFit(t, k, suffix) && Conserves(s, s') && s'.net in k.names
    requires AllUnused(t, suffix, s.conn, 0)
    ensures AllUnused(t, suffix, s'.conn, 0)
  {
    forall h | 0 <= h < |t.polygons|
      ensures Unused(t, suffix, s'.conn, h)
    {
      assert Unused(t, suffix, s.conn, h);
      assert Fresh(t, suffix, h) != s'.net;
    }
  }

  // A traversal that starts from a net node keeps the nets made by polygons as they are.
  lemma StepFloatingFromNet(t: Task, k: Owners, suffix: nat, c: set<nat>, s: State, s': State)
    requires ValidTask(t) && ValidOwners(t, k) && FreshNamesFit(t, k, suffix)
    requires Conserves(s, s') && Belongs(k, s'.net, c) && HasNetNode(t, k, c) && s'.net in k.names
    requires AllExplained(t, k, suffix, s.conn, 0) && AllUnused(t, suffix, s.conn, 0)
    ensures FloatingNets(t, k, suffix, s'.conn, 0)
  {
    StepStaysExplained(t, k, suffix, c, s, s');
    StepStaysUnused(t, k, suffix, s, s');
  }

  // It ends under one of the net ids.
  lemma StepEndsNamed(t: Task, k: Owners, s: State, s': State)
    requires ValidTask(t) && ValidOwners(t, k) && UsesNames(s, s') && IdsTagged(t, k, s.ids) && s.net in k.names
    ensures s'.net in k.names
  {
    assert InNames(s', s'.net);
  }

  // A traversal that starts from a polygon and reaches no net keeps its fresh name.
  lemma StepKeepsFresh(t: Task, k: Owners, c: set<nat>, s: State, s': State)
    requires ValidTask(t) && ValidOwners(t, k) && FollowsNet(t, s, s') && Tagged(t, k, s', c)
    ensures s'.net == s.net || HasNetNode(t, k, c)
  {
    if s'.net in s'.ids {
      var w :| 0 <= w < |s'.ids| && s'.ids[w] == s'.net;
      assert k.comp[w] == c;
    }
  }

  // The names of earlier polygons are not in use when a polygon has its turn.
  lemma EarlierNotInUse(t: Task, k: Owners, suffix: nat, s: State, j: nat, h: nat)
    requires ValidTask(t) && ValidOwners(t, k) && FreshNamesFit(t, k, suffix)
    requires h < j < |t.polygons| && s.net == Fresh(t, suffix, j) && IdsTagged(t, k, s.ids)
    ensures !InNames(s, Fresh(t, suffix, h))
  {
    FreshNameInjective(t.prefix, suffix + h, suffix + j);
    assert Fresh(t, suffix, h) !in k.names;
  }

  // The nets made by earlier polygons stay as they are.
  lemma StepKeepsMade(t: Task, k: Owners, suffix: nat, s: State, s': State, h: nat)
    requires ValidTask(t) && ValidOwners(t, k) && UsesNames(s, s')
    requires h < |t.polygons| && !InNames(s, Fresh(t, suffix, h)) && MadeNet(t, k, suffix, s.conn, h)
    ensures MadeNet(t, k, suffix, s'.conn, h)
  {
  }

  // Later fresh names stay unused.
  lemma StepKeepsUnused(t: Task, k: Owners, suffix: nat, s: State, s': State, j: nat, h: nat)
    requires ValidTask(t) && ValidOwners(t, k) && FreshNamesFit(t, k, suffix)
    requires Conserves(s, s') && FollowsNet(t, s, s')
    requires j < h < |t.polygons| && s.net == Fresh(t, suffix, j) && IdsTagged(t, k, s'.ids)
    requires Unused(t, suffix, s.conn, h)
    ensures Unused(t, suffix, s'.conn, h)
  {
    FreshNameInjective(t.prefix, suffix + h, suffix + j);
    assert Fresh(t, suffix, h) !in k.names;
    assert Fresh(t, suffix, h) != s'.net;
  }

  // Polygon j itself makes a net if it reaches none.
  lemma StepMakesNet(t: Task, k: Owners, suffix: nat, v: nat, c: set<nat>, s: State, s': State, j: nat)
    requires ValidTask(t) && ValidOwners(t, k) && HasMembers(t, k, c)
    requires FollowsNet(t, s, s') && Covers(t, s, s', c) && Tagged(t, k, s', c)
    requires j < |t.polygons| && v == t.offset + j && c == k.comp[v] && s.net == Fresh(t, suffix, j)
    ensures MadeNet(t, k, suffix, s'.conn, j)
    ensures s'.net == s.net || HasNetNode(t, k, c)
  {
    StepKeepsFresh(t, k, c, s, s');
    StepHasPolygons(t, k, c, s, s');
    assert k.comp[t.offset + j] == c;
    assert Has(s'.conn, s'.net, t.layer, t.polygons[j]);
  }

  lemma StepExplains(t: Task, k: Owners, suffix: nat, c: set<nat>, s: State, s': State, j: nat, next: nat, net: string)
    requires ValidTask(t) && ValidOwners(t, k) && Conserves(s, s') && Belongs(k, s'.net, c)
    requires next == j + 1 <= |t.polygons| && s.net == Fresh(t, suffix, j) && (s'.net == s.net || HasNetNode(t, k, c))
    requires Explained(t, k, suffix, s.conn, net, j)
    ensures Explained(t, k, suffix, s'.conn, net, next)
  {
    if FreshBelow(t, suffix, net, j) {
      var h :| 0 <= h < j && h < |t.polygons| && net == Fresh(t, suffix, h);
      assert 0 <= h < next;
    }
  }

  lemma StepMade(t: Task, k: Owners, suffix: nat, s: State, s': State, j: nat, h: nat)
    requires ValidTask(t) && ValidOwners(t, k) && FreshNamesFit(t, k, suffix) && UsesNames(s, s')
    requires h <= j < |t.polygons| && s.net == Fresh(t, suffix, j) && IdsTagged(t, k, s.ids)
    requires MadeNet(t, k, suffix, if h < j then s.conn else s'.conn, h)
    ensures MadeNet(t, k, suffix, s'.conn, h)
  {
    if h < j {
      EarlierNotInUse(t, k, suffix, s, j, h);
      StepKeepsMade(t, k, suffix, s, s', h);
    }
  }

  lemma StepAllMade(t: Task, k: Owners, suffix: nat, s: State, s': State, j: nat, next: nat)
    requires ValidTask(t) && ValidOwners(t, k) && FreshNamesFit(t, k, suffix) && UsesNames(s, s')
    requires next == j + 1 <= |t.polygons| && s.net == Fresh(t, suffix, j) && IdsTagged(t, k, s.ids)
    requires AllMade(t, k, suffix, s.conn, j) && MadeNet(t, k, suffix, s'.conn, j)
    ensures AllMade(t, k, suffix, s'.conn, next)
  {
    forall h: nat | h < next
      ensures MadeNet(t, k, suffix, s'.conn, h)
    {
      StepMade(t, k, suffix, s, s', j, h);
    }
  }

  lemma StepAllExplained(t: Task, k: Owners, suffix: nat, c: set<nat>, s: State, s': State, j: nat, next: nat)
    requires ValidTask(t) && ValidOwners(t, k) && Conserves(s, s') && Belongs(k, s'.net, c)
    requires next == j + 1 <= |t.polygons| && s.net == Fresh(t, suffix, j) && (s'.net == s.net || HasNetNode(t, k, c))
    requires AllExplained(t, k, suffix, s.conn, j)
    ensures AllExplained(t, k, suffix, s'.conn, next)
  {
    forall net
      ensures Explained(t, k, suffix, s'.conn, net, next)
    {
      assert Explained(t, k, suffix, s.conn, net, j);
      StepExplains(t, k, suffix, c, s, s', j, next, net);
    }
  }

  lemma StepAllUnused(t: Task, k: Owners, suffix: nat, s: State, s': State, j: nat, next: nat)
    requires ValidTask(t) && ValidOwners(t, k) && FreshNamesFit(t, k, suffix)
    requires Conserves(s, s') && FollowsNet(t, s, s')
    requires next == j + 1 <= |t.polygons| && s.net == Fresh(t, suffix, j) && IdsTagged(t, k, s'.ids)
    requires AllUnused(t, suffix, s.conn, j)
    ensures AllUnused(t, suffix, s'.conn, next)
  {
    forall h: nat | j < h < |t.polygons|
      ensures Unused(t, suffix, s'.conn, h)
    {
      assert Unused(t, suffix, s.conn, h);
      StepKeepsUnused(t, k, suffix, s, s', j, h);
    }
  }

  // A traversal that starts from polygon j under its fresh name adds one net if no net is reached.
  lemma StepFloatingFromPolygon(t: Task, k: Owners, suffix: nat, v: nat, c: set<nat>, s: State, s': State,
                                j: nat, next: nat)
    requires ValidTask(t) && ValidOwners(t, k) && FreshNamesFit(t, k, suffix) && HasMembers(t, k, c)
    requires Conserves(s, s') && FollowsNet(t, s, s') && UsesNames(s, s') && Covers(t, s, s', c) && Tagged(t, k, s', c)
    requires next == j + 1 <= |t.polygons| && v == t.offset + j && c == k.comp[v] && s.net == Fresh(t, suffix, j)
    requires IdsTagged(t, k, s.ids) && IdsTagged(t, k, s'.ids)
    requires FloatingNets(t, k, suffix, s.conn, j)
    ensures FloatingNets(t, k, suffix, s'.conn, next)
  {
    StepMakesNet(t, k, suffix, v, c, s, s', j);
    StepAllMade(t, k, suffix, s, s', j, next);
    StepAllExplained(t, k, suffix, c, s, s', j, next);
    StepAllUnused(t, k, suffix, s, s', j, next);
  }

  // What the traversal of any component keeps, and gathers if there is a net node in it.
  lemma StepKeeps(t: Task, k: Owners, suffix: nat, slot: NetRef, v: nat, s: State, s': State, i: nat)
    requires Naming(t, k, suffix) && v < |t.graph| && Step(t, k, slot, k.comp[v], s, s')
    requires IdsTagged(t, k, s.ids) && KeysAreIds(t, k, s.conn, s.ids) && Held(t, k, s.conn, s.ids)
    requires forall w :: 0 <= w < i && w < t.offset ==> Gathered(t, k, s.conn, k.comp[w])
    requires s.net in k.names || (slot == Local && t.prefix <= s.net && s.net !in k.names)
    ensures IdsTagged(t, k, s'.ids) && KeysAreIds(t, k, s'.conn, s'.ids) && Held(t, k, s'.conn, s'.ids)
    ensures HasNetNode(t, k, k.comp[v]) ==> s'.net in s'.ids
    ensures forall w :: 0 <= w < t.offset && (w < i || w == v) ==> Gathered(t, k, s'.conn, k.comp[w])
  {
    var c := k.comp[v];
    StepNames(t, k, slot, c, s, s');
    if HasNetNode(t, k, c) {
      StepGathers(t, k, c, v, s, s');
    }
    StepKeys(t, k, slot, c, s, s');
    StepHeld(t, k, slot, c, s, s');
    StepGathered(t, k, c, s, s', i);
  }

  lemma NetsInvStep(t: Task, k: Owners, suffix: nat, slot: NetRef, v: nat, s: State, s': State, i: nat, next: nat)
    requires Naming(t, k, suffix) && v < |t.graph| && Step(t, k, slot, k.comp[v], s, s')
    requires NetsInv(t, k, s.conn, s.ids, i)
    requires s.net in k.names || (slot == Local && t.prefix <= s.net && s.net !in k.names)
    requires if v < t.offset then v == i && next == i + 1 else next == i
    ensures NetsInv(t, k, s'.conn, s'.ids, next)
  {
    StepKeeps(t, k, suffix, slot, v, s, s', i);
  }

  lemma FloatingStep(t: Task, k: Owners, suffix: nat, v: nat, s: State, s': State, j: nat, next: nat)
    requires ValidTask(t) && ValidOwners(t, k) && FreshNamesFit(t, k, suffix)
    requires next == j + 1 <= |t.polygons| && v == t.offset + j && HasMembers(t, k, k.comp[v])
    requires Step(t, k, Local, k.comp[v], s, s') && s.net == Fresh(t, suffix, j)
    requires IdsTagged(t, k, s.ids) && IdsTagged(t, k, s'.ids) && FloatingNets(t, k, suffix, s.conn, j)
    ensures FloatingNets(t, k, suffix, s'.conn, next)
  {
    StepFloatingFromPolygon(t, k, suffix, v, k.comp[v], s, s', j, next);
  }

  // The loop over net nodes.
  lemma InvFromNet(t: Task, k: Owners, suffix: nat, s: State, s': State, i: nat, next: nat)
    requires Naming(t, k, suffix) && Inv(t, k, suffix, s.conn, s.ids, i, 0)
    requires next == i + 1 <= t.offset && s.net == s.ids[i] && Step(t, k, Slot(i), k.comp[i], s, s')
    ensures Inv(t, k, suffix, s'.conn, s'.ids, next, 0)
  {
    NetsInvStep(t, k, suffix, Slot(i), i, s, s', i, next);
    StepEndsNamed(t, k, s, s');
    assert HasNetNode(t, k, k.comp[i]);
    StepFloatingFromNet(t, k, suffix, k.comp[i], s, s');
  }

  // The loop over polygons.
  lemma InvFromPolygon(t: Task, k: Owners, suffix: nat, s: State, s': State, v: nat, j: nat, next: nat)
    requires Naming(t, k, suffix) && Inv(t, k, suffix, s.conn, s.ids, t.offset, j)
    requires next == j + 1 <= |t.polygons| && v == t.offset + j && s.net == Fresh(t, suffix, j)
    requires Step(t, k, Local, k.comp[v], s, s')
    ensures Inv(t, k, suffix, s'.conn, s'.ids, t.offset, next)
  {
    assert t.prefix <= s.net;
    NetsInvStep(t, k, suffix, Local, v, s, s', t.offset, t.offset);
    NodeHasMembers(t, k, v);
    FloatingStep(t, k, suffix, v, s, s', j, next);
  }
}
