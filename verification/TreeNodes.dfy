/** The nodes of a table of contents (libs/iostreams/doc/tree/tree.js). */
module TreeNodes {
  import Permutations
  import opened Options
  import opened Decimals
  import opened TreeIds

  datatype NodeState = Neutral | Expanded | Collapsed

  // A toggle with or without a requested state. A node without kids keeps its state.
  function Toggled(state: NodeState, hasKids: bool, expand: Option<bool>): NodeState {
    if !hasKids || (expand.Some? && expand.value == (state == Expanded)) then state
    else if state == Expanded then Collapsed
    else Expanded
  }

  // A node without kids stays as it is. Any other one ends as asked for, or else changes between the two states,
  // so that toggling it twice changes nothing.
  lemma ToggledTwice(state: NodeState, expand: bool)
    requires state != Neutral
    ensures Toggled(state, true, Some(expand)) == if expand then Expanded else Collapsed
    ensures Toggled(state, true, None) != state && Toggled(Toggled(state, true, None), true, None) == state
    ensures Toggled(state, false, Some(expand)) == Toggled(state, false, None) == state
  {
  }

  // The path from the root of every node of a tree.
  type Paths = map<TreeNode, Path>

  // The node is its parent's kid at the last index of its path.
  ghost predicate IsKid(paths: Paths, n: TreeNode)
    requires n in paths
    reads n`mom, paths.Keys`kids
  {
    && n.mom != null && n.mom in paths && paths[n] != []
    && var z := paths[n][|paths[n]| - 1];
    z < |n.mom.kids| && n.mom.kids[z] == n && paths[n] == paths[n.mom] + [z]
  }

  ghost predicate HasKid(paths: Paths, n: TreeNode, z: nat)
    requires n in paths && z < |n.kids|
    reads n`kids, paths.Keys`mom
  {
    n.kids[z] in paths && paths[n.kids[z]] == paths[n] + [z] && n.kids[z].mom == n
  }

  ghost predicate IsTree(root: TreeNode, paths: Paths)
    reads paths.Keys`mom, paths.Keys`kids
  {
    && root in paths && paths[root] == [] && root.mom == null
    && (forall n, z {:trigger HasKid(paths, n, z)} :: n in paths && 0 <= z < |n.kids| ==> HasKid(paths, n, z))
    && (forall n {:trigger IsKid(paths, n)} :: n in paths && n != root ==> IsKid(paths, n))
  }

  lemma OnlyRootHasNoMom(root: TreeNode, paths: Paths)
    requires IsTree(root, paths)
    ensures forall n :: n in paths ==> (n.mom == null <==> n == root)
  {
    forall n | n in paths && n != root
      ensures n.mom != null
    {
      assert IsKid(paths, n);
    }
  }

  // The paths of a tree with another tree below one of its nodes.
  ghost function Grafted(paths: Paths, kPaths: Paths, at: Path): Paths {
    map n | n in paths.Keys + kPaths.Keys :: if n in paths then paths[n] else at + kPaths[n]
  }

  // The node and everything below it.
  ghost function Below(paths: Paths, n: TreeNode): set<TreeNode>
    requires n in paths
  {
    set m | m in paths && paths[n] <= paths[m]
  }

  lemma {:induction false} SamePathSameNode(root: TreeNode, paths: Paths, m: TreeNode, n: TreeNode)
    requires IsTree(root, paths) && m in paths && n in paths && paths[m] == paths[n]
    ensures m == n
    decreases |paths[m]|
  {
    assert m == root || IsKid(paths, m);
    assert n == root || IsKid(paths, n);
    if m != root && n != root {
      assert paths[m.mom] == paths[m][..|paths[m]| - 1] == paths[n.mom];
      SamePathSameNode(root, paths, m.mom, n.mom);
    }
  }

  // Whatever is strictly below a node is below one of its kids.
  lemma {:induction false} BelowKid(root: TreeNode, paths: Paths, n: TreeNode, m: TreeNode)
    requires IsTree(root, paths) && m in paths && n in paths && paths[n] < paths[m]
    ensures paths[m][|paths[n]|] < |n.kids|
    ensures paths[n] + [paths[m][|paths[n]|]] <= paths[m]
    decreases |paths[m]|
  {
    assert IsKid(paths, m);
    var z := paths[m][|paths[m]| - 1];
    assert paths[m.mom] == paths[m][..|paths[m]| - 1];
    if |paths[m]| == |paths[n]| + 1 {
      assert paths[m.mom] == paths[n];
      SamePathSameNode(root, paths, m.mom, n);
    } else {
      assert paths[n] < paths[m.mom];
      BelowKid(root, paths, n, m.mom);
    }
  }

  class TreeNode {
    var link: string
    var mom: TreeNode?
    var kids: seq<TreeNode>
    var id: string
    var state: NodeState

    constructor (link: string)
      ensures this.link == link && mom == null && kids == [] && id == "" && state == Neutral
    {
      this.link := link;
      mom, kids, id, state := null, [], "", Neutral;
    }

    // Append a new kid.
    method Add(link: string, ghost root: TreeNode, ghost paths: Paths) returns (k: TreeNode, ghost newPaths: Paths)
      requires IsTree(root, paths) && this in paths
      modifies this`state, this`kids
      ensures fresh(k) && kids == old(kids) + [k]
      ensures state == if old(state) == Neutral then Collapsed else old(state)
      ensures k.link == link && k.kids == [] && k.state == Neutral
      ensures newPaths == paths[k := paths[this] + [|old(kids)|]] && IsTree(root, newPaths)
    {
      k := new TreeNode(link);
      Append(k);
      newPaths := paths[k := paths[this] + [|old(kids)|]];
      forall n, z | n in newPaths && 0 <= z < |n.kids|
        ensures HasKid(newPaths, n, z)
      {
        assert n != k && (n != this || z < |old(kids)| ==> old(HasKid(paths, n, z)));
      }
      forall n | n in newPaths && n != root
        ensures IsKid(newPaths, n)
      {
        assert n != k ==> old(IsKid(paths, n));
      }
    }

    // Append a node that is the root of a tree of its own.
    method AddNode(k: TreeNode, ghost root: TreeNode, ghost paths: Paths, ghost kPaths: Paths)
      returns (ghost newPaths: Paths)
      requires IsTree(root, paths) && this in paths && IsTree(k, kPaths) && paths.Keys !! kPaths.Keys
      modifies this`state, this`kids, k`mom
      ensures kids == old(kids) + [k]
      ensures state == if old(state) == Neutral then Collapsed else old(state)
      ensures newPaths == Grafted(paths, kPaths, paths[this] + [|old(kids)|]) && IsTree(root, newPaths)
    {
      newPaths := Grafted(paths, kPaths, paths[this] + [|kids|]);
      Append(k);
      forall n, z | n in newPaths && 0 <= z < |n.kids|
        ensures HasKid(newPaths, n, z)
      {
        if n in kPaths {
          assert old(HasKid(kPaths, n, z));
        } else {
          assert n != this || z < |old(kids)| ==> old(HasKid(paths, n, z));
        }
      }
      forall n | n in newPaths && n != root
        ensures IsKid(newPaths, n)
      {
        if n in paths {
          assert old(IsKid(paths, n));
        } else {
          assert n != k ==> old(IsKid(kPaths, n));
        }
      }
    }

    // The steps that appending a new node and appending an existing one share.
    method Append(k: TreeNode)
      modifies this`state, this`kids, k`mom
      ensures kids == old(kids) + [k] && k.mom == this
      ensures state == if old(state) == Neutral then Collapsed else old(state)
    {
      if state == Neutral {
        state := Collapsed;
      }
      k.mom := this;
      kids := kids + [k];
    }

    method Toggle(expand: Option<bool>)
      modifies this`state
      ensures state == Toggled(old(state), kids != [], expand)
    {
      if kids == [] || (expand.Some? && expand.value == (state == Expanded)) {
        return;
      }
      state := if state == Expanded then Collapsed else Expanded;
    }

    // Counts the ancestors, starting from minus one.
    method Level(ghost root: TreeNode, ghost paths: Paths) returns (level: int)
      requires IsTree(root, paths) && this in paths
      ensures level == |paths[this]| - 1
    {
      var node := mom;
      level := -1;
      ghost var at: TreeNode := this;
      while node != null
        invariant at in paths && node == at.mom
        invariant level == |paths[this]| - |paths[at]| - 1
        decreases |paths[at]|
      {
        assert IsKid(paths, at);
        at := node;
        node := node.mom;
        level := level + 1;
      }
      assert at == root || IsKid(paths, at);
    }

    // Number the kids from one, and print each in turn, which numbers what is below it.
    method PrintKids(ghost root: TreeNode, ghost paths: Paths)
      requires IsTree(root, paths) && this in paths
      modifies paths.Keys`id
      ensures IsTree(root, paths) && id == old(id)
      ensures forall m :: m in paths ==> m.id == IdBelow(paths, this, id, m, old(m.id))
      decreases |Below(paths, this)|, 1
    {
      ghost var before := map m | m in paths :: m.id;
      AllBelowKids(root, paths, this);
      for z := 0 to |kids|
        invariant id == old(id) && IsTree(root, paths)
        invariant forall m :: m in paths ==> m.id == IdUpTo(paths, this, z, id, m, before[m])
      {
        PrintKid(root, paths, z, before);
      }
    }

    // One kid: its id, and then everything below it.
    method PrintKid(ghost root: TreeNode, ghost paths: Paths, z: nat, ghost before: Ids)
      requires IsTree(root, paths) && this in paths && z < |kids| && before.Keys == paths.Keys
      requires forall m :: m in paths ==> m.id == IdUpTo(paths, this, z, id, m, before[m])
      modifies paths.Keys`id
      ensures IsTree(root, paths) && id == old(id)
      ensures forall m :: m in paths ==> m.id == IdUpTo(paths, this, z + 1, id, m, before[m])
      decreases |Below(paths, this)|, 0
    {
      var k := kids[z];
      TreeIsInjective(root, paths);
      KidBelow(root, paths, this, z);
      k.id := id + "." + Decimal(z + 1);
      ghost var numbered := map m | m in paths :: m.id;
      k.PrintKids(root, paths);
      NumberedNext(paths, this, k, z, id, before, numbered, map m | m in paths :: m.id);
    }
  }

  lemma TreeIsInjective(root: TreeNode, paths: Paths)
    requires IsTree(root, paths)
    ensures Injective(paths)
  {
    forall m, n | m in paths && n in paths && paths[m] == paths[n]
      ensures m == n
    {
      SamePathSameNode(root, paths, m, n);
    }
  }

  lemma AllBelowKids(root: TreeNode, paths: Paths, n: TreeNode)
    requires IsTree(root, paths) && n in paths
    ensures forall m :: m in paths && paths[n] < paths[m] ==> paths[m][|paths[n]|] < |n.kids|
  {
    forall m | m in paths && paths[n] < paths[m]
      ensures paths[m][|paths[n]|] < |n.kids|
    {
      BelowKid(root, paths, n, m);
    }
  }

  ghost predicate Injective(paths: Paths) {
    forall m, n :: m in paths && n in paths && paths[m] == paths[n] ==> m == n
  }

  // The id of a node after printing n: the id of n and the label below it, or the id it had.
  ghost function IdBelow(paths: Paths, n: TreeNode, id: string, m: TreeNode, had: string): string
    requires n in paths && m in paths
  {
    if paths[n] < paths[m] then id + Label(paths[m][|paths[n]|..]) else had
  }

  // The same when only the first z kids have been printed.
  ghost function IdUpTo(paths: Paths, n: TreeNode, z: nat, id: string, m: TreeNode, had: string): string
    requires n in paths && m in paths
  {
    if paths[n] < paths[m] && paths[m][|paths[n]|] < z then id + Label(paths[m][|paths[n]|..]) else had
  }

  // Setting a kid's id and then printing below it extends the printed part by that kid.
  lemma IdUpToNext(paths: Paths, n: TreeNode, k: TreeNode, z: nat, id: string, m: TreeNode, had: string)
    requires Injective(paths) && n in paths && m in paths && k in paths && paths[k] == paths[n] + [z]
    ensures var kid := id + "." + Decimal(z + 1);
            IdBelow(paths, k, kid, m, if m == k then kid else IdUpTo(paths, n, z, id, m, had)) ==
            IdUpTo(paths, n, z + 1, id, m, had)
  {
    LabelBelowKid(paths, n, k, z, m);
    if paths[k] < paths[m] {
      Regrouped(id, ".", Decimal(z + 1), Label(paths[m][|paths[k]|..]));
    }
  }

  lemma Regrouped(a: string, b: string, c: string, d: string)
    ensures a + (b + c + d) == a + b + c + d
  {
  }

  type Ids = map<TreeNode, string>

  lemma NumberedNext(paths: Paths, n: TreeNode, k: TreeNode, z: nat, id: string,
                     before: Ids, numbered: Ids, after: Ids)
    requires Injective(paths) && n in paths && k in paths && paths[k] == paths[n] + [z]
    requires before.Keys == numbered.Keys == after.Keys == paths.Keys
    requires var kid := id + "." + Decimal(z + 1);
             && (forall m :: m in paths ==>
                   numbered[m] == if m == k then kid else IdUpTo(paths, n, z, id, m, before[m]))
             && (forall m :: m in paths ==> after[m] == IdBelow(paths, k, kid, m, numbered[m]))
    ensures forall m :: m in paths ==> after[m] == IdUpTo(paths, n, z + 1, id, m, before[m])
    ensures after[n] == before[n]
  {
    forall m | m in paths
      ensures after[m] == IdUpTo(paths, n, z + 1, id, m, before[m])
    {
      IdUpToNext(paths, n, k, z, id, m, before[m]);
    }
  }

  lemma KidBelow(root: TreeNode, paths: Paths, n: TreeNode, z: nat)
    requires IsTree(root, paths) && n in paths && z < |n.kids|
    ensures n.kids[z] in paths && paths[n.kids[z]] == paths[n] + [z]
    ensures |Below(paths, n.kids[z])| < |Below(paths, n)|
  {
    var k := n.kids[z];
    assert HasKid(paths, n, z);
    assert n in Below(paths, n) && n !in Below(paths, k);
    assert Below(paths, k) <= Below(paths, n) - {n};
    Permutations.SubsetCount(Below(paths, k), Below(paths, n) - {n});
  }

  // Which nodes are below a kid, and their labels relative to the node and to the kid.
  lemma LabelBelowKid(paths: Paths, n: TreeNode, k: TreeNode, z: nat, m: TreeNode)
    requires Injective(paths) && n in paths && m in paths && k in paths && paths[k] == paths[n] + [z]
    ensures paths[n] < paths[m] && paths[m][|paths[n]|] == z <==> m == k || paths[k] < paths[m]
    ensures paths[k] < paths[m] ==>
              Label(paths[m][|paths[n]|..]) == "." + Decimal(z + 1) + Label(paths[m][|paths[k]|..])
    ensures Label(paths[k][|paths[n]|..]) == "." + Decimal(z + 1)
  {
    assert paths[k][|paths[n]|..] == [z];
    LabelOfKid([], z);
    assert [] + [z] == [z];
    if paths[k] < paths[m] {
      assert paths[m][|paths[n]|..] == [z] + paths[m][|paths[k]|..];
      LabelFrom([z], paths[m][|paths[k]|..]);
    }
    PathBelowKid(paths[n], z, paths[m]);
  }

  lemma PathBelowKid(p: Path, z: nat, q: Path)
    ensures p < q && q[|p|] == z <==> p + [z] <= q
  {
    if p + [z] <= q {
      assert q[|p|] == (p + [z])[|p|];
      assert forall i :: 0 <= i < |p| ==> q[i] == (p + [z])[i] == p[i];
    }
  }
}
