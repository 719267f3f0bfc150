/** The table of contents as a whole: lookup, traversal, bookmarks
    (libs/iostreams/doc/tree/tree.js). */
module TreeControls {
  import opened Options
  import opened Strings
  import opened JsNumbers
  import opened TreeIds
  import opened TreeNodes

  // What a lookup ends with: a node, the value undefined, or a type error.
  datatype Lookup = Found(node: TreeNode) | Undefined | NoSuchProperty

  // What loading a page address ends with.
  datatype LoadResult = NoQuery | LoadsPage(url: string) | Reaches(node: TreeNode, page: Option<string>) | Fails

  // The page that a node loads: that of its link, if it has one.
  function PageOf(link: string): (page: Option<string>)
    ensures page.Some? <==> link != ""
    ensures page.Some? ==> page.value == link
  {
    if link == "" then None else Some(link)
  }

  // What an operation sees of a node.
  datatype View = View(state: NodeState, hasKids: bool, link: string, id: string, isRoot: bool)

  // What an operation makes of a node's state, and what it remembers.
  datatype Effect<A> = Effect(state: NodeState, acc: A)

  // Any operation that keeps the shape of the tree.
  type NodeOp<!A> = (View, A) -> Effect<A>

  // Collapse a node unless it is the root.
  function ResetNode(v: View, acc: ()): Effect<()> {
    Effect(if v.isRoot then v.state else Toggled(v.state, v.hasKids, Some(false)), acc)
  }

  // Whether a node that shows the page has been found, and the address of the page.
  datatype Search = Search(success: bool, location: string)

  // Bookmark a node if it links the target.
  function SyncNode(v: View, acc: Search, target: string, base: string, topUrl: string): Effect<Search> {
    Effect(v.state, if Links(v.link, target, base) then Search(true, Bookmark(topUrl, v.id)) else acc)
  }

  function SyncOp(target: string, base: string, topUrl: string): NodeOp<Search> {
    (v: View, acc: Search) => SyncNode(v, acc, target, base, topUrl)
  }

  // ---- Addresses ----

  function IndexOfChar(s: string, c: char): (i: Option<nat>)
    ensures i.Some? ==> i.value < |s| && s[i.value] == c && c !in s[..i.value]
    ensures i.None? <==> c !in s
  {
    if s == "" then None
    else if s[0] == c then Some(0)
    else match IndexOfChar(s[1..], c)
      case None => None
      case Some(i) => Some(i + 1)
  }

  // An address up to its question mark, if it has one.
  function WithoutQuery(url: string): (page: string)
    ensures page <= url && '?' !in page && (page == url || url[|page|] == '?')
  {
    match IndexOfChar(url, '?')
    case None => url
    case Some(i) => url[..i]
  }

  function ReplaceQuery(url: string, query: string): string {
    WithoutQuery(url) + "?" + query
  }

  // An address up to its last slash, if it has one.
  function DirectoryOf(url: string): (base: string)
    ensures if '/' in url then base != "" && base <= url && base[|base| - 1] == '/' && '/' !in url[|base|..]
            else base == url
  {
    if '/' !in url || url[|url| - 1] == '/' then url
    else
      var front := url[..|url| - 1];
      assert url == front + [url[|url| - 1]];
      assert url[|DirectoryOf(front)|..] == front[|DirectoryOf(front)|..] + [url[|url| - 1]];
      DirectoryOf(front)
  }

  // The part of an address from its question mark on.
  function SearchOf(url: string): string {
    match IndexOfChar(url, '?')
    case None => ""
    case Some(i) => url[i..]
  }

  lemma FirstIndex(a: string, c: char, b: string)
    requires c !in a
    ensures IndexOfChar(a + [c] + b, c) == Some(|a|)
  {
    var s := a + [c] + b;
    assert s[|a|] == c;
    var i := IndexOfChar(s, c).value;
    assert i >= |a| by {
      assert forall j :: 0 <= j < |a| ==> s[j] == a[j];
    }
    assert forall j :: 0 <= j < i ==> s[j] in s[..i];
  }

  lemma SearchOfReplaced(url: string, query: string)
    ensures SearchOf(ReplaceQuery(url, query)) == "?" + query
  {
    FirstIndex(WithoutQuery(url), '?', query);
  }

  function WithoutFirst(s: string): string {
    if s == "" then "" else s[1..]
  }

  // An absolute link is compared as it is, any other one relative to the base.
  predicate Links(link: string, target: string, base: string) {
    link != "" && if Find(link, "://").Some? then link == target else base + link == target
  }

  // What it means for a link on the page of contents to be that of a page: if "://" occurs anywhere in it, it is
  // the page without its query, and otherwise it is so when it follows the directory of the contents.
  ghost predicate IsLinkTo(link: string, page: string, tocUrl: string) {
    && link != ""
    && ((exists i: nat :: OccursAt(link, "://", i)) ==> link == WithoutQuery(page))
    && ((forall i: nat :: !OccursAt(link, "://", i)) ==> DirectoryOf(tocUrl) + link == WithoutQuery(page))
  }

  lemma LinksIsLinkTo(link: string, page: string, tocUrl: string)
    ensures Links(link, WithoutQuery(page), DirectoryOf(tocUrl)) <==> IsLinkTo(link, page, tocUrl)
  {
    if Find(link, "://").Some? {
      assert OccursAt(link, "://", Find(link, "://").value);
    }
  }

  lemma DirectoryIs(dir: string, name: string)
    requires dir != "" && dir[|dir| - 1] == '/' && '/' !in name
    ensures DirectoryOf(dir + name) == dir
  {
    var url := dir + name;
    var base := DirectoryOf(url);
    assert url[|dir| - 1] == '/' && forall j :: |dir| <= j < |url| ==> url[j] == name[j - |dir|];
    assert forall j :: |base| <= j < |url| ==> url[j] in url[|base|..];
    assert base == url[..|base|] && dir == url[..|dir|] && url[|base| - 1] == '/';
  }

  lemma PageWithQuery(page: string, query: string)
    requires '?' !in page
    ensures WithoutQuery(page) == page && WithoutQuery(page + (['?'] + query)) == page
  {
    var url := page + (['?'] + query);
    var found := WithoutQuery(url);
    assert url[|page|] == '?' && forall j :: 0 <= j < |page| ==> url[j] == page[j];
    assert forall j :: 0 <= j < |found| ==> found[j] in found && found[j] == url[j];
    assert found == url[..|found|] && page == url[..|page|];
  }

  // A link without "://" is that of exactly the page of its name in the directory of the contents, with any query.
  lemma RelativeLink(dir: string, toc: string, link: string, page: string, query: string)
    requires dir != "" && dir[|dir| - 1] == '/' && '/' !in toc && '?' !in page
    requires link != "" && forall i: nat :: !OccursAt(link, "://", i)
    ensures IsLinkTo(link, page, dir + toc) <==> page == dir + link
    ensures IsLinkTo(link, page + (['?'] + query), dir + toc) <==> page == dir + link
  {
    DirectoryIs(dir, toc);
    PageWithQuery(page, query);
  }

  // The address that bookmarks a node.
  function Bookmark(topUrl: string, id: string): string {
    ReplaceQuery(topUrl, "path=" + WithoutFirst(id))
  }

  // The address that bookmarks a page.
  function PageAddress(topUrl: string, page: string): string {
    ReplaceQuery(topUrl, "page=" + page)
  }

  // Bookmarks in full: the address of the frame without its query, and what is asked for.
  lemma BookmarkText(topUrl: string, number: string, page: string)
    ensures Bookmark(topUrl, "") == WithoutQuery(topUrl) + "?path="
    ensures Bookmark(topUrl, "." + number) == WithoutQuery(topUrl) + "?path=" + number
    ensures PageAddress(topUrl, page) == WithoutQuery(topUrl) + "?page=" + page
  {
    assert ("." + number)[1..] == number && "path=" + "" == "path=";
  }

  // ---- Queries ----

  // What the query of a page address asks for.
  datatype Query = Nothing | Page(url: string) | Parts(parts: seq<string>)

  function ParseQuery(search: string): Query {
    if search == "" then Nothing
    else
      var query := search[1..];
      match IndexOfChar(query, '=')
      case None => Parts(Split(query))
      case Some(eq) => if "page" <= query then Page(query[eq + 1..]) else Parts(Split(query[eq + 1..]))
  }

  // What follows the first equality sign counts, or everything if there is none. A query that begins with "page" asks
  // for a page, any other one for the parts between its dots.
  lemma QueryMeans(name: string, text: string)
    requires '=' !in name
    ensures ParseQuery("?" + name) == Parts(Split(name))
    ensures ParseQuery("?" + (name + ['='] + text)) == if "page" <= name then Page(text) else Parts(Split(text))
  {
    assert ("?" + name)[1..] == name;
    QueryWithSign("?" + (name + ['='] + text), name, text);
    WordOfName("page", name, text);
  }

  lemma QueryWithSign(search: string, name: string, text: string)
    requires '=' !in name && search != "" && search[1..] == name + ['='] + text
    ensures ParseQuery(search) == if "page" <= search[1..] then Page(text) else Parts(Split(text))
  {
    FirstIndex(name, '=', text);
    assert search[1..][|name| + 1..] == text;
  }

  lemma WordOfName(word: string, name: string, text: string)
    requires '=' !in word
    ensures word <= name + ['='] + text <==> word <= name
  {
    var query := name + ['='] + text;
    assert query[|name|] == '=' && query[..|name|] == name;
    assert forall j :: 0 <= j < |word| ==> word[j] != '=';
  }

  lemma PageQuery(page: string)
    ensures ParseQuery("?" + ("page=" + page)) == Page(page)
  {
    QueryMeans("page", page);
    assert "page" + ['='] == "page=";
  }

  // The address of a page asks for that page.
  lemma PageIsRead(topUrl: string, page: string)
    ensures ParseQuery(SearchOf(PageAddress(topUrl, page))) == Page(page)
  {
    SearchOfReplaced(topUrl, "page=" + page);
    PageQuery(page);
  }

  lemma PathIsNotPage()
    ensures !("page" <= "path")
  {
    assert "page"[2] != "path"[2];
  }

  // A path query is split at its dots.
  lemma PathQuery(numbers: string)
    ensures ParseQuery("?" + ("path=" + numbers)) == Parts(Split(numbers))
  {
    PathIsNotPage();
    QueryMeans("path", numbers);
    assert "path" + ['='] == "path=";
  }

  // The query of a bookmark asks for the numbers of the node's path.
  lemma ParseBookmark(topUrl: string, p: Path)
    requires p != []
    ensures ParseQuery(SearchOf(Bookmark(topUrl, Label(p)))) == Parts(Numerals(p))
  {
    LabelWithoutDot(p);
    SearchOfReplaced(topUrl, "path=" + Label(p)[1..]);
    PathQuery(Label(p)[1..]);
  }

  // ---- The walk that load takes along the parts of a path ----

  // The first parts spell the node's path.
  ghost predicate SpelledBy(parts: seq<string>, p: Path) {
    |p| <= |parts| && forall i :: 0 <= i < |p| ==> ParseInt(parts[i]) == Some(p[i] + 1)
  }

  // The walk ends at the node: no parts are left, or the next one names no kid.
  ghost predicate EndsAt(parts: seq<string>, p: Path, kids: nat) {
    SpelledBy(parts, p) &&
    (|p| == |parts| || kids == 0 ||
     (ParseInt(parts[|p|]).Some? && !(1 <= ParseInt(parts[|p|]).value <= kids)))
  }

  // The walk fails at the node: it has kids, and the next part is no number.
  ghost predicate FailsAt(parts: seq<string>, p: Path, kids: nat) {
    SpelledBy(parts, p) && |p| < |parts| && kids > 0 && ParseInt(parts[|p|]).None?
  }

  lemma SpelledNext(parts: seq<string>, p: Path, i: nat)
    requires SpelledBy(parts, p) && |p| < |parts| && ParseInt(parts[|p|]) == Some(i + 1)
    ensures SpelledBy(parts, p + [i])
  {
  }

  lemma SpelledPrefix(parts: seq<string>, p: Path, q: Path)
    requires SpelledBy(parts, p) && SpelledBy(parts, q) && |p| <= |q|
    ensures p <= q
  {
    forall i | 0 <= i < |p|
      ensures p[i] == q[i]
    {
      assert ParseInt(parts[i]) == Some(p[i] + 1);
      assert ParseInt(parts[i]) == Some(q[i] + 1);
    }
  }

  lemma NumeralsSpell(p: Path)
    ensures SpelledBy(Numerals(p), p)
  {
    forall i | 0 <= i < |p|
      ensures ParseInt(Numerals(p)[i]) == Some(p[i] + 1)
    {
      NumbersOfDecimal(p[i] + 1);
    }
  }

  // The walk could not have gone on to a kid.
  lemma EndIsLast(parts: seq<string>, p: Path, kids: nat, q: Path)
    requires EndsAt(parts, p, kids) && SpelledBy(parts, q) && p <= q
    ensures p == q || q[|p|] >= kids
  {
    assert |p| < |q| ==> ParseInt(parts[|p|]) == Some(q[|p|] + 1);
  }

  // ---- The control ----

  class TreeControl {
    const root: TreeNode
    const topUrl: string
    var location: string
    ghost var paths: Paths

    constructor (topUrl: string)
      ensures this.topUrl == topUrl && location == topUrl
      ensures Valid() && paths == map[root := []] && root.state == Expanded
    {
      this.topUrl, location := topUrl, topUrl;
      var r := new TreeNode("");
      r.state := Expanded;
      root := r;
      paths := map[r := []];
    }

    // A tree whose nodes, the root aside, are neutral exactly when they have no kids.
    ghost predicate Valid()
      reads this, paths.Keys`mom, paths.Keys`kids, paths.Keys`state
    {
      IsTree(root, paths) && forall n :: n in paths && n != root ==> (n.kids == [] <==> n.state == Neutral)
    }

    // Append a kid to a node of the tree.
    method Add(n: TreeNode, link: string) returns (k: TreeNode)
      requires Valid() && n in paths
      modifies this`paths, n`state, n`kids
      ensures Valid() && fresh(k) && n.kids == old(n.kids) + [k] && k.link == link
      ensures paths == old(paths)[k := old(paths)[n] + [|old(n.kids)|]]
    {
      ghost var newPaths;
      k, newPaths := n.Add(link, root, paths);
      paths := newPaths;
    }

    // Append a node with its own subtree, in which the same holds.
    method AddNode(n: TreeNode, k: TreeNode, ghost kPaths: Paths)
      requires Valid() && n in paths && IsTree(k, kPaths) && paths.Keys !! kPaths.Keys
      requires forall m :: m in kPaths ==> (m.kids == [] <==> m.state == Neutral)
      modifies this`paths, n`state, n`kids, k`mom
      ensures Valid() && n.kids == old(n.kids) + [k]
      ensures paths == Grafted(old(paths), kPaths, old(paths)[n] + [|old(n.kids)|])
    {
      ghost var newPaths := n.AddNode(k, root, paths, kPaths);
      paths := newPaths;
    }

    // Printing the whole tree gives every node the label of its path as id.
    method Html()
      requires Valid() && root.id == ""
      modifies paths.Keys`id
      ensures Valid() && Numbered()
    {
      root.PrintKids(root, paths);
      forall m | m in paths
        ensures m.id == Label(paths[m])
      {
        assert m.id == IdBelow(paths, root, "", m, old(m.id));
        if paths[m] == [] {
          SamePathSameNode(root, paths, m, root);
        }
        assert paths[m][0..] == paths[m];
      }
    }

    ghost predicate Numbered()
      reads this, paths.Keys`id
    {
      forall m :: m in paths ==> m.id == Label(paths[m])
    }

    // Follow the parts of an id after the first. A node is found exactly if they spell its path.
    method Find(id: string) returns (r: Lookup)
      requires Valid()
      ensures r.Found? ==> r.node in paths && Denotes(Split(id)[1..], paths[r.node])
      ensures forall m :: m in paths && Denotes(Split(id)[1..], paths[m]) ==> r == Found(m)
    {
      var indices := Split(id);
      ghost var parts := indices[1..];
      r := Found(root);
      for z := 1 to |indices|
        invariant FollowsTo(parts, z - 1, r) && r != NoSuchProperty
      {
        if r == Undefined {
          return NoSuchProperty;
        }
        r := FindNext(r.node, indices[z], parts, z - 1, z);
        if r == NoSuchProperty {
          return;
        }
      }
      assert parts[..|indices| - 1] == parts;
      if r.Found? {
        OnlyDenoted(root, paths, r.node, parts);
      }
    }

    // Where the first z parts lead: to a node that they spell, or nowhere.
    ghost predicate FollowsTo(parts: seq<string>, z: nat, r: Lookup)
      requires z <= |parts|
      reads this
    {
      if r.Found? then r.node in paths && Denotes(parts[..z], paths[r.node]) else NothingDenoted(paths, parts)
    }

    // One step of a lookup.
    method FindNext(node: TreeNode, part: string, ghost parts: seq<string>, ghost z: nat, ghost next: nat)
      returns (r: Lookup)
      requires Valid() && next == z + 1 <= |parts| && parts[z] == part && FollowsTo(parts, z, Found(node))
      ensures FollowsTo(parts, next, r)
    {
      NoOtherKid(root, paths, node, parts, z);
      r := KidAt(node, ToNumber(part));
      if r.Found? {
        KidDenoted(parts, z, next, paths[node], paths[r.node]);
      }
    }

    // The kid with a number, counting from one.
    method KidAt(node: TreeNode, number: Option<int>) returns (r: Lookup)
      requires Valid() && node in paths
      ensures match r
              case Found(kid) =>
                && number.Some? && 1 <= number.value <= |node.kids|
                && kid in paths && paths[kid] == paths[node] + [number.value - 1]
              case Undefined => node.kids != [] && !(number.Some? && 1 <= number.value <= |node.kids|)
              case NoSuchProperty => node.kids == []
    {
      if node.kids == [] {
        return NoSuchProperty;
      }
      if number.Some? && 0 <= number.value - 1 < |node.kids| {
        assert HasKid(paths, node, number.value - 1);
        return Found(node.kids[number.value - 1]);
      }
      return Undefined;
    }

    // Ids and lookup undo each other, with and without the prefix used in the page.
    method FindById(n: TreeNode) returns (r: Lookup, prefixed: Lookup)
      requires Valid() && Numbered() && n in paths
      ensures r == Found(n) && prefixed == Found(n)
    {
      SplitLabel("", paths[n]);
      SplitLabel("id", paths[n]);
      NumeralsDenote(paths[n]);
      assert "" + Label(paths[n]) == n.id;
      assert Split(n.id)[1..] == Numerals(paths[n]);
      assert Split("id" + n.id)[1..] == Numerals(paths[n]);
      r := Find(n.id);
      prefixed := Find("id" + n.id);
    }

    // One application of a traversal's operation.
    method Apply<A>(op: NodeOp<A>, node: TreeNode, acc: A) returns (newAcc: A)
      requires IsTree(root, paths) && node in paths
      modifies node`state
      ensures IsTree(root, paths)
      ensures Effect(node.state, newAcc) == op(old(ViewOf(node)), acc)
    {
      assert node == root || IsKid(paths, node);
      var view := View(node.state, node.kids != [], node.link, node.id, node.mom == null);
      var effect := op(view, acc);
      node.state := effect.state;
      newAcc := effect.acc;
    }

    ghost function ViewOf(n: TreeNode): View
      reads n
    {
      View(n.state, n.kids != [], n.link, n.id, n.mom == null)
    }

    ghost function Views(): (views: map<TreeNode, View>)
      reads this, paths.Keys
    {
      map n | n in paths :: ViewOf(n)
    }

    // The node on top of the stack.
    method VisitNext<A>(op: NodeOp<A>, node: TreeNode, acc: A, ghost trace: seq<TreeNode>,
                        ghost views: map<TreeNode, View>, ghost start: A)
      returns (newAcc: A)
      requires IsTree(root, paths) && node in paths && node !in trace
      requires Applied(op, trace, views, Views(), start) && acc == Folded(op, views, trace, start)
      modifies node`state
      ensures IsTree(root, paths) && Applied(op, trace + [node], views, Views(), start)
      ensures newAcc == Folded(op, views, trace + [node], start)
    {
      ghost var before, effect := Views(), op(ViewOf(node), acc);
      AppliedNext(op, trace, views, before, start, node);
      newAcc := Apply(op, node, acc);
      ViewsAfter(before, node, effect.state);
    }

    // When one state has been set the views are as before but for that state.
    lemma ViewsAfter(before: map<TreeNode, View>, node: TreeNode, state: NodeState)
      requires before.Keys == paths.Keys && node in before && ViewOf(node) == before[node].(state := state)
      requires forall m :: m in paths && m != node ==> ViewOf(m) == before[m]
      ensures Views() == before[node := before[node].(state := state)]
    {
    }

    // Visit every node once, with an explicit stack: a node before its kids, kids from right to left.
    // Any operation is applied to each node's own view, and to what it has remembered so far.
    method Recurse<A>(op: NodeOp<A>, start: A) returns (acc: A, ghost trace: seq<TreeNode>)
      requires Valid()
      modifies paths.Keys`state
      ensures IsTree(root, paths) && Visits(paths, trace)
      ensures Applied(op, trace, old(Views()), Views(), start)
      ensures acc == Folded(op, old(Views()), trace, start)
    {
      var stack := [root];
      ghost var views := Views();
      acc, trace := start, [];
      StackInitially(root, paths);
      while stack != []
        invariant IsTree(root, paths) && StackInv(paths, trace, stack)
        invariant Applied(op, trace, views, Views(), start) && acc == Folded(op, views, trace, start)
        decreases |paths.Keys - Members(trace)|
      {
        stack, acc, trace := VisitTop(op, stack, acc, trace, views, start);
      }
      StackEmpty(paths, trace);
    }

    // One turn of the loop: take a node off the stack, visit it, and push its kids.
    method VisitTop<A>(op: NodeOp<A>, stack: seq<TreeNode>, acc: A, ghost trace: seq<TreeNode>,
                       ghost views: map<TreeNode, View>, ghost start: A)
      returns (newStack: seq<TreeNode>, newAcc: A, ghost newTrace: seq<TreeNode>)
      requires IsTree(root, paths) && StackInv(paths, trace, stack) && stack != []
      requires Applied(op, trace, views, Views(), start) && acc == Folded(op, views, trace, start)
      modifies paths.Keys`state
      ensures IsTree(root, paths) && StackInv(paths, newTrace, newStack)
      ensures Applied(op, newTrace, views, Views(), start) && newAcc == Folded(op, views, newTrace, start)
      ensures |paths.Keys - Members(newTrace)| < |paths.Keys - Members(trace)|
    {
      var node := stack[|stack| - 1];
      newTrace := trace + [node];
      newStack := stack[..|stack| - 1] + node.kids;
      StackPops(root, paths, trace, stack);
      TraceGrows(paths, trace, node);
      newAcc := VisitNext(op, node, acc, trace, views, start);
    }

    // Collapse everything below the root.
    method Reset()
      requires Valid()
      modifies paths.Keys`state
      ensures Valid() && root.state == old(root.state)
      ensures forall m :: m in paths && m != root ==> m.state == if m.kids == [] then Neutral else Collapsed
    {
      ghost var views := Views();
      ghost var trace;
      var acc;
      OnlyRootHasNoMom(root, paths);
      acc, trace := Recurse(ResetNode, ());
      ResetViews(views, trace, Views());
      forall m | m in paths && m != root
        ensures m.state == if m.kids == [] then Neutral else Collapsed
      {
        assert Views()[m] == ViewOf(m);
        ResetState(views[m]);
      }
      assert Views()[root] == ViewOf(root);
    }

    // Bookmark the node whose link is the page shown, without its query; if there is none, bookmark the page.
    // Outside of a frame nothing happens.
    method Sync(page: string, tocUrl: string, framed: bool, escape: string -> string)
      requires Valid()
      modifies this`location, paths.Keys`state
      ensures Valid() && forall m :: m in paths ==> m.state == old(m.state)
      ensures !framed ==> location == old(location)
      ensures framed && (exists m :: m in paths && Shows(m, page, tocUrl)) ==>
                exists m :: LastShowing(page, tocUrl, m) && location == Bookmark(topUrl, m.id)
      ensures framed && (forall m :: m in paths ==> !Shows(m, page, tocUrl)) ==>
                location == PageAddress(topUrl, escape(page))
    {
      if !framed {
        return;
      }
      var search := SearchFor(page, tocUrl);
      if search.success {
        location := search.location;
      } else {
        location := PageAddress(topUrl, escape(page));
      }
    }

    // The traversal that looks for the page.
    method SearchFor(page: string, tocUrl: string) returns (search: Search)
      requires Valid()
      modifies paths.Keys`state
      ensures Valid() && forall m :: m in paths ==> m.state == old(m.state)
      ensures search.success <==> exists m :: m in paths && Shows(m, page, tocUrl)
      ensures search.success ==> exists m :: LastShowing(page, tocUrl, m) && search.location == Bookmark(topUrl, m.id)
    {
      var target, base := WithoutQuery(page), DirectoryOf(tocUrl);
      ghost var views := Views();
      ghost var trace;
      search, trace := Recurse(SyncOp(target, base, topUrl), Search(false, location));
      SyncFold(views, trace, target, base, topUrl, location);
      SyncKeepsViews(views, trace, Views(), target, base, topUrl, Search(false, location));
      SearchFinds(views, trace, page, tocUrl, search, location);
    }

    // What the traversal that looks for the page has found.
    lemma SearchFinds(views: map<TreeNode, View>, trace: seq<TreeNode>, page: string, tocUrl: string, search: Search,
                      before: string)
      requires views == Views() && Visits(paths, trace)
      requires var marks := MarksOf(views, WithoutQuery(page), DirectoryOf(tocUrl), topUrl);
               search == Search(AnyMark(marks, trace), LastMark(marks, trace, before))
      ensures search.success <==> exists m :: m in paths && Shows(m, page, tocUrl)
      ensures search.success ==> exists m :: LastShowing(page, tocUrl, m) && search.location == Bookmark(topUrl, m.id)
    {
      var marks := MarksOf(views, WithoutQuery(page), DirectoryOf(tocUrl), topUrl);
      forall m | m in paths
        ensures m in trace && (marks[m].Some? <==> Shows(m, page, tocUrl))
        ensures marks[m].Some? ==> marks[m].value == Bookmark(topUrl, m.id)
      {
        assert m in Members(trace) && views[m] == ViewOf(m);
        LinksIsLinkTo(m.link, page, tocUrl);
      }
      if search.success {
        var m := LastMarkIsLast(paths, marks, trace, before);
        assert LastShowing(page, tocUrl, m);
      }
    }

    ghost predicate Shows(m: TreeNode, page: string, tocUrl: string)
      reads m`link
    {
      IsLinkTo(m.link, page, tocUrl)
    }

    // The last node in traversal order that links the page.
    ghost predicate LastShowing(page: string, tocUrl: string, m: TreeNode)
      reads this`paths, paths.Keys`link
    {
      && m in paths && Shows(m, page, tocUrl)
      && forall n :: n in paths && Shows(n, page, tocUrl) && n != m ==> Precedes(paths[n], paths[m])
    }

    // Of the nodes below the root with kids, those on the path to the node are expanded.
    ghost predicate ShowsPathTo(node: TreeNode)
      requires node in paths
      reads this, paths.Keys`state, paths.Keys`kids
    {
      forall m :: m in paths && m != root ==>
        m.state == if m.kids == [] then Neutral else if paths[m] <= paths[node] then Expanded else Collapsed
    }

    // Show the node that the query names, or the page.
    method Load(search: string, unescape: string -> string) returns (r: LoadResult)
      requires Valid()
      modifies paths.Keys`state
      ensures Valid() && root.state == old(root.state)
      ensures match ParseQuery(search)
              case Nothing => r == NoQuery && forall m :: m in paths ==> m.state == old(m.state)
              case Page(url) => r == LoadsPage(unescape(url)) && forall m :: m in paths ==> m.state == old(m.state)
              case Parts(parts) =>
                || (r.Reaches? && ReachesEnd(parts, r.node, r.page))
                || (r == Fails && exists m :: m in paths && FailsAt(parts, paths[m], |m.kids|) && ShowsPathTo(m))
    {
      if search == "" {
        return NoQuery;
      }
      var query := search[1..];
      var eq := IndexOfChar(query, '=');
      if eq.Some? {
        if "page" <= query {
          return LoadsPage(unescape(query[eq.value + 1..]));
        }
        query := query[eq.value + 1..];
      }
      Reset();
      r := Walk(Split(query));
    }

    // The parts lead to the node and no further, the path to it is shown, and its page is loaded.
    ghost predicate ReachesEnd(parts: seq<string>, node: TreeNode, page: Option<string>)
      reads this, paths.Keys, node
    {
      && node in paths && EndsAt(parts, paths[node], |node.kids|) && ShowsPathTo(node)
      && page == PageOf(node.link)
    }

    // The walk from the root, toggling every node it comes to.
    method Walk(indices: seq<string>) returns (r: LoadResult)
      requires Valid()
      requires forall m :: m in paths && m != root ==> m.state == if m.kids == [] then Neutral else Collapsed
      modifies paths.Keys`state
      ensures Valid() && root.state == old(root.state)
      ensures || (r.Reaches? && ReachesEnd(indices, r.node, r.page))
              || (r == Fails && exists m :: m in paths && FailsAt(indices, paths[m], |m.kids|) && ShowsPathTo(m))
    {
      var node := root;
      OnlyRootAbove(root, paths);
      for z := 0 to |indices|
        invariant Valid() && root.state == old(root.state)
        invariant node in paths && |paths[node]| == z && SpelledBy(indices, paths[node]) && ShowsPathTo(node)
      {
        if node.kids == [] {
          return Reaches(node, PageOf(node.link));
        }
        var index := ParseInt(indices[z]);
        if index.None? {
          return Fails;
        }
        var i := index.value - 1;
        if i < 0 || |node.kids| <= i {
          return Reaches(node, PageOf(node.link));
        }
        ghost var at := paths[node];
        node := Enter(node, i);
        SpelledNext(indices, at, i);
      }
      return Reaches(node, PageOf(node.link));
    }

    // One step of the walk.
    method Enter(node: TreeNode, i: nat) returns (kid: TreeNode)
      requires Valid() && node in paths && i < |node.kids| && ShowsPathTo(node)
      modifies paths.Keys`state
      ensures Valid() && root.state == old(root.state)
      ensures kid in paths && paths[kid] == paths[node] + [i] && ShowsPathTo(kid)
    {
      kid := node.kids[i];
      assert HasKid(paths, node, i);
      TreeIsInjective(root, paths);
      kid.Toggle(None);
      forall m | m in paths && m != root
        ensures m.state == if m.kids == [] then Neutral else if paths[m] <= paths[kid] then Expanded else Collapsed
      {
        PrefixOfKid(paths[m], paths[node], i);
      }
    }

    // Loading a node's bookmark shows the path to that node, whatever was shown before. Only the bookmark of
    // a root with kids, which has no numbers, is not understood.
    method LoadBookmark(url: string, unescape: string -> string, ghost n: TreeNode) returns (r: LoadResult)
      requires Valid() && Numbered() && n in paths && url == Bookmark(topUrl, n.id)
      modifies paths.Keys`state
      ensures Valid() && root.state == old(root.state) && ShowsPathTo(n)
      ensures r == if n == root && root.kids != [] then Fails else Reaches(n, PageOf(n.link))
    {
      ghost var parts := BookmarkParts(paths[n]);
      BookmarkIsRead(n, parts);
      BookmarkReaches(root, paths, n, parts);
      r := Load(SearchOf(url), unescape);
    }

    lemma BookmarkIsRead(n: TreeNode, parts: seq<string>)
      requires Valid() && Numbered() && n in paths && parts == BookmarkParts(paths[n])
      ensures ParseQuery(SearchOf(Bookmark(topUrl, n.id))) == Parts(parts)
    {
      if paths[n] == [] {
        SearchOfReplaced(topUrl, "path=" + "");
        PathQuery("");
      } else {
        ParseBookmark(topUrl, paths[n]);
      }
    }

    // Bookmarking the page shown and loading the bookmark comes back to the last node that links it.
    method SyncThenLoad(page: string, tocUrl: string, escape: string -> string, unescape: string -> string)
      returns (r: LoadResult, ghost n: TreeNode)
      requires Valid() && Numbered() && exists m :: m in paths && Shows(m, page, tocUrl)
      modifies this`location, paths.Keys`state
      ensures Valid() && root.state == old(root.state)
      ensures LastShowing(page, tocUrl, n) && ShowsPathTo(n)
      ensures r == if n == root && root.kids != [] then Fails else Reaches(n, Some(n.link))
    {
      Sync(page, tocUrl, true, escape);
      n :| LastShowing(page, tocUrl, n) && location == Bookmark(topUrl, n.id);
      r := LoadBookmark(location, unescape, n);
    }

    // If no node links the page shown, loading the bookmark shows that page, and leaves the tree as it is.
    method SyncThenLoadPage(page: string, tocUrl: string, escape: string -> string, unescape: string -> string)
      returns (r: LoadResult)
      requires Valid() && (forall m :: m in paths ==> !Shows(m, page, tocUrl)) && unescape(escape(page)) == page
      modifies this`location, paths.Keys`state
      ensures Valid() && r == LoadsPage(page) && forall m :: m in paths ==> m.state == old(m.state)
    {
      Sync(page, tocUrl, true, escape);
      PageIsRead(topUrl, escape(page));
      r := Load(SearchOf(location), unescape);
    }
  }

  // The parts of a node's bookmark: the numbers of its path, or nothing in one part for the root.
  function BookmarkParts(p: Path): seq<string> {
    if p == [] then [""] else Numerals(p)
  }

  // A walk along these parts ends at the node, or fails at it if it is a root with kids.
  lemma BookmarkReaches(root: TreeNode, paths: Paths, n: TreeNode, parts: seq<string>)
    requires IsTree(root, paths) && n in paths && parts == BookmarkParts(paths[n])
    ensures forall m :: m in paths && EndsAt(parts, paths[m], |m.kids|) ==> m == n && !(n == root && n.kids != [])
    ensures forall m :: m in paths && FailsAt(parts, paths[m], |m.kids|) ==> m == n == root && n.kids != []
  {
    if paths[n] == [] {
      SamePathSameNode(root, paths, n, root);
      forall m | m in paths && SpelledBy(parts, paths[m])
        ensures m == root
      {
        NoNumber(parts, paths[m]);
        SamePathSameNode(root, paths, m, root);
      }
    } else {
      WalkReaches(root, paths, n, parts);
    }
  }

  // An empty part is no number.
  lemma NoNumber(parts: seq<string>, p: Path)
    requires parts == [""] && SpelledBy(parts, p)
    ensures p == [] && ParseInt(parts[0]).None?
  {
    assert parts[0] == "" && ParseInt("").None?;
  }

  lemma OnlyRootAbove(root: TreeNode, paths: Paths)
    requires IsTree(root, paths)
    ensures forall m :: m in paths && paths[m] <= [] ==> m == root
  {
    forall m | m in paths && paths[m] <= []
      ensures m == root
    {
      SamePathSameNode(root, paths, m, root);
    }
  }

  lemma PrefixOfKid(p: Path, q: Path, i: nat)
    ensures p <= q + [i] <==> p <= q || p == q + [i]
  {
    if p <= q + [i] && |p| <= |q| {
      assert p == (q + [i])[..|p|] == q[..|p|];
    }
  }

  // The walk along the numbers of a node's path ends at that node and nowhere else, and does not fail.
  lemma WalkReaches(root: TreeNode, paths: Paths, n: TreeNode, parts: seq<string>)
    requires IsTree(root, paths) && n in paths && parts == Numerals(paths[n])
    ensures forall m :: m in paths && EndsAt(parts, paths[m], |m.kids|) ==> m == n
    ensures forall m :: m in paths ==> !FailsAt(parts, paths[m], |m.kids|)
  {
    NumeralsSpell(paths[n]);
    forall m | m in paths && EndsAt(parts, paths[m], |m.kids|)
      ensures m == n
    {
      SpelledPrefix(parts, paths[m], paths[n]);
      EndIsLast(parts, paths[m], |m.kids|, paths[n]);
      if paths[m] == paths[n] {
        SamePathSameNode(root, paths, m, n);
      } else {
        BelowKid(root, paths, m, n);
      }
    }
  }

  // ---- What a traversal leaves in the address ----

  // What an operation remembers after some nodes.
  ghost function Folded<A>(op: NodeOp<A>, views: map<TreeNode, View>, trace: seq<TreeNode>, start: A): A {
    if trace == [] then start
    else
      var last, acc := trace[|trace| - 1], Folded(op, views, trace[..|trace| - 1], start);
      if last in views then op(views[last], acc).acc else acc
  }

  // What an operation has made of the nodes visited in turn; the others are as they were.
  ghost predicate Applied<A>(op: NodeOp<A>, trace: seq<TreeNode>, before: map<TreeNode, View>,
                             now: map<TreeNode, View>, start: A)
  {
    && now.Keys == before.Keys
    && (forall m :: m in before && m !in trace ==> now[m] == before[m])
    && (forall i {:trigger trace[i]} :: 0 <= i < |trace| ==> AppliedAt(op, trace, before, now, start, i))
  }

  ghost predicate AppliedAt<A>(op: NodeOp<A>, trace: seq<TreeNode>, before: map<TreeNode, View>,
                               now: map<TreeNode, View>, start: A, i: nat)
    requires i < |trace|
  {
    && trace[i] in before && trace[i] in now
    && var v := before[trace[i]];
    now[trace[i]] == v.(state := op(v, Folded(op, before, trace[..i], start)).state)
  }

  lemma AppliedNext<A>(op: NodeOp<A>, trace: seq<TreeNode>, before: map<TreeNode, View>,
                       now: map<TreeNode, View>, start: A, n: TreeNode)
    requires Applied(op, trace, before, now, start) && n in before && n !in trace
    ensures now[n] == before[n]
    ensures var effect := op(before[n], Folded(op, before, trace, start));
            && Applied(op, trace + [n], before, now[n := now[n].(state := effect.state)], start)
            && Folded(op, before, trace + [n], start) == effect.acc
  {
    var longer := trace + [n];
    assert longer[..|trace|] == trace;
    var effect := op(before[n], Folded(op, before, trace, start));
    var next := now[n := now[n].(state := effect.state)];
    forall i | 0 <= i < |longer|
      ensures AppliedAt(op, longer, before, next, start, i)
    {
      if i < |trace| {
        assert longer[i] == trace[i] && trace[i] in trace && longer[..i] == trace[..i];
        assert AppliedAt(op, trace, before, now, start, i);
      }
    }
  }

  // When all nodes have been visited, each has been given what the operation made of it.
  lemma VisitedOnce<A>(op: NodeOp<A>, trace: seq<TreeNode>, before: map<TreeNode, View>,
                       now: map<TreeNode, View>, start: A, n: TreeNode)
    returns (i: nat)
    requires Applied(op, trace, before, now, start) && n in Members(trace)
    ensures i < |trace| && trace[i] == n && AppliedAt(op, trace, before, now, start, i)
  {
    i :| 0 <= i < |trace| && trace[i] == n;
  }

  lemma ResetState(v: View)
    requires !v.isRoot && (v.hasKids <==> v.state != Neutral)
    ensures ResetNode(v, ()).state == if v.hasKids then Collapsed else Neutral
  {
  }

  // A reset collapses every node that is not the root.
  lemma ResetViews(before: map<TreeNode, View>, trace: seq<TreeNode>, now: map<TreeNode, View>)
    requires Applied(ResetNode, trace, before, now, ()) && before.Keys <= Members(trace)
    ensures now.Keys == before.Keys
    ensures forall m :: m in before ==> now[m] == before[m].(state := ResetNode(before[m], ()).state)
  {
    forall m | m in before
      ensures now[m] == before[m].(state := ResetNode(before[m], ()).state)
    {
      var i := VisitedOnce(ResetNode, trace, before, now, (), m);
    }
  }

  // The address that each node sets, if any.
  ghost function MarksOf(views: map<TreeNode, View>, target: string, base: string, topUrl: string):
    (marks: map<TreeNode, Option<string>>)
  {
    map n | n in views :: if Links(views[n].link, target, base) then Some(Bookmark(topUrl, views[n].id)) else None
  }

  // The search changes no node.
  lemma SyncKeepsViews(before: map<TreeNode, View>, trace: seq<TreeNode>, now: map<TreeNode, View>,
                       target: string, base: string, topUrl: string, start: Search)
    requires Applied(SyncOp(target, base, topUrl), trace, before, now, start)
    ensures now == before
  {
    forall m | m in before
      ensures now[m] == before[m]
    {
      if m in trace {
        var i := VisitedOnce(SyncOp(target, base, topUrl), trace, before, now, start, m);
      }
    }
  }

  // The search ends with the last address set.
  lemma {:induction false} SyncFold(views: map<TreeNode, View>, trace: seq<TreeNode>, target: string, base: string,
                                    topUrl: string, before: string)
    ensures var marks := MarksOf(views, target, base, topUrl);
            Folded(SyncOp(target, base, topUrl), views, trace, Search(false, before)) ==
            Search(AnyMark(marks, trace), LastMark(marks, trace, before))
  {
    if trace != [] {
      var front, last := trace[..|trace| - 1], trace[|trace| - 1];
      SyncFold(views, front, target, base, topUrl, before);
      assert trace == front + [last];
      var marks := MarksOf(views, target, base, topUrl);
      if last in views {
        MarkNext(marks, front, last, before);
      }
    }
  }

  // The address set by the last of some nodes that set one.
  ghost function LastMark(marks: map<TreeNode, Option<string>>, trace: seq<TreeNode>, before: string): string {
    if trace == [] then before
    else
      var last := trace[|trace| - 1];
      if last in marks && marks[last].Some? then marks[last].value else LastMark(marks, trace[..|trace| - 1], before)
  }

  ghost predicate AnyMark(marks: map<TreeNode, Option<string>>, trace: seq<TreeNode>) {
    exists m :: m in trace && m in marks && marks[m].Some?
  }

  lemma MarkNext(marks: map<TreeNode, Option<string>>, trace: seq<TreeNode>, n: TreeNode, before: string)
    requires n in marks
    ensures LastMark(marks, trace + [n], before) == marks[n].GetOr(LastMark(marks, trace, before))
    ensures AnyMark(marks, trace + [n]) <==> AnyMark(marks, trace) || marks[n].Some?
  {
    assert (trace + [n])[..|trace|] == trace;
    if AnyMark(marks, trace) {
      var m :| m in trace && m in marks && marks[m].Some?;
      assert m in trace + [n];
    }
    assert n in trace + [n];
  }

  // The address is that of the last marked node in traversal order.
  lemma {:induction false} LastMarkIsLast(paths: Paths, marks: map<TreeNode, Option<string>>, trace: seq<TreeNode>,
                                          before: string)
    returns (m: TreeNode)
    requires marks.Keys == paths.Keys && (forall n :: n in trace ==> n in paths) && Ordered(paths, trace)
    requires AnyMark(marks, trace)
    ensures m in trace && marks[m].Some? && LastMark(marks, trace, before) == marks[m].value
    ensures forall n :: n in trace && marks[n].Some? && n != m ==> Precedes(paths[n], paths[m])
  {
    var last, front := trace[|trace| - 1], trace[..|trace| - 1];
    assert trace == front + [last];
    if marks[last].Some? {
      m := last;
      forall n | n in trace && n != m
        ensures Precedes(paths[n], paths[m])
      {
        var i :| 0 <= i < |trace| && trace[i] == n;
        assert Precedes(paths[trace[i]], paths[trace[|trace| - 1]]);
      }
    } else {
      var e :| e in trace && e in marks && marks[e].Some?;
      assert e in front;
      forall i, j | 0 <= i < j < |front|
        ensures Precedes(paths[front[i]], paths[front[j]])
      {
        assert Precedes(paths[trace[i]], paths[trace[j]]);
      }
      m := LastMarkIsLast(paths, marks, front, before);
    }
  }

  lemma TraceGrows(paths: Paths, trace: seq<TreeNode>, n: TreeNode)
    requires n in paths && n !in trace
    ensures |paths.Keys - Members(trace + [n])| < |paths.Keys - Members(trace)|
  {
    assert paths.Keys - Members(trace + [n]) == (paths.Keys - Members(trace)) - {n};
  }

  // ---- The traversal order ----

  ghost function Members(trace: seq<TreeNode>): set<TreeNode> {
    set n | n in trace
  }

  ghost predicate Ordered(paths: Paths, trace: seq<TreeNode>)
    requires forall n :: n in trace ==> n in paths
  {
    forall i, j {:trigger Precedes(paths[trace[i]], paths[trace[j]])} ::
      0 <= i < j < |trace| ==> Precedes(paths[trace[i]], paths[trace[j]])
  }

  // Every node exactly once, nodes before their descendants, later kids before earlier ones.
  ghost predicate Visits(paths: Paths, trace: seq<TreeNode>) {
    Members(trace) == paths.Keys && Ordered(paths, trace)
  }

  // There is only one such order.
  lemma VisitsUnique(root: TreeNode, paths: Paths, trace: seq<TreeNode>, other: seq<TreeNode>)
    requires IsTree(root, paths) && Visits(paths, trace) && Visits(paths, other)
    ensures trace == other
  {
    SameOrder(paths, trace, other);
  }

  lemma {:induction false} SameOrder(paths: Paths, a: seq<TreeNode>, b: seq<TreeNode>)
    requires AllIn(paths, a) && AllIn(paths, b) && Ordered(paths, a) && Ordered(paths, b) && Members(a) == Members(b)
    ensures a == b
  {
    if a == [] {
      NoMembers(b);
    } else {
      assert a[0] in Members(b);
      assert b != [] && b[0] in Members(a);
      var i :| 0 <= i < |b| && b[i] == a[0];
      var j :| 0 <= j < |a| && a[j] == b[0];
      if i > 0 && j > 0 {
        assert Precedes(paths[b[0]], paths[b[i]]) && Precedes(paths[a[0]], paths[a[j]]);
        PrecedesAsymmetric(paths[a[0]], paths[b[0]]);
      }
      FirstOnce(paths, a);
      FirstOnce(paths, b);
      OrderedTail(paths, a);
      OrderedTail(paths, b);
      SameOrder(paths, a[1..], b[1..]);
      assert a == [a[0]] + a[1..] && b == [b[0]] + b[1..];
    }
  }

  lemma NoMembers(a: seq<TreeNode>)
    ensures Members(a) == {} ==> a == []
  {
    if a != [] {
      assert a[0] in Members(a);
    }
  }

  lemma FirstOnce(paths: Paths, a: seq<TreeNode>)
    requires AllIn(paths, a) && Ordered(paths, a) && a != []
    ensures Members(a[1..]) == Members(a) - {a[0]}
  {
    forall i | 0 < i < |a|
      ensures a[i] != a[0]
    {
      assert Precedes(paths[a[0]], paths[a[i]]);
      RightOfIrreflexive(paths[a[0]]);
    }
    forall n | n in Members(a) - {a[0]}
      ensures n in Members(a[1..])
    {
      var i :| 0 <= i < |a| && a[i] == n;
      assert a[1..][i - 1] == n;
    }
  }

  lemma OrderedTail(paths: Paths, a: seq<TreeNode>)
    requires AllIn(paths, a) && Ordered(paths, a) && a != []
    ensures AllIn(paths, a[1..]) && Ordered(paths, a[1..])
  {
    forall i, j | 0 <= i < j < |a[1..]|
      ensures Precedes(paths[a[1..][i]], paths[a[1..][j]])
    {
      assert Precedes(paths[a[i + 1]], paths[a[j + 1]]);
    }
  }

  // Every node is visited or is below a node on the stack; the stack is ordered from
  // left to right, and visited nodes come before those on the stack.
  ghost predicate StackInv(paths: Paths, trace: seq<TreeNode>, stack: seq<TreeNode>) {
    && AllIn(paths, trace) && AllIn(paths, stack) && Ordered(paths, trace)
    && LeftToRight(paths, stack) && Before(paths, trace, stack) && Covers(paths, trace, stack)
  }

  ghost predicate AllIn(paths: Paths, nodes: seq<TreeNode>) {
    forall n :: n in nodes ==> n in paths
  }

  ghost predicate LeftToRight(paths: Paths, stack: seq<TreeNode>)
    requires AllIn(paths, stack)
  {
    forall i, j {:trigger RightOf(paths[stack[j]], paths[stack[i]])} ::
      0 <= i < j < |stack| ==> RightOf(paths[stack[j]], paths[stack[i]])
  }

  ghost predicate Before(paths: Paths, trace: seq<TreeNode>, stack: seq<TreeNode>)
    requires AllIn(paths, trace) && AllIn(paths, stack)
  {
    forall i, j {:trigger Precedes(paths[trace[i]], paths[stack[j]])} ::
      0 <= i < |trace| && 0 <= j < |stack| ==> Precedes(paths[trace[i]], paths[stack[j]])
  }

  ghost predicate Covers(paths: Paths, trace: seq<TreeNode>, stack: seq<TreeNode>)
    requires AllIn(paths, stack)
  {
    forall m {:trigger OnStack(paths, stack, m)} :: m in paths ==> m in trace || OnStack(paths, stack, m)
  }

  // A stack entry that the node is at or below.
  ghost predicate OnStack(paths: Paths, stack: seq<TreeNode>, m: TreeNode)
    requires m in paths && forall n :: n in stack ==> n in paths
  {
    exists j :: 0 <= j < |stack| && paths[stack[j]] <= paths[m]
  }

  // The kids of a node, as far as paths are concerned.
  ghost predicate KidsOf(paths: Paths, n: TreeNode, kids: seq<TreeNode>)
    requires n in paths
  {
    && (forall z :: 0 <= z < |kids| ==> kids[z] in paths && paths[kids[z]] == paths[n] + [z])
    && (forall m :: m in paths && paths[n] < paths[m] ==> paths[m][|paths[n]|] < |kids|)
  }

  lemma TreeKids(root: TreeNode, paths: Paths, n: TreeNode)
    requires IsTree(root, paths) && n in paths
    ensures KidsOf(paths, n, n.kids)
  {
    forall z | 0 <= z < |n.kids|
      ensures n.kids[z] in paths && paths[n.kids[z]] == paths[n] + [z]
    {
      assert HasKid(paths, n, z);
    }
    AllBelowKids(root, paths, n);
  }

  lemma StackInitially(root: TreeNode, paths: Paths)
    requires IsTree(root, paths)
    ensures StackInv(paths, [], [root])
  {
    forall m | m in paths
      ensures OnStack(paths, [root], m)
    {
      assert [root][0] == root && paths[root] <= paths[m];
    }
  }

  lemma StackEmpty(paths: Paths, trace: seq<TreeNode>)
    requires StackInv(paths, trace, [])
    ensures Visits(paths, trace)
  {
    forall m | m in paths
      ensures m in trace
    {
      assert !OnStack(paths, [], m);
    }
  }

  // The node on top has not been visited: it would precede itself.
  lemma TopIsNew(paths: Paths, trace: seq<TreeNode>, stack: seq<TreeNode>)
    requires StackInv(paths, trace, stack) && stack != []
    ensures stack[|stack| - 1] in paths && stack[|stack| - 1] !in trace
  {
    var n := stack[|stack| - 1];
    RightOfIrreflexive(paths[n]);
    assert forall i :: 0 <= i < |trace| ==> Precedes(paths[trace[i]], paths[stack[|stack| - 1]]);
  }

  lemma TraceStaysOrdered(paths: Paths, trace: seq<TreeNode>, rest: seq<TreeNode>, n: TreeNode)
    requires StackInv(paths, trace, rest + [n])
    ensures forall m :: m in trace + [n] ==> m in paths
    ensures Ordered(paths, trace + [n])
  {
    assert (rest + [n])[|rest|] == n;
    assert forall i :: 0 <= i < |trace| ==> Precedes(paths[trace[i]], paths[(rest + [n])[|rest|]]);
  }

  lemma StackStaysOrdered(paths: Paths, trace: seq<TreeNode>, rest: seq<TreeNode>, n: TreeNode, kids: seq<TreeNode>)
    requires StackInv(paths, trace, rest + [n]) && n in paths && KidsOf(paths, n, kids)
    ensures forall i, j {:trigger RightOf(paths[(rest + kids)[j]], paths[(rest + kids)[i]])} ::
              0 <= i < j < |rest + kids| ==> RightOf(paths[(rest + kids)[j]], paths[(rest + kids)[i]])
  {
    var was, stack := rest + [n], rest + kids;
    forall i, j | 0 <= i < j < |stack|
      ensures RightOf(paths[stack[j]], paths[stack[i]])
    {
      if j < |rest| {
        assert was[i] == stack[i] && was[j] == stack[j] && RightOf(paths[was[j]], paths[was[i]]);
      } else if i < |rest| {
        assert was[i] == stack[i] && was[|rest|] == n && RightOf(paths[was[|rest|]], paths[was[i]]);
        RightOfExtends(paths[n], paths[stack[i]], paths[stack[j]], paths[stack[i]]);
      } else {
        LaterKidIsRight(paths[n], i - |rest|, j - |rest|);
      }
    }
  }

  lemma TracePrecedesStack(paths: Paths, trace: seq<TreeNode>, rest: seq<TreeNode>, n: TreeNode, kids: seq<TreeNode>)
    requires StackInv(paths, trace, rest + [n]) && n in paths && KidsOf(paths, n, kids)
    ensures forall i, j :: 0 <= i < |trace + [n]| && 0 <= j < |rest + kids| ==>
              (trace + [n])[i] in paths && Precedes(paths[(trace + [n])[i]], paths[(rest + kids)[j]])
  {
    var was, visited, stack := rest + [n], trace + [n], rest + kids;
    assert was[|rest|] == n;
    forall i, j | 0 <= i < |visited| && 0 <= j < |stack|
      ensures visited[i] in paths && Precedes(paths[visited[i]], paths[stack[j]])
    {
      if j < |rest| {
        assert was[j] == stack[j];
        assert i < |trace| ==> Precedes(paths[trace[i]], paths[was[j]]);
        assert RightOf(paths[was[|rest|]], paths[was[j]]);
      } else if i < |trace| {
        assert Precedes(paths[trace[i]], paths[was[|rest|]]);
        PrecedesExtends(paths[trace[i]], paths[was[|rest|]], paths[stack[j]]);
      } else {
        assert paths[n] < paths[stack[j]];
      }
    }
  }

  lemma StackStillCovers(paths: Paths, trace: seq<TreeNode>, rest: seq<TreeNode>, n: TreeNode, kids: seq<TreeNode>,
                         m: TreeNode)
    requires StackInv(paths, trace, rest + [n]) && n in paths && KidsOf(paths, n, kids) && Injective(paths)
    requires m in paths
    ensures m in trace + [n] || OnStack(paths, rest + kids, m)
  {
    var was, stack := rest + [n], rest + kids;
    if m !in trace && m != n {
      assert OnStack(paths, was, m);
      var j :| 0 <= j < |was| && paths[was[j]] <= paths[m];
      if j < |rest| {
        assert stack[j] == was[j];
      } else {
        assert paths[n] < paths[m];
        var z := paths[m][|paths[n]|];
        PathBelowKid(paths[n], z, paths[m]);
        assert stack[|rest| + z] == kids[z];
      }
    }
  }

  lemma StackPops(root: TreeNode, paths: Paths, trace: seq<TreeNode>, stack: seq<TreeNode>)
    requires IsTree(root, paths) && StackInv(paths, trace, stack) && stack != []
    ensures var n := stack[|stack| - 1];
            && n in paths && n !in trace
            && StackInv(paths, trace + [n], stack[..|stack| - 1] + n.kids)
  {
    var n := stack[|stack| - 1];
    TopIsNew(paths, trace, stack);
    TreeIsInjective(root, paths);
    TreeKids(root, paths, n);
    StackReplaced(paths, trace, stack, n.kids);
  }

  lemma StackReplaced(paths: Paths, trace: seq<TreeNode>, stack: seq<TreeNode>, kids: seq<TreeNode>)
    requires StackInv(paths, trace, stack) && stack != [] && Injective(paths)
    requires stack[|stack| - 1] in paths && KidsOf(paths, stack[|stack| - 1], kids)
    ensures StackInv(paths, trace + [stack[|stack| - 1]], stack[..|stack| - 1] + kids)
  {
    var n, rest := stack[|stack| - 1], stack[..|stack| - 1];
    assert stack == rest + [n];
    TraceStaysOrdered(paths, trace, rest, n);
    StackStaysOrdered(paths, trace, rest, n, kids);
    TracePrecedesStack(paths, trace, rest, n, kids);
    forall m | m in rest + kids
      ensures m in paths
    {
      assert m in rest ==> m in stack;
    }
    forall m | m in paths
      ensures m in trace + [n] || OnStack(paths, rest + kids, m)
    {
      StackStillCovers(paths, trace, rest, n, kids, m);
    }
  }

  // No node's path is spelled by the parts.
  ghost predicate NothingDenoted(paths: Paths, parts: seq<string>) {
    forall m :: m in paths ==> !Denotes(parts, paths[m])
  }

  lemma OnlyDenoted(root: TreeNode, paths: Paths, n: TreeNode, parts: seq<string>)
    requires IsTree(root, paths) && n in paths && Denotes(parts, paths[n])
    ensures forall m :: m in paths && Denotes(parts, paths[m]) ==> m == n
  {
    forall m | m in paths && Denotes(parts, paths[m])
      ensures m == n
    {
      DenotesUnique(parts, paths[m], paths[n]);
      SamePathSameNode(root, paths, m, n);
    }
  }

  // A part that names no kid of the node reached so far rules out every node.
  lemma NoOtherKid(root: TreeNode, paths: Paths, at: TreeNode, parts: seq<string>, z: nat)
    requires IsTree(root, paths) && at in paths && z < |parts| && Denotes(parts[..z], paths[at])
    ensures NothingDenoted(paths, parts) ||
            (ToNumber(parts[z]).Some? && 1 <= ToNumber(parts[z]).value <= |at.kids|)
  {
    if m :| m in paths && Denotes(parts, paths[m]) {
      DenotesPrefix(parts, paths[m], paths[at], z);
      BelowKid(root, paths, at, m);
    }
  }

  lemma KidDenoted(parts: seq<string>, z: nat, next: nat, p: Path, q: Path)
    requires next == z + 1 <= |parts| && Denotes(parts[..z], p)
    requires |q| == |p| + 1 && p <= q && ToNumber(parts[z]) == Some(q[|p|] + 1)
    ensures Denotes(parts[..next], q)
  {
    assert parts[..next] == parts[..z] + [parts[z]] && q == p + [q[|p|]];
    DenotesNext(parts[..z], p, parts[z], q[|p|]);
  }

  // Numbered nodes have distinct ids, with as many dots as the node is deep.
  lemma IdsAreDistinct(t: TreeControl, m: TreeNode, n: TreeNode)
    requires t.Valid() && t.Numbered() && m in t.paths && n in t.paths
    ensures m.id == n.id ==> m == n
    ensures Dots(n.id) == |t.paths[n]|
  {
    LabelDots(t.paths[n]);
    if m.id == n.id {
      LabelInjective(t.paths[m], t.paths[n]);
      SamePathSameNode(t.root, t.paths, m, n);
    }
  }
}
