/** The files that a document depends on (libs/iterator/doc/scanrst.py). */
module IncludeDeps {

  datatype Kind = Include | Image

  // A directive, with its target as a normalized path.
  datatype Directive = Directive(kind: Kind, target: string)

  // The directives of every file that can be opened, in order.
  type Files = map<string, seq<Directive>>

  // ---- What depends on what ----

  ghost predicate Names(files: Files, path: string, kind: Kind, target: string) {
    path in files && Directive(kind, target) in files[path]
  }

  // Each path after the first is included by the one before.
  ghost predicate IncludeChain(files: Files, chain: seq<string>) {
    && chain != []
    && (|chain| > 1 ==>
          && IncludeChain(files, chain[..|chain| - 1])
          && Names(files, chain[|chain| - 2], Include, chain[|chain| - 1]))
  }

  // The file is reached from the root by following include directives.
  ghost predicate Reached(files: Files, root: string, path: string) {
    exists chain :: IncludeChain(files, chain) && chain[0] == root && chain[|chain| - 1] == path
  }

  // A directive of a reached file names the target.
  ghost predicate NamedFrom(files: Files, root: string, kind: Kind, target: string) {
    exists user :: Reached(files, root, user) && Names(files, user, kind, target)
  }

  ghost predicate Depends(files: Files, root: string, target: string) {
    NamedFrom(files, root, Include, target) || NamedFrom(files, root, Image, target)
  }

  // Reached files name the target both as an image and as an include.
  ghost predicate Mixed(files: Files, root: string, target: string) {
    NamedFrom(files, root, Include, target) && NamedFrom(files, root, Image, target)
  }

  // An include chain on which no target is also an image.
  ghost predicate SureChain(files: Files, root: string, chain: seq<string>) {
    IncludeChain(files, chain) && chain[0] == root && forall i :: 0 < i < |chain| ==> !Mixed(files, root, chain[i])
  }

  ghost predicate Sure(files: Files, root: string, path: string) {
    exists chain :: SureChain(files, root, chain) && chain[|chain| - 1] == path
  }

  // A file at the end of such a chain names the target.
  ghost predicate SurelyNamed(files: Files, root: string, target: string) {
    exists user, kind :: Sure(files, root, user) && Names(files, user, kind, target)
  }

  // A target that is both an image and an include may not be scanned: its file must exist,
  // and what it names must be named elsewhere.
  ghost predicate MixedIsCovered(files: Files, root: string) {
    forall path :: Mixed(files, root, path) ==> Covered(files, root, path)
  }

  ghost predicate Covered(files: Files, root: string, path: string) {
    path in files && forall d :: d in files[path] ==> SurelyNamed(files, root, d.target)
  }

  lemma ReachedFrom(files: Files, root: string, path: string, next: string)
    requires Reached(files, root, path) && Names(files, path, Include, next)
    ensures Reached(files, root, next)
  {
    var chain :| IncludeChain(files, chain) && chain[0] == root && chain[|chain| - 1] == path;
    var longer := chain + [next];
    assert longer[..|longer| - 1] == chain;
    assert IncludeChain(files, longer);
  }

  lemma DirectiveNames(files: Files, root: string, path: string, m: Directive)
    requires Reached(files, root, path) && path in files && m in files[path]
    ensures Names(files, path, m.kind, m.target) && NamedFrom(files, root, m.kind, m.target)
  {
    assert m == Directive(m.kind, m.target);
    assert Names(files, path, m.kind, m.target);
  }

  // ---- The search as a function ----

  // The search fails when a file cannot be opened.
  datatype Outcome = Missing | Ok(found: set<string>)

  function Targets(directives: seq<Directive>): set<string> {
    set d | d in directives :: d.target
  }

  function AllTargets(files: Files): set<string> {
    set path, d | path in files && d in files[path] :: d.target
  }

  lemma NewTarget(files: Files, target: string, found: set<string>)
    requires target in AllTargets(files) && target !in found
    ensures |AllTargets(files) - (found + {target})| < |AllTargets(files) - found|
  {
    assert AllTargets(files) - (found + {target}) == (AllTargets(files) - found) - {target};
  }

  lemma FewerLeft(files: Files, found: set<string>, more: set<string>)
    requires found <= more
    ensures |AllTargets(files) - more| <= |AllTargets(files) - found|
  {
    var a, b := AllTargets(files) - more, AllTargets(files) - found;
    assert b == a + (b - a);
  }

  // Scan one file, starting with some targets found.
  function Scan(files: Files, path: string, found: set<string>): (r: Outcome)
    ensures r.Ok? ==> found <= r.found
    decreases |AllTargets(files) - found|, 0, 1
  {
    if path !in files then Missing
    else
      assert Targets(files[path]) <= AllTargets(files);
      ScanAll(files, files[path], found)
  }

  // Scan some directives: mark new targets, and scan those that are included.
  function ScanAll(files: Files, directives: seq<Directive>, found: set<string>): (r: Outcome)
    requires Targets(directives) <= AllTargets(files)
    ensures r.Ok? ==> found <= r.found
    decreases |AllTargets(files) - found|, 0, 0, |directives|
  {
    if directives == [] then Ok(found)
    else
      var m, rest := directives[0], directives[1..];
      assert m in directives && forall d :: d in rest ==> d in directives;
      if m.target in found then ScanAll(files, rest, found)
      else
        NewTarget(files, m.target, found);
        var marked := found + {m.target};
        if m.kind == Image then ScanAll(files, rest, marked)
        else
          match Scan(files, m.target, marked)
          case Missing => Missing
          case Ok(more) =>
            FewerLeft(files, marked, more);
            ScanAll(files, rest, more)
  }

  // ---- The search in place ----

  // The dictionary that the recursive calls share.
  class Found {
    var targets: set<string>

    constructor ()
      ensures targets == {}
    {
      targets := {};
    }
  }

  // Mark the targets of one file and scan the included ones.
  method Deps(files: Files, path: string, found: Found) returns (ok: bool)
    modifies found
    ensures ok <==> Scan(files, path, old(found.targets)).Ok?
    ensures ok ==> Scan(files, path, old(found.targets)) == Ok(found.targets)
    decreases |AllTargets(files) - found.targets|
  {
    if path !in files {
      return false;
    }
    var directives := files[path];
    assert Targets(directives) <= AllTargets(files);
    for i := 0 to |directives|
      invariant old(found.targets) <= found.targets
      invariant forall d :: d in directives[i..] ==> d in directives
      invariant ScanAll(files, directives[i..], found.targets) == Scan(files, path, old(found.targets))
    {
      var m := directives[i];
      assert directives[i..][0] == m && directives[i..][1..] == directives[i + 1..];
      if m.target !in found.targets {
        NewTarget(files, m.target, found.targets);
        FewerLeft(files, old(found.targets), found.targets);
        found.targets := found.targets + {m.target};
        if m.kind == Include {
          ok := Deps(files, m.target, found);
          if !ok {
            return;
          }
        }
      }
    }
    return true;
  }

  // ---- What is found is a dependency ----

  ghost predicate AllDepend(files: Files, root: string, found: set<string>) {
    forall target :: target in found ==> Depends(files, root, target)
  }

  lemma MarkedDepends(files: Files, root: string, path: string, m: Directive, found: set<string>)
    requires Reached(files, root, path) && path in files && m in files[path] && AllDepend(files, root, found)
    ensures AllDepend(files, root, found + {m.target})
    ensures m.kind == Include ==> Reached(files, root, m.target)
  {
    DirectiveNames(files, root, path, m);
    assert Depends(files, root, m.target) by {
      assert m.kind == Include || m.kind == Image;
    }
    if m.kind == Include {
      ReachedFrom(files, root, path, m.target);
    }
  }

  lemma {:induction false} ScanFindsDependencies(files: Files, root: string, path: string, found: set<string>)
    requires Reached(files, root, path) && AllDepend(files, root, found)
    ensures match Scan(files, path, found)
            case Ok(more) => AllDepend(files, root, more)
            case Missing => exists file :: Reached(files, root, file) && file !in files
    decreases |AllTargets(files) - found|, 0, 1
  {
    if path in files {
      assert Targets(files[path]) <= AllTargets(files);
      ScanAllFindsDependencies(files, root, path, files[path], found);
    }
  }

  lemma {:induction false} ScanAllFindsDependencies(files: Files, root: string, path: string,
                                                    directives: seq<Directive>, found: set<string>)
    requires Targets(directives) <= AllTargets(files)
    requires Reached(files, root, path) && path in files && forall d :: d in directives ==> d in files[path]
    requires AllDepend(files, root, found)
    ensures match ScanAll(files, directives, found)
            case Ok(more) => AllDepend(files, root, more)
            case Missing => exists file :: Reached(files, root, file) && file !in files
    decreases |AllTargets(files) - found|, 0, 0, |directives|
  {
    if directives != [] {
      var m, rest := directives[0], directives[1..];
      assert m in directives && forall d :: d in rest ==> d in directives;
      if m.target in found {
        ScanAllFindsDependencies(files, root, path, rest, found);
      } else {
        NewTarget(files, m.target, found);
        var marked := found + {m.target};
        MarkedDepends(files, root, path, m, found);
        if m.kind == Image {
          ScanAllFindsDependencies(files, root, path, rest, marked);
        } else {
          ScanFindsDependencies(files, root, m.target, marked);
          match Scan(files, m.target, marked)
          case Missing =>
          case Ok(more) =>
            FewerLeft(files, marked, more);
            ScanAllFindsDependencies(files, root, path, rest, more);
        }
      }
    }
  }

  // ---- Every dependency is found ----

  // The file has been read, and everything it names has been found.
  ghost predicate Scanned(files: Files, path: string, found: set<string>) {
    path in files && Targets(files[path]) <= found
  }

  // Found files that some reached file includes, and none names as an image, have been scanned,
  // except those being scanned now.
  ghost predicate ScannedExcept(files: Files, root: string, found: set<string>, scanning: set<string>) {
    forall path {:trigger Scanned(files, path, found)} ::
      path in found && path !in scanning && NamedFrom(files, root, Include, path) && !Mixed(files, root, path) ==>
        Scanned(files, path, found)
  }

  lemma FoundGrows(files: Files, root: string, found: set<string>, target: string, scanning: set<string>)
    requires ScannedExcept(files, root, found, scanning)
    requires target in scanning || !NamedFrom(files, root, Include, target) || Mixed(files, root, target)
    ensures ScannedExcept(files, root, found + {target}, scanning)
  {
    forall path | path in found + {target} && path !in scanning && NamedFrom(files, root, Include, path) &&
                  !Mixed(files, root, path)
      ensures Scanned(files, path, found + {target})
    {
      assert Scanned(files, path, found);
    }
  }

  // A target that is new may be marked: an image is not an include or mixed, an include is scanned next.
  lemma MarkedScanned(files: Files, root: string, path: string, m: Directive, found: set<string>, scanning: set<string>)
    requires ScannedExcept(files, root, found, scanning)
    requires Reached(files, root, path) && path in files && m in files[path]
    ensures m.kind == Image ==> ScannedExcept(files, root, found + {m.target}, scanning)
    ensures m.kind == Include ==> ScannedExcept(files, root, found + {m.target}, scanning + {m.target})
    ensures m.kind == Include ==> Reached(files, root, m.target)
  {
    DirectiveNames(files, root, path, m);
    if m.kind == Image {
      FoundGrows(files, root, found, m.target, scanning);
    } else {
      ReachedFrom(files, root, path, m.target);
      MoreScanning(files, root, found, scanning, m.target);
      FoundGrows(files, root, found, m.target, scanning + {m.target});
    }
  }

  lemma MoreScanning(files: Files, root: string, found: set<string>, scanning: set<string>, path: string)
    requires ScannedExcept(files, root, found, scanning)
    ensures ScannedExcept(files, root, found, scanning + {path})
  {
  }

  lemma ScanFinished(files: Files, root: string, found: set<string>, scanning: set<string>, path: string)
    requires ScannedExcept(files, root, found, scanning + {path}) && Scanned(files, path, found)
    ensures ScannedExcept(files, root, found, scanning)
  {
  }

  lemma {:induction false} ScanIsComplete(files: Files, root: string, path: string, found: set<string>,
                                          scanning: set<string>)
    requires Reached(files, root, path) && ScannedExcept(files, root, found, scanning)
    ensures match Scan(files, path, found)
            case Ok(more) => ScannedExcept(files, root, more, scanning) && Scanned(files, path, more)
            case Missing => true
    decreases |AllTargets(files) - found|, 0, 1
  {
    if path in files {
      assert Targets(files[path]) <= AllTargets(files);
      ScanAllIsComplete(files, root, path, files[path], found, scanning);
    }
  }

  lemma {:induction false} ScanAllIsComplete(files: Files, root: string, path: string, directives: seq<Directive>,
                                             found: set<string>, scanning: set<string>)
    requires Targets(directives) <= AllTargets(files)
    requires ScannedExcept(files, root, found, scanning)
    requires Reached(files, root, path) && path in files && forall d :: d in directives ==> d in files[path]
    ensures match ScanAll(files, directives, found)
            case Ok(more) => ScannedExcept(files, root, more, scanning) && Targets(directives) <= more
            case Missing => true
    decreases |AllTargets(files) - found|, 0, 0, |directives|
  {
    if directives != [] {
      var m, rest := directives[0], directives[1..];
      assert m in directives && forall d :: d in rest ==> d in directives;
      assert Targets(directives) == Targets(rest) + {m.target} by {
        assert directives == [m] + rest;
      }
      if m.target in found {
        ScanAllIsComplete(files, root, path, rest, found, scanning);
      } else {
        NewTarget(files, m.target, found);
        var marked := found + {m.target};
        MarkedScanned(files, root, path, m, found, scanning);
        if m.kind == Image {
          ScanAllIsComplete(files, root, path, rest, marked, scanning);
        } else {
          ScanIsComplete(files, root, m.target, marked, scanning + {m.target});
          match Scan(files, m.target, marked)
          case Missing =>
          case Ok(more) =>
            FewerLeft(files, marked, more);
            ScanFinished(files, root, more, scanning, m.target);
            ScanAllIsComplete(files, root, path, rest, more, scanning);
        }
      }
    }
  }

  // Every file that is surely included is scanned.
  lemma {:induction false} ChainScanned(files: Files, root: string, found: set<string>, chain: seq<string>)
    requires ScannedExcept(files, root, found, {}) && Scanned(files, root, found)
    requires SureChain(files, root, chain)
    ensures Scanned(files, chain[|chain| - 1], found)
  {
    if |chain| > 1 {
      var front := chain[..|chain| - 1];
      ChainScanned(files, root, found, front);
      var user, path := chain[|chain| - 2], chain[|chain| - 1];
      assert front[0] == root && front[|front| - 1] == user;
      assert Reached(files, root, user) && NamedFrom(files, root, Include, path);
      assert path in Targets(files[user]);
    }
  }

  lemma SureNext(files: Files, root: string, path: string, next: string)
    requires Sure(files, root, path) && Names(files, path, Include, next) && !Mixed(files, root, next)
    ensures Sure(files, root, next)
  {
    var chain :| SureChain(files, root, chain) && chain[|chain| - 1] == path;
    var longer := chain + [next];
    assert longer[..|longer| - 1] == chain;
    assert SureChain(files, root, longer);
  }

  lemma SureIsReached(files: Files, root: string, path: string)
    requires Sure(files, root, path)
    ensures Reached(files, root, path)
  {
  }

  // A reached file is surely included, or is both an image and an include.
  lemma {:induction false} SureOrMixed(files: Files, root: string, chain: seq<string>)
    requires MixedIsCovered(files, root) && IncludeChain(files, chain) && chain[0] == root
    ensures Sure(files, root, chain[|chain| - 1]) || Mixed(files, root, chain[|chain| - 1])
  {
    if |chain| == 1 {
      assert SureChain(files, root, chain);
    } else {
      var front := chain[..|chain| - 1];
      SureOrMixed(files, root, front);
      var user, path := chain[|chain| - 2], chain[|chain| - 1];
      assert front[|front| - 1] == user && front[0] == root;
      SureOrMixedNext(files, root, user, path);
    }
  }

  lemma SureOrMixedNext(files: Files, root: string, user: string, path: string)
    requires MixedIsCovered(files, root) && Reached(files, root, user) && Names(files, user, Include, path)
    requires Sure(files, root, user) || Mixed(files, root, user)
    ensures Sure(files, root, path) || Mixed(files, root, path)
  {
    assert NamedFrom(files, root, Include, path);
    if !Mixed(files, root, path) {
      if Mixed(files, root, user) {
        assert Covered(files, root, user) && Directive(Include, path) in files[user];
        SurelyIncluded(files, root, path);
      } else {
        SureNext(files, root, user, path);
      }
    }
  }

  lemma SurelyIncluded(files: Files, root: string, path: string)
    requires SurelyNamed(files, root, path) && NamedFrom(files, root, Include, path) && !Mixed(files, root, path)
    ensures Sure(files, root, path)
  {
    var user, kind :| Sure(files, root, user) && Names(files, user, kind, path);
    SureIsReached(files, root, user);
    assert kind == Include || NamedFrom(files, root, Image, path);
    SureNext(files, root, user, path);
  }

  // ---- What deps(root, {}) returns ----

  lemma RootReached(files: Files, root: string)
    ensures Reached(files, root, root)
  {
    assert IncludeChain(files, [root]) && [root][0] == root;
  }

  // Only dependencies are returned, whatever the directives are.
  lemma OnlyDependencies(files: Files, root: string)
    ensures match Scan(files, root, {})
            case Ok(found) => forall target :: target in found ==> Depends(files, root, target)
            case Missing => exists file :: Reached(files, root, file) && file !in files
  {
    RootReached(files, root);
    ScanFindsDependencies(files, root, root, {});
  }

  // What a reached file names is named by a file that is surely included.
  lemma NamedIsSurelyNamed(files: Files, root: string, path: string, kind: Kind, target: string)
    requires MixedIsCovered(files, root) && Reached(files, root, path) && Names(files, path, kind, target)
    ensures SurelyNamed(files, root, target)
  {
    var chain :| IncludeChain(files, chain) && chain[0] == root && chain[|chain| - 1] == path;
    SureOrMixed(files, root, chain);
    if !Sure(files, root, path) {
      assert Covered(files, root, path) && Directive(kind, target) in files[path];
    }
  }

  // Whatever surely included files name is found, whether some target is mixed or not.
  lemma SurelyNamedIsFound(files: Files, root: string, target: string)
    requires Scan(files, root, {}).Ok? && SurelyNamed(files, root, target)
    ensures target in Scan(files, root, {}).found
  {
    var found := Scan(files, root, {}).found;
    RootReached(files, root);
    ScanIsComplete(files, root, root, {}, {});
    var user, kind :| Sure(files, root, user) && Names(files, user, kind, target);
    var chain :| SureChain(files, root, chain) && chain[|chain| - 1] == user;
    ChainScanned(files, root, found, chain);
    assert target in Targets(files[user]);
  }

  // If what mixed targets name is covered, the call succeeds exactly if every file that is
  // reached can be opened, and then returns exactly the dependencies, cycles or not.
  lemma ExactlyDependencies(files: Files, root: string)
    requires MixedIsCovered(files, root)
    ensures match Scan(files, root, {})
            case Ok(found) => forall target :: target in found <==> Depends(files, root, target)
            case Missing => true
    ensures Scan(files, root, {}).Ok? <==> forall file :: Reached(files, root, file) ==> file in files
  {
    OnlyDependencies(files, root);
    match Scan(files, root, {})
    case Missing =>
    case Ok(found) =>
      forall file | Reached(files, root, file)
        ensures file in files
      {
        ReachedExists(files, root, file);
      }
      forall target | Depends(files, root, target)
        ensures target in found
      {
        var kind := if NamedFrom(files, root, Include, target) then Include else Image;
        var path :| Reached(files, root, path) && Names(files, path, kind, target);
        NamedIsSurelyNamed(files, root, path, kind, target);
        SurelyNamedIsFound(files, root, target);
      }
  }

  lemma ReachedExists(files: Files, root: string, file: string)
    requires MixedIsCovered(files, root) && Scan(files, root, {}).Ok? && Reached(files, root, file)
    ensures file in files
  {
    RootReached(files, root);
    ScanIsComplete(files, root, root, {}, {});
    var chain :| IncludeChain(files, chain) && chain[0] == root && chain[|chain| - 1] == file;
    SureOrMixed(files, root, chain);
    if Sure(files, root, file) {
      var sure :| SureChain(files, root, sure) && sure[|sure| - 1] == file;
      ChainScanned(files, root, Scan(files, root, {}).found, sure);
    } else {
      assert Covered(files, root, file);
    }
  }

  // A target first met as an image is not scanned when it is met again as an include.
  const MIXED: Files := map[
    "root" := [Directive(Image, "a"), Directive(Include, "a")],
    "a" := [Directive(Image, "b")]]

  lemma MixedTargetIsIncomplete()
    ensures Scan(MIXED, "root", {}) == Ok({"a"})
    ensures Depends(MIXED, "root", "b")
  {
    var first, second := Directive(Image, "a"), Directive(Include, "a");
    assert MIXED["root"] == [first, second];
    assert MIXED["root"][0] == first && MIXED["root"][1] == second;
    assert Targets([second]) <= Targets(MIXED["root"]) <= AllTargets(MIXED);
    assert [first, second][1..] == [second] && [second][1..] == [];
    assert ScanAll(MIXED, [second], {"a"}) == Ok({"a"});
    assert {} + {"a"} == {"a"};
    RootReached(MIXED, "root");
    assert Names(MIXED, "root", Include, "a");
    ReachedFrom(MIXED, "root", "root", "a");
    assert Names(MIXED, "a", Image, "b") && NamedFrom(MIXED, "root", Image, "b");
  }
}
