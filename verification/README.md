# Verified models of the Boost documentation's programs

The Boost documentation ships small programs of its own: a layout-versus-schematic tutorial for
Boost.Polygon, the table-of-contents control of the iostreams manual, an include-dependency scanner, the
player that documents the Meta State Machine library, and a few example loops. This project models the
ones that hold an algorithm, in the form in which they are written (classes and loops where the program
changes state, functions where it computes), and proves what they guarantee, for all inputs and all runs.

`dafny verify dfyconfig.toml` checks everything.

## What is here

**Comparing schematics** (`Schematic`, `Permutations`, `Matcher`, `MatchLaws`, `Circuits`, `CircuitLaws`).
The tutorial decides by backtracking whether the devices of a reference netlist can be assigned to those of
a netlist extracted from layout. `Matcher.CompareSchematics` is that search, over a shared device map, a
shared set of assigned devices, and net indices that a subscript may extend with an empty set. It returns
true exactly when the reference *embeds* in the layout: an injective, type-preserving map under which pins
carry the same net, the devices on a gate net go into the gate net of the image, and those on a source or
drain net go into one of its two outer nets. `MatchLaws` studies this relation. It is a preorder, and it
does not change when devices are permuted, transistors are turned around, or the index is rebuilt.

The program's comment asks for the connectivity to be the same
(libs/polygon/doc/tutorial/compare_schematics.hpp:43), but the code checks containment, and line 60 does not
look at layout devices that are left over. `Circuits.SameCircuit` says what the same connectivity is: a
one-to-one correspondence of devices and a one-to-one renaming of nets that keeps pins, with source and drain
exchanged where needed. One comparison decides this for no reference at all, because further devices are not
noticed (`OneWayNeverDecides`). Against layouts with as many devices it decides if and only if every net of the
reference has a pin and no transistor has source and drain on one net (`OneWayDecidesIffPinned`): a net without
a pin can be shorted to any other unnoticed (`ShortsAndExtrasPass`), and the tutorial's reference has one
(`NandNeedsBothWays`). Comparing both ways round is not enough in general either: two transistors with tied gates
match a cross-coupled pair (`TiedGatesMatchCrossCoupled`), and a source on its drain matches a source on a net of
its own (`SourceOnDrainMatches`). `MatchDecidesIffDetermined` gives the exact condition on the reference, for all
layouts: the comparison both ways round decides whether the circuits are the same if and only if
(1) no two nets have the same devices, (2) source and drain of a transistor are on different nets, and an outer
net all of whose devices are also on the other one is not the gate net and is, at some other transistor, the gate
net or an outer net of which that is not so, and (3) every net is on exactly one terminal of some device. The
tutorial's reference has the property (`NandIsDetermined`). Between two schematics that may both join sources to
drains, `MatchDecidesBetween` gives a condition on both.

**Extracting nets** (`Graphs`, `NetState`, `NetOwners`, `NetMerger`, `LayerInvariant`, `LayerKept`, `LayerTurns`,
`LayerConnection`, `LayerLaws`, `NameClashes`, `TouchingShapes`, `ConnectivityRun`, `TouchingRuns`). A recursive
traversal names connected polygons, renames the current net through a reference that may be an entry of the very
list it reads, and merges and erases nets as it goes. Colours are passed by value, so each branch of the recursion only sees the colours of its own path, and
the caller's vector is never coloured. The model has the same aliasing: the net parameter is a reference
(`NetRef`) to an entry of `netIds` or to a local variable. A walk is proved to be a sequence of visits to
exactly the nodes that can be reached, in some order (`VisitAll`), and a call to be a run of such walks
(`IsTurns`); what they mean is proved about these functions. If no net has an internal name that is still to be
generated, the result is characterized completely (`ExactNets`): every net afterwards has exactly the shapes of
one connected component, a component with an earlier net has one net, with a pin's name if any of its nets had
one. From this follow that shapes share a net exactly when they are connected, that no shape is lost or invented,
and, over the five layers, that pin names win and that regions kept apart by every layer's graph stay on separate
nets.

The program does not check whether such a name is already in use. What holds whatever the nets are called is
proved as well (`Joins`): shapes share a net only if they are linked by edges and name clashes, shapes that share
a net go on sharing one, and every polygon ends on a net. A clash need not do harm. `OnlyConnectedIffHarmless`
gives the exact condition under which only connected shapes share nets: every clashing net that has shapes, and is
connected to no other net, is connected to the polygon that is given its name. Clashing nets that are connected to a
net with a name that is not internal never do harm, because their names are gone when the polygons' turns come.
`ConnectClash` is the smallest run in which the condition fails.

What this means for geometry is stated without graphs (`TouchingShapes`). If the engine joins exactly the nodes of
which some shapes touch, shapes end on one net if they are at the ends of a chain of touching pieces, nets by their
shapes on one layer and polygons by themselves (`ChainedShare`, for any names), and if no name clashes only then
(`OnlyChainedShare`). A net whose name does not begin with the prefix gives such a name to all that is chained to it
(`PinNameWins`). `PopulateOnePin` is the whole program on a small layout.

The tutorial says that polygons that are not connected to a net go on auto-generated nets, and the loop means to
make one for each connected piece (libs/polygon/doc/tutorial/connectivity_database.hpp:101). Because the outer
colours never change, it makes one for each *polygon*: `OneNetEachUnlessFloatingPair` gives the exact condition,
and `ConnectTwoTouching` is the smallest run in which it fails.

**Table of contents** (`Decimal`, `Strings`, `JsNumbers`, `TreeIds`, `TreeNodes`, `TreeControl`). A mutable tree whose nodes
point to their kids and to their parent, with dotted ids written by the printer and read back by the lookup, a
traversal with an explicit stack for any operation that keeps the shape of the tree, and bookmarks. The model is
the dynamic display. A ghost map gives every node its path; it is what ids, levels, lookups, traversal order and
expanded states are stated in. Parts of ids are read as numbers in the two ways in which the program does it, by
conversion and by `parseInt` (sections 7.1.4.1 and 19.2.5 of ECMA-262).

**Include dependencies** (`IncludeDeps`). A depth-first search over a possibly cyclic include graph, with one
dictionary for visiting and for the result. It returns only dependencies. `MixedTargetIsIncomplete` shows that it
can miss some: a target that is first met as an image is in the dictionary and is not scanned when it is met again
as an include. It returns all of them if what such targets name is also named by files that are certainly scanned,
in particular if no target is both (`ExactlyDependencies`).

**Player** (`Player`). The state machine of the MSM manual: two regions, a submachine with history, a
deferred event, an exit point and an interrupt state. The tables are those of the program. The back end is
a library; the model processes an event to completion by these rules, taken from the manual
(libs/msm/doc/HTML/ch03s02.html): an interrupt state blocks every event except the one that ends it; a
deferring state queues the event; otherwise both regions get it, the submachine before the outer table;
reaching the exit point forwards its event to the outer machine at once; after a transition, deferred
events are taken up again as long as the state does not defer them; an event without a transition is
dropped; history is restored only by the event in its list.

**Smaller programs.** `Duff` (an unrolled loop entered in the middle), `Minkowski` (the quadrilaterals of
the sum of two point sequences, over integer corners and real shares), `StatCollector` (a log sink
with unsigned accumulators of any width) and `Snippets` (a line-by-line extractor of marked snippets).

## What is assumed

- Devices have the shape the parser and the device extractor give them: a pin has one terminal, a
  transistor three. Nothing is assumed about the net index that a comparison is given, unless a law names
  `Indexed`.
- The geometry engine is an arbitrary function from the shapes of the nodes to a symmetric graph. Laws about
  touching take one that joins two nodes exactly if some of their shapes touch (`JoinsTouching`).
  Polygons are tokens, and polygon sets are sets of tokens. Boolean operations on layers happen before the model.
- The counter of internal names does not overflow.
- Neighbours are walked, and nets are listed, in any order. The program's order is one of them.
- A page address is replaced when it is assigned; the last assignment wins.
- A file that cannot be opened ends the dependency scan with an error. Targets are normalized paths.

## Model

| member | source | states |
|---|---|---|
| Schematics.SchematicDatabase.constructor | libs/polygon/doc/tutorial/schematic_database.hpp:18-21 | a database starts with its devices and an empty index |
| Schematics.SchematicDatabase.At | libs/polygon/doc/tutorial/compare_schematics.hpp:19-20 | subscripting yields a net's device set, and at most enters an absent name with an empty set |
| Schematics.SchematicDatabase.ExtractNetlist | libs/polygon/doc/tutorial/schematic_database.hpp:24-32 | afterwards each net has, besides what it had, exactly the devices with a terminal on it; from an empty index the result is the index of the device list |
| Schematics.SchematicDatabase.EnterDevice | libs/polygon/doc/tutorial/schematic_database.hpp:27-30 | a device's index joins exactly the sets of its terminals' nets |
| Schematics.Netlist | libs/polygon/doc/tutorial/schematic_database.hpp:23-25 | for every name, indexed or not, the device set consists of the devices with a terminal of that name |
| Matcher.CompareConnectivity | libs/polygon/doc/tutorial/compare_schematics.hpp:14-27 | true exactly if every assigned device of the reference net is mapped to a device of the layout net; the ordered walk may stop at the first unassigned one |
| Matcher.CheckDevice | libs/polygon/doc/tutorial/compare_schematics.hpp:36-58 | true exactly if pins agree, the gate net is contained, and each outer net is contained in one of the two outer nets of the image |
| Matcher.CheckPrefix | libs/polygon/doc/tutorial/compare_schematics.hpp:34-59 | true exactly if every assigned device agrees with its image as far as devices are assigned |
| Matcher.FullCheckIsEmbedding | libs/polygon/doc/tutorial/compare_schematics.hpp:60-61 | at full length the check accepts a map exactly if it is an embedding |
| Matcher.EmbeddingPassesEveryPrefix | libs/polygon/doc/tutorial/compare_schematics.hpp:34-59 | pruning is safe: a map that begins like an embedding passes the check at that length |
| Matcher.NoCandidate | libs/polygon/doc/tutorial/compare_schematics.hpp:63-80 | if no layout device for the next position can be extended to an embedding, the prefix cannot either |
| Matcher.CannotContinue | libs/polygon/doc/tutorial/compare_schematics.hpp:65-69 | skipping devices of another type and devices already assigned loses no embedding |
| Matcher.SearchState.constructor | libs/polygon/doc/tutorial/compare_schematics.hpp:88-90 | the search starts with a map of zeros and no device assigned |
| Matcher.CompareRecursive | libs/polygon/doc/tutorial/compare_schematics.hpp:29-81 | success leaves an embedding in the map and its image in the assigned set; failure leaves the assigned set and the prefix as they were and means that no embedding continues the prefix |
| Matcher.TryDevice | libs/polygon/doc/tutorial/compare_schematics.hpp:70-76 | assigning a device leads to an embedding, or the device is given back and no embedding continues the prefix with it |
| Matcher.CompareSchematics | libs/polygon/doc/tutorial/compare_schematics.hpp:86-94 | returns true if and only if the reference embeds in the layout, for any net indices; on success the map is the witness; the indices keep their meaning |
| MatchLaws.Reflexive | libs/polygon/doc/tutorial/compare_schematics.hpp:14-94 | every schematic matches itself |
| MatchLaws.EmbeddingThen | libs/polygon/doc/tutorial/compare_schematics.hpp:14-94 | composing two embeddings gives an embedding |
| MatchLaws.Transitive | libs/polygon/doc/tutorial/compare_schematics.hpp:14-94 | if A matches B and B matches C then A matches C |
| MatchLaws.RearrangementInvariance | libs/polygon/doc/tutorial/compare_schematics.hpp:43-56 | permuting a device list and exchanging source and drain of any of its transistors, with the index rebuilt, never changes an answer, whichever side of the comparison it is on |
| MatchLaws.ShortsAndExtrasPass | libs/polygon/doc/tutorial/compare_schematics.hpp:43-61 | a match survives joining nets of the layout, as long as pins keep their nets, and adding devices to it |
| MatchLaws.MutualMatchIsEquivalence | libs/polygon/doc/tutorial/compare_schematics.hpp:86-94 | two schematics match both ways round if and only if some one-to-one correspondence is an embedding in both directions |
| MatchLaws.InvertEmbedding | libs/polygon/doc/tutorial/compare_schematics.hpp:86-94 | given any match the other way, the inverse of an embedding is an embedding |
| MatchLaws.EquivalenceIsExact | libs/polygon/doc/tutorial/compare_schematics.hpp:43-48 | under such a correspondence the devices on gate nets correspond exactly and pins carry the same net; outer nets may still differ, and so may the circuits |
| MatchLaws.OneWayMatchIsNotEquivalence | libs/polygon/doc/tutorial/compare_schematics.hpp:43-48 | two transistors with separate gates match the same two with their gates tied together, although no such correspondence exists |
| Circuits.SameCircuitInverse | libs/polygon/doc/tutorial/compare_schematics.hpp:43-56 | having the same connectivity, up to the order of devices, the names of nets without pins, and source and drain, is symmetric |
| Circuits.SameCircuitMatches | libs/polygon/doc/tutorial/compare_schematics.hpp:86-94 | schematics with the same connectivity match both ways round |
| Circuits.GateIsExact | libs/polygon/doc/tutorial/compare_schematics.hpp:44-48 | in a match both ways round the gate nets of corresponding transistors have exactly corresponding devices |
| Circuits.MaximalIsExact | libs/polygon/doc/tutorial/compare_schematics.hpp:49-55 | so has an outer net that is not hidden behind the other outer net, with one of the two outer nets of the image |
| Circuits.ExactIsSame | libs/polygon/doc/tutorial/compare_schematics.hpp:43-56 | if all terminals correspond exactly and nets differ in their devices, there is a one-to-one renaming of nets that makes the circuits the same |
| CircuitLaws.DeterminedSuffices | libs/polygon/doc/tutorial/compare_schematics.hpp:86-94 | for a reference with the condition, every schematic that matches both ways round has the same connectivity |
| CircuitLaws.DeterminedIsNecessary | libs/polygon/doc/tutorial/compare_schematics.hpp:86-94 | for every other reference there is a schematic that matches both ways round and has not |
| CircuitLaws.MatchDecidesIffDetermined | libs/polygon/doc/tutorial/compare_schematics.hpp:43-56 | the comparison both ways round decides sameness of connectivity against all schematics if and only if the reference has the condition, which only looks at its own device list |
| CircuitLaws.MatchDecidesBetween | libs/polygon/doc/tutorial/compare_schematics.hpp:43-56 | between two schematics in which nets differ in their devices and no outer net is hidden behind a different one, a match both ways round is the same as the same connectivity |
| CircuitLaws.OneWayNeverDecides | libs/polygon/doc/tutorial/compare_schematics.hpp:60-61 | for every reference there is a schematic with one more device that one comparison accepts |
| CircuitLaws.OneWayDecidesIffPinned | libs/polygon/doc/tutorial/compare_schematics.hpp:39-56 | between lists of the same length one comparison decides sameness of connectivity against all schematics if and only if every net of the reference has a pin and no source is joined to its drain |
| CircuitLaws.PinnedSuffices | libs/polygon/doc/tutorial/compare_schematics.hpp:39-56 | if every net has a pin and sources and drains are apart, a match with a list of the same length is the same circuit, under the same names |
| CircuitLaws.JoinUnpinned | libs/polygon/doc/tutorial/compare_schematics.hpp:39-56 | a net without a pin can be shorted to any other net: the match is accepted and the circuit is another |
| CircuitLaws.NandNeedsBothWays | libs/polygon/doc/tutorial/nand.schematic:1-9 | for the reference of the tutorial one comparison does not decide even among layouts with as many devices |
| CircuitLaws.TiedGatesMatchCrossCoupled | libs/polygon/doc/tutorial/compare_schematics.hpp:44-55 | two transistors with one gate net match a cross-coupled pair both ways round, and are not the same circuit |
| CircuitLaws.SourceOnDrainMatches | libs/polygon/doc/tutorial/compare_schematics.hpp:50-55 | a transistor with its source on its drain matches one with a source of its own both ways round, and they are not the same circuit |
| CircuitLaws.NandIsDetermined | libs/polygon/doc/tutorial/nand.schematic:1-9 | for the reference netlist of the tutorial the comparison both ways round decides |
| Graphs.PathIsVisited | libs/polygon/doc/tutorial/connectivity_database.hpp:45-74 | with colours copied for each branch, everything at the end of an uncoloured path is visited |
| Graphs.VisitedHasPath | libs/polygon/doc/tutorial/connectivity_database.hpp:45-74 | whatever is visited is at the end of a path |
| Graphs.ColoringShrinks | libs/polygon/doc/tutorial/connectivity_database.hpp:45-47 | the recursion ends: a branch has fewer uncoloured nodes |
| Graphs.ComponentIsReachable | libs/polygon/doc/tutorial/connectivity_database.hpp:94-97 | a walk with nothing coloured visits exactly the nodes that can be reached |
| Graphs.SameComponent | libs/polygon/doc/tutorial/connectivity_database.hpp:92-97 | in a symmetric graph two walks visit the same nodes exactly if one start can be reached from the other |
| NetState.MoveNetContents | libs/polygon/doc/tutorial/connectivity_database.hpp:59-66 | after a merge the erased name is gone and the other net has what both had |
| NetState.MoveConserves | libs/polygon/doc/tutorial/connectivity_database.hpp:59-66 | every net other than the two keeps exactly its shapes, and nothing leaves the database |
| NetState.RenameInternal | libs/polygon/doc/tutorial/connectivity_database.hpp:53-55 | when the current net is internal it takes the name it meets, through the reference, and loses no shape |
| NetState.RenameExternal | libs/polygon/doc/tutorial/connectivity_database.hpp:56-57 | otherwise the net it meets takes the current name, also in the id list, and no other id changes |
| NetState.VisitNodeCovers | libs/polygon/doc/tutorial/connectivity_database.hpp:48-69 | one visit puts the node's polygon, or what was on its net, on the current net, and leaves no other net of that name |
| NetState.ProgressThen | libs/polygon/doc/tutorial/connectivity_database.hpp:70-74 | conservation, following the net, renaming of ids and use of names hold over any number of visits |
| NetState.CoversThen | libs/polygon/doc/tutorial/connectivity_database.hpp:70-74 | what an earlier visit put on the current net is on the net that is current later, whatever its name has become |
| NetOwners.MoveNetSound | libs/polygon/doc/tutorial/connectivity_database.hpp:59-66 | merging nets of one component puts no shape of another component on a net, and leaves nets of other components alone |
| NetOwners.VisitNodeTagged | libs/polygon/doc/tutorial/connectivity_database.hpp:48-69 | a visit keeps every net id and the current net within their components, stale ids included |
| NetState.TraceCovers | libs/polygon/doc/tutorial/connectivity_database.hpp:48-74 | visits to any nodes, in any order, conserve and put what they visit on the net that is current at the end, from any database |
| NetOwners.TraceWalked | libs/polygon/doc/tutorial/connectivity_database.hpp:48-74 | visits within a class, in any order and any number, keep every net within its class and leave other classes alone |
| NetMerger.Extraction.SetNet | libs/polygon/doc/tutorial/connectivity_database.hpp:54-54 | assigning to the net parameter changes the entry or the variable it refers to, and nothing else |
| NetMerger.MergeNets | libs/polygon/doc/tutorial/connectivity_database.hpp:59-66 | the layer-by-layer insertion followed by the erasure is the move of one net to another |
| NetMerger.VisitInPlace | libs/polygon/doc/tutorial/connectivity_database.hpp:48-69 | the branch with its swap and aliasing is one visit |
| NetMerger.PopulateConnectedComponent | libs/polygon/doc/tutorial/connectivity_database.hpp:39-75 | terminates; the effect is that of a sequence of visits, to all nodes that can be reached through uncoloured nodes and to no others |
| NetMerger.PopulateNeighbours | libs/polygon/doc/tutorial/connectivity_database.hpp:70-74 | the same for the loop over the neighbours of a node, in any order |
| LayerKept.LooseStep | libs/polygon/doc/tutorial/connectivity_database.hpp:45-74 | whatever the nets are called, a walk leaves what was on one net on one net, keeps every polygon placed so far on some net, and mixes no classes |
| LayerInvariant.FreshNameInjective | libs/polygon/doc/tutorial/connectivity_database.hpp:104-107 | internal names with different numbers differ |
| LayerInvariant.InvInitially | libs/polygon/doc/tutorial/connectivity_database.hpp:81-94 | the invariant of the two loops holds when the graph has been extracted |
| LayerInvariant.StepGathers | libs/polygon/doc/tutorial/connectivity_database.hpp:96-100 | a walk over a component with a net leaves everything of the component on a single net |
| LayerInvariant.InvFromNet | libs/polygon/doc/tutorial/connectivity_database.hpp:96-100 | a walk from a net keeps the invariant, though earlier walks may have renamed its id |
| LayerInvariant.InvFromPolygon | libs/polygon/doc/tutorial/connectivity_database.hpp:102-113 | a walk from a polygon under a fresh name keeps the invariant, whether it reaches a net and merges the fresh one into it or not |
| LayerConnection.CollectNets | libs/polygon/doc/tutorial/connectivity_database.hpp:81-85 | lists every net once, and enters the layer with no shapes where it was absent |
| LayerTurns.TurnWalked | libs/polygon/doc/tutorial/connectivity_database.hpp:94-99 | a walk with the colours of the caller, which never change, covers the whole component of its node and guarantees what visits within a class do |
| LayerConnection.ConnectNode | libs/polygon/doc/tutorial/connectivity_database.hpp:97-111 | a turn of either loop is a walk over the component of the node, with the net parameter referring to the id of the net or to the local variable |
| LayerConnection.ConnectNets | libs/polygon/doc/tutorial/connectivity_database.hpp:95-100 | the first loop is a run of walks, one from every net under its current id |
| LayerConnection.ConnectPolygons | libs/polygon/doc/tutorial/connectivity_database.hpp:101-113 | the second loop continues it with a walk from every polygon, connected or not, and uses up one number for each |
| LayerConnection.InvGivesExactNets | libs/polygon/doc/tutorial/connectivity_database.hpp:95-113 | at the end every net is exactly one component: its shapes, its name, its uniqueness |
| LayerConnection.RunIsLoose | libs/polygon/doc/tutorial/connectivity_database.hpp:94-113 | at every point of a run nothing is lost and no classes are mixed, whatever the nets are called |
| LayerConnection.RunIsExact | libs/polygon/doc/tutorial/connectivity_database.hpp:94-113 | without clashes the invariant of the loops holds at every point of a run |
| LayerConnection.ConnectAll | libs/polygon/doc/tutorial/connectivity_database.hpp:94-113 | the two loops are a run of walks from every node in turn |
| LayerConnection.NoClashNames | libs/polygon/doc/tutorial/connectivity_database.hpp:104-107 | if no net has a name still to be generated, the classes are the components of the graph |
| LayerConnection.ConnectLayoutToLayer | libs/polygon/doc/tutorial/connectivity_database.hpp:77-114 | for every database: without a layer name nothing happens; otherwise the call is a run of walks, shapes share a net only if linked by edges and name clashes, shapes on one net stay on one, every polygon is placed, and the counter advances by their number; if no name clashes, the nets are exactly determined by the components of the extracted graph |
| LayerLaws.ReachablePolygonsOnNet | libs/polygon/doc/tutorial/connectivity_database.hpp:39-75 | from a node with all colours zero, for any database and any names, every polygon that can be reached is on the net that is current at the end |
| LayerLaws.OnlyConnectedShapesShareNets | libs/polygon/doc/tutorial/connectivity_database.hpp:77-114 | two shapes are on one net afterwards only if nodes that have them are connected, or are the same |
| LayerLaws.ConnectedShapesShareNet | libs/polygon/doc/tutorial/connectivity_database.hpp:77-114 | shapes of connected nodes, in particular shapes that were on one net, share a net afterwards |
| LayerLaws.GeometryConserved | libs/polygon/doc/tutorial/connectivity_database.hpp:77-114 | the shapes on nets afterwards are exactly those on nets before and the polygons of the layer |
| LayerLaws.NetCount | libs/polygon/doc/tutorial/connectivity_database.hpp:95-113 | a component ends with one net if it has one to begin with, and otherwise with one for each of its polygons |
| LayerLaws.OneNetEachUnlessFloatingPair | libs/polygon/doc/tutorial/connectivity_database.hpp:101-113 | every component ends with a single net if and only if no two polygons are connected to each other but to no net |
| LayerLaws.FloatingPairHasTwoNets | libs/polygon/doc/tutorial/connectivity_database.hpp:101-113 | two such polygons are on at least two nets |
| LayerLaws.TwoTouchingPolygonsMakeTwoNets | libs/polygon/doc/tutorial/connectivity_database.hpp:101-113 | two touching polygons and no nets: every exact result has two nets where one is meant |
| LayerLaws.ConnectTwoTouching | libs/polygon/doc/tutorial/connectivity_database.hpp:101-113 | the call on an empty database with two touching polygons ends with at least two nets, each with both polygons |
| LayerLaws.OnlyLinkedShapesShareNets | libs/polygon/doc/tutorial/connectivity_database.hpp:77-114 | whatever the nets are called, shapes share a net only if nodes that have them are linked by edges and name clashes |
| NameClashes.ClashJoins | libs/polygon/doc/tutorial/connectivity_database.hpp:102-111 | if a net that is connected to no other net has the name of a polygon, all shapes connected to the net end on one net with the polygon |
| NameClashes.HarmlessIsSound | libs/polygon/doc/tutorial/connectivity_database.hpp:48-113 | if no clash is harmful, only connected shapes share nets, whatever renames and stale ids occur |
| NameClashes.HarmfulIsUnsound | libs/polygon/doc/tutorial/connectivity_database.hpp:102-111 | a harmful clash puts shapes on one net that are not connected |
| NameClashes.OnlyConnectedIffHarmless | libs/polygon/doc/tutorial/connectivity_database.hpp:77-114 | only connected shapes share nets if and only if every clashing net that has shapes, and is connected to no other net, is connected to the polygon that is given its name |
| NameClashes.ConnectClash | libs/polygon/doc/tutorial/connectivity_database.hpp:77-114 | the call on a database with one net of an internal name, and one polygon that does not touch it, puts both on one net |
| TouchingShapes.GatheredAfterNets | libs/polygon/doc/tutorial/connectivity_database.hpp:95-100 | for any names, when every net has had its walk, one net has everything that is connected to a net |
| TouchingShapes.ConnectedShareAlways | libs/polygon/doc/tutorial/connectivity_database.hpp:94-113 | for any names, shapes of connected nodes are on one net in the end |
| TouchingShapes.EdgesAreTouching | libs/polygon/doc/tutorial/connectivity_database.hpp:82-93 | with an engine that joins exactly what touches, two nodes are joined exactly if a shape of the one touches one of the other, where a net shows its shapes on one layer and a polygon itself |
| TouchingShapes.ChainedShare | libs/polygon/doc/tutorial/connectivity_database.hpp:77-114 | for any names, shapes at the ends of a chain of touching nets and polygons, each touching the next by a shape on the layer or by itself, are on one net afterwards |
| TouchingShapes.OnlyChainedShare | libs/polygon/doc/tutorial/connectivity_database.hpp:77-114 | if no name clashes, shapes are on one net only if such a chain leads from one to the other; shapes that shared a net are a chain of one |
| TouchingShapes.TouchingPolygonJoinsNet | libs/polygon/doc/tutorial/connectivity_database.hpp:77-114 | for any names, a polygon that touches a shape of a net on the layer is on one net with everything that the net had |
| TouchingShapes.PinNameWins | libs/polygon/doc/tutorial/connectivity_database.hpp:49-58 | if no name clashes, what is chained to a net whose name does not begin with the prefix is on one net with it, under a name from before that does not begin with the prefix |
| TouchingShapes.EverythingOnPin | libs/polygon/doc/tutorial/connectivity_database.hpp:77-114 | if everything is chained to the only net whose name does not begin with the prefix, that net has exactly everything and there is no other |
| TouchingShapes.ConnectPinToPolygon | libs/polygon/doc/tutorial/connectivity_database.hpp:77-114 | the call on a database with one pin, and one polygon next to it, puts the polygon on the net of the pin |
| TouchingShapes.ConnectPinAndInternal | libs/polygon/doc/tutorial/connectivity_database.hpp:53-55 | the call on a pin's net, an internal net, and a polygon that touches both, leaves the pin's net with all of it, and no other |
| ConnectivityRun.InsertPins | libs/polygon/doc/tutorial/connectivity_database.hpp:120-122 | the loop enters every pin on top of what the database has |
| ConnectivityRun.PinsAreOnTheirNets | libs/polygon/doc/tutorial/connectivity_database.hpp:120-122 | a shape is on a net and layer exactly if it was, or a pin puts it there |
| ConnectivityRun.PlainPinsAreFree | libs/polygon/doc/tutorial/connectivity_database.hpp:120-126 | no clash can occur if no pin's net begins with "__internal_net_" |
| ConnectivityRun.ConnectStage | libs/polygon/doc/tutorial/connectivity_database.hpp:125-126 | extends a run by one layer connection; a run without clashes is extended by an exact one and stays without |
| ConnectivityRun.StageFreesNames | libs/polygon/doc/tutorial/connectivity_database.hpp:104-107 | after a layer no net has an internal name with the new counter's number or a later one |
| ConnectivityRun.PopulateConnectivityDatabase | libs/polygon/doc/tutorial/connectivity_database.hpp:117-147 | for all pins and databases, the database ends as the last of five layer connections, in the order of the program and against its layers, starting from the pins; they are exact if no pin or net has a numbered internal name |
| ConnectivityRun.LooseRunCarries | libs/polygon/doc/tutorial/connectivity_database.hpp:117-147 | whatever the nets are called, shapes that share a net at some point share one at the end |
| ConnectivityRun.LooseRunPlaces | libs/polygon/doc/tutorial/connectivity_database.hpp:117-147 | every polygon of every layer is on a net at the end |
| ConnectivityRun.StageCarries | libs/polygon/doc/tutorial/connectivity_database.hpp:49-58 | all of a net is on one net after a layer; if the name of the first does not begin with "__internal_net_", neither does that of the second, which was in use before |
| ConnectivityRun.RunCarries | libs/polygon/doc/tutorial/connectivity_database.hpp:117-147 | over all layers, shapes that share a net go on sharing one, and what was under a name that does not begin with "__internal_net_" ends under one that does not and that was in use at the start |
| ConnectivityRun.StageKeepsPure | libs/polygon/doc/tutorial/connectivity_database.hpp:77-114 | if a layer's graph joins no nodes of different sides, no net ends with shapes of both |
| ConnectivityRun.VisibleSidesSuffice | libs/polygon/doc/tutorial/connectivity_database.hpp:82-93 | it is enough to keep apart what the geometry engine sees: polygons, and nets by their shapes on one layer |
| ConnectivityRun.RunKeepsPure | libs/polygon/doc/tutorial/connectivity_database.hpp:117-147 | if the pins and every layer keep two sides apart, the whole extraction never joins them |
| TouchingRuns.ChainedInRun | libs/polygon/doc/tutorial/connectivity_database.hpp:117-147 | for any names, what is chained by touching in one layer connection is on one net when the extraction ends |
| TouchingRuns.TouchingKeepsPure | libs/polygon/doc/tutorial/connectivity_database.hpp:117-147 | if in every layer connection only shapes of one side touch, and every net starts with one side, no net ends with both |
| TouchingRuns.PinStage | libs/polygon/doc/tutorial/connectivity_database.hpp:77-114 | if there is one net, and every polygon touches it on the layer, the connection adds exactly the polygons to it and makes no other net |
| TouchingRuns.PopulateOnePin | libs/polygon/doc/tutorial/connectivity_database.hpp:117-147 | the program on one pin, with a polygon on each of the five layers that touches one of the layer it is connected to, ends with one net that has exactly these on their layers |
| TreeNodes.TreeNode.constructor | libs/iostreams/doc/tree/tree.js:228-240 | a new node has no parent, no kids, no id and the neutral state |
| TreeNodes.TreeNode.Add | libs/iostreams/doc/tree/tree.js:117-134 | a fresh kid at the end; the tree stays a tree, every other path is unchanged, and a neutral parent becomes collapsed |
| TreeNodes.TreeNode.AddNode | libs/iostreams/doc/tree/tree.js:126-133 | an existing node with its own subtree at the end; the result is a tree in which the paths of the subtree continue the path of the new kid |
| TreeNodes.TreeNode.Toggle | libs/iostreams/doc/tree/tree.js:199-218 | nothing without kids or when the requested state holds, otherwise expanded and collapsed change places |
| TreeNodes.ToggledTwice | libs/iostreams/doc/tree/tree.js:199-211 | a node with kids ends in the state asked for, or changes to the other one, so that toggling twice changes nothing; a node without kids is left alone |
| TreeNodes.TreeNode.Level | libs/iostreams/doc/tree/tree.js:135-142 | a node's depth minus one |
| TreeNodes.TreeNode.PrintKids | libs/iostreams/doc/tree/tree.js:179-198 | every node strictly below gets the id of the node followed by its relative label, and no other id changes |
| TreeNodes.TreeNode.PrintKid | libs/iostreams/doc/tree/tree.js:190-194 | a turn of the loop adds the next kid and everything below it to what has been numbered |
| TreeNodes.SamePathSameNode | libs/iostreams/doc/tree/tree.js:129-132 | in a tree no two nodes have the same path |
| JsNumbers.NumbersOfDecimal | libs/iostreams/doc/tree/tree.js:294-294 | conversion and parseInt both read a printed number back |
| JsNumbers.ParseIntReads | libs/iostreams/doc/tree/tree.js:339-339 | parseInt reads a numeral after blanks and a sign, whatever follows that is no digit and does not make it hexadecimal |
| JsNumbers.ParseIntReadsHex | libs/iostreams/doc/tree/tree.js:339-339 | after 0x parseInt reads hexadecimal digits, with a sign in front |
| JsNumbers.ToNumberReads | libs/iostreams/doc/tree/tree.js:294-294 | conversion reads a signed numeral with nothing but blanks around it |
| JsNumbers.ToNumberReadsPrefixed | libs/iostreams/doc/tree/tree.js:294-294 | conversion reads hexadecimal, octal and binary digits after their prefixes, and nothing if any other character is among them |
| JsNumbers.LiteralWithExponent | libs/iostreams/doc/tree/tree.js:294-294 | an exponent multiplies by a power of ten |
| JsNumbers.LiteralWithNegativeExponent | libs/iostreams/doc/tree/tree.js:294-294 | a negative exponent divides by a power of ten exactly if the result is an integer |
| JsNumbers.ZerosArePowers | libs/iostreams/doc/tree/tree.js:294-294 | multiplying by a power of ten is writing that many zeros after the numeral |
| JsNumbers.BlanksAreRead | libs/iostreams/doc/tree/tree.js:294-339 | blanks alone are zero for conversion and no number for parseInt |
| TreeIds.SplitLabel | libs/iostreams/doc/tree/tree.js:291-291 | splitting an id, with any prefix that has no dot, gives the prefix and the numbers of the path |
| TreeIds.LabelInjective | libs/iostreams/doc/tree/tree.js:192-192 | different paths have different ids |
| TreeIds.LabelDots | libs/iostreams/doc/tree/tree.js:192-192 | an id has as many dots as its node is deep |
| TreeIds.LabelWithoutDot | libs/iostreams/doc/tree/tree.js:387-387 | an id without its first character splits into the numbers of the path alone |
| TreeControls.TreeControl.constructor | libs/iostreams/doc/tree/tree.js:402-427 | a valid tree with only an expanded root |
| TreeControls.TreeControl.Add | libs/iostreams/doc/tree/tree.js:117-134 | adding a new kid to any node of the control keeps it valid: below the root exactly the nodes without kids are neutral |
| TreeControls.TreeControl.AddNode | libs/iostreams/doc/tree/tree.js:126-133 | so does adding a node with its own subtree |
| TreeControls.TreeControl.Html | libs/iostreams/doc/tree/tree.js:297-309 | after printing, every node of the tree has the label of its path as id |
| TreeControls.TreeControl.Find | libs/iostreams/doc/tree/tree.js:289-296 | a node is found if and only if the parts of the id after the first are converted to the numbers of its path; otherwise the result is undefined or an error |
| TreeControls.TreeControl.KidAt | libs/iostreams/doc/tree/tree.js:294-294 | the kid of that number, undefined if there is none, and an error at a node without kids |
| TreeControls.TreeControl.FindById | libs/iostreams/doc/tree/tree.js:289-296 | looking up the id that the printer gave a node, with or without the prefix used in the page, returns that node |
| TreeControls.IdsAreDistinct | libs/iostreams/doc/tree/tree.js:190-194 | printed ids are pairwise distinct and have one dot more than the level |
| TreeControls.TreeControl.Apply | libs/iostreams/doc/tree/tree.js:355-355 | any operation that keeps the shape sees the node and what it has remembered, and sets the state of the node |
| TreeControls.TreeControl.VisitTop | libs/iostreams/doc/tree/tree.js:352-359 | a turn of the loop visits a node that has not been visited, and keeps the order of visited and waiting nodes |
| TreeControls.TreeControl.Recurse | libs/iostreams/doc/tree/tree.js:348-360 | for any operation that keeps the shape: terminates; applies it to each node exactly once, every node before its descendants and later kids before earlier ones; each state is what the operation made of the node and of what it remembered from the nodes before, and the result is the fold over them |
| TreeControls.VisitsUnique | libs/iostreams/doc/tree/tree.js:348-360 | there is only one such order |
| TreeControls.StackPops | libs/iostreams/doc/tree/tree.js:353-358 | replacing the top of the stack by its kids keeps: each unvisited node is below the stack, the stack runs from left to right, and the visited precede the waiting |
| TreeControls.TreeControl.Reset | libs/iostreams/doc/tree/tree.js:361-366 | from any state, every node with kids except the root is collapsed and the root is left alone |
| TreeControls.TreeControl.Sync | libs/iostreams/doc/tree/tree.js:367-401 | no state changes; outside of a frame nothing happens; otherwise the address is the bookmark of the last node in traversal order that links the page, or else asks for the page; a link with "://" anywhere links the page that it is, any other one the page that follows the directory of the contents, in each case without the query |
| TreeControls.LinksIsLinkTo | libs/iostreams/doc/tree/tree.js:369-384 | the two branches of the comparison are that meaning of a link |
| TreeControls.RelativeLink | libs/iostreams/doc/tree/tree.js:371-383 | a link without "://" is that of exactly the page of its name in the directory of the contents, with any query or none |
| TreeControls.WithoutQuery | libs/iostreams/doc/tree/tree.js:371-374 | an address up to its first question mark, or all of it |
| TreeControls.BookmarkText | libs/iostreams/doc/tree/tree.js:80-86 | bookmarks in full: the frame's address without its query, and the number of a node or a page asked for |
| TreeControls.SyncFold | libs/iostreams/doc/tree/tree.js:385-388 | what the operation remembers is whether some visited node links the page, and the address set by the last of them |
| TreeControls.LastMarkIsLast | libs/iostreams/doc/tree/tree.js:385-388 | when several nodes link the page, the address left behind is that of the last in traversal order |
| TreeControls.DirectoryOf | libs/iostreams/doc/tree/tree.js:379-381 | the longest part of an address that ends with a slash, or all of it |
| TreeControls.SearchOfReplaced | libs/iostreams/doc/tree/tree.js:80-86 | the query of an address whose query was replaced is the new one, whatever the address had before |
| TreeControls.ParseBookmark | libs/iostreams/doc/tree/tree.js:322-333 | the query of a node's bookmark is read back as the numbers of its path |
| TreeControls.QueryMeans | libs/iostreams/doc/tree/tree.js:322-333 | what follows the first equality sign counts, or everything if there is none; a query that begins with "page" asks for a page, any other one for the parts between its dots |
| TreeControls.PageIsRead | libs/iostreams/doc/tree/tree.js:322-330 | the address that bookmarks a page is read back as that page |
| TreeControls.TreeControl.Walk | libs/iostreams/doc/tree/tree.js:337-346 | from a reset tree, the walk stops at a node where no part is left or the next one names no kid, and loads the page of that node, or fails at a part that is no number; either way exactly the path to it is expanded |
| TreeControls.TreeControl.Enter | libs/iostreams/doc/tree/tree.js:342-343 | toggling the kid that was entered shows the path to it |
| TreeControls.WalkReaches | libs/iostreams/doc/tree/tree.js:337-344 | along the numbers of a node's own path the walk can only end at that node, and cannot fail |
| TreeControls.TreeControl.Load | libs/iostreams/doc/tree/tree.js:319-347 | for every query: nothing, the page it asks for, or a walk with exactly the path to its end expanded and the page of its end loaded |
| TreeControls.TreeControl.LoadBookmark | libs/iostreams/doc/tree/tree.js:319-347 | from any state, loading the bookmark of a node reaches that node and loads its page, and fails only for a root with kids; in either case exactly the nodes with kids on the path to the node are expanded below the root |
| TreeControls.TreeControl.SyncThenLoad | libs/iostreams/doc/tree/tree.js:319-401 | bookmarking the page shown and loading the bookmark comes back to the last node that links the page, and to its link, and fails only if that node is a root with kids |
| TreeControls.TreeControl.SyncThenLoadPage | libs/iostreams/doc/tree/tree.js:319-401 | if no node links the page shown, bookmarking it and loading the bookmark shows that page and leaves the tree alone, provided it can be unescaped |
| IncludeDeps.Deps | libs/iterator/doc/scanrst.py:12-23 | terminates on every include graph, cycles included, and marks what the search computes in the shared dictionary, or fails when it does |
| IncludeDeps.ScanFindsDependencies | libs/iterator/doc/scanrst.py:12-23 | a recursive call adds only dependencies of the root, and fails only at a file that the root reaches |
| IncludeDeps.ScanIsComplete | libs/iterator/doc/scanrst.py:12-23 | after a recursive call every found include that is not also an image is scanned, except those whose scan is still under way |
| IncludeDeps.OnlyDependencies | libs/iterator/doc/scanrst.py:12-23 | whatever the directives are, only dependencies are returned |
| IncludeDeps.SurelyNamedIsFound | libs/iterator/doc/scanrst.py:12-23 | whatever is named by a file reached through includes that are not also images is found, for all directives |
| IncludeDeps.ExactlyDependencies | libs/iterator/doc/scanrst.py:12-23 | if every target that is both an image and an include exists and names only what such files name too, the call succeeds exactly if all reached files can be opened, and returns exactly the targets named by files reached through includes |
| IncludeDeps.MixedTargetIsIncomplete | libs/iterator/doc/scanrst.py:17-21 | two directives in a different role for one target make the search miss a dependency |
| Players.Player.constructor | libs/msm/doc/HTML/examples/BoostCon09Full.cpp:192-193 | the player starts empty and without error |
| Players.Player.ProcessEvent | libs/msm/doc/HTML/examples/BoostCon09Full.cpp:231-253 | processing an event in place, deferred events included, is one step of the machine |
| Players.Player.Fire | libs/msm/doc/HTML/examples/BoostCon09Full.cpp:146-155 | the transitions for one event, with the one forwarded by the exit point, are those of the tables |
| Players.RunSettles | libs/msm/doc/HTML/examples/BoostCon09Full.cpp:62-72 | over every run, play events are queued only while the deck is empty or open, and the exit point is never rested in |
| Players.StepOfSettled | libs/msm/doc/HTML/examples/BoostCon09Full.cpp:231-253 | a step is one transition, followed, if it stops the deck with plays queued, by starting the first song and using up the whole queue |
| Players.QueuedPlayStartsFirstSong | libs/msm/doc/HTML/examples/BoostCon09Full.cpp:238-238 | a good disk with plays queued ends in the first song with an empty queue, without plays in Stopped; a bad disk changes nothing |
| Players.DrawerMoves | libs/msm/doc/HTML/examples/BoostCon09Full.cpp:233-247 | for every settled machine without error, open_close closes the open drawer and opens a closed one from any other state, and keeps song and queue |
| Players.NoDiskNoLoss | libs/msm/doc/HTML/examples/BoostCon09Full.cpp:60-72 | over any run without a good disk, the deck stays empty or open, the song is kept, and the queue grows by exactly the plays that arrive while no error is pending |
| Players.DrawerParity | libs/msm/doc/HTML/examples/BoostCon09Full.cpp:235-237 | over such a run the drawer is where it was exactly after an even number of open_close events that arrive while no error is pending |
| Players.NewPlayerWaits | libs/msm/doc/HTML/examples/BoostCon09Full.cpp:192-193 | a new player waits for its first good disk in this way, with an empty queue at the start |
| Players.NewPlayerPlays | libs/msm/doc/HTML/examples/BoostCon09Full.cpp:56-72 | and the first good disk starts the first song exactly if a play was heard |
| Players.DeckEntered | libs/msm/doc/HTML/examples/BoostCon09Full.cpp:231-248 | which events lead to which state of the deck, for every state: each one is reached or kept in these ways only |
| Players.OthersChange | libs/msm/doc/HTML/examples/BoostCon09Full.cpp:60-72 | an error is pending exactly from error_found to end_error and freezes the rest; the queue grows by plays while empty or open and is used up by a good disk only |
| Players.SongChanges | libs/msm/doc/HTML/examples/BoostCon09Full.cpp:146-155 | the song changes by skipping while playing, and by entering Playing from elsewhere than the pause |
| Players.ErrorLeavesNoTrace | libs/msm/doc/HTML/examples/BoostCon09Full.cpp:183-190 | an error, any events during it, and its end leave the machine as it was |
| Players.PauseKeepsSong | libs/msm/doc/HTML/examples/BoostCon09Full.cpp:164-164 | no run without stop, open_close and end_pause changes the song of a paused player or leaves the pause |
| Players.PauseThenResume | libs/msm/doc/HTML/examples/BoostCon09Full.cpp:164-164 | pause, such a run, and end_pause come back to the song, never the exit point, unless an error is pending |
| Players.EntryStartsFirstSong | libs/msm/doc/HTML/examples/BoostCon09Full.cpp:104-164 | whenever Playing is entered it is by end_pause from the pause, with the song kept, or with the first song |
| Players.SkippingSongs | libs/msm/doc/HTML/examples/BoostCon09Full.cpp:146-155 | over any sequence of NextSong and PreviousSong the player stops exactly if some stretch of them goes past the third song, counted from the song at hand or, after going back to the first one, from there; until then it plays the song that the walk reflected at the first song leads to |
| Players.StopThenPlayForgets | libs/msm/doc/HTML/examples/BoostCon09Full.cpp:231-248 | after stop and play on a loaded player, no run depends on anything that was played, paused or queued before |
| Players.DrawerCycle | libs/msm/doc/HTML/examples/BoostCon09Full.cpp:231-248 | from any loaded state, opening, pressing play any number of times, and closing on a disk starts over or stops, and never resumes |
| Duff.Entry | libs/preprocessor/doc/examples/duffs_device.c:41-42 | every remainder has exactly one case label |
| Duff.EntryCounts | libs/preprocessor/doc/examples/duffs_device.c:31-35 | the copies from the entry on and those of the remaining rounds add up to the count |
| Duff.DuffsDevice | libs/preprocessor/doc/examples/duffs_device.c:27-36 | for any factor, any count that can be rounded up in its type, and any statement, the device executes the statement exactly that often, one time after another, as the plain loop does, and not at all for counts that are not positive |
| Duff.IterateExecutes | libs/preprocessor/doc/examples/duffs_device.c:27-36 | the plain loop leads through exactly that many executions, each from the state that the one before has left |
| Duff.CountingAdds | libs/preprocessor/doc/examples/duffs_device.c:53-60 | counting up n times adds n |
| Duff.Unrolled | libs/preprocessor/doc/examples/duffs_device.c:33-34 | running the copies from one on is that many turns of the plain loop |
| Minkowski.ConvolveTwoSegments | libs/polygon/doc/tutorial/minkowski.cpp:17-28 | the four sums of end points, in an order that goes round a parallelogram |
| Minkowski.ConvolveTwoPointSequences | libs/polygon/doc/tutorial/minkowski.cpp:30-53 | the two loops insert, row by row, the quadrilaterals of all pairs of edges, and nothing if a sequence is empty |
| Minkowski.ConvolveRow | libs/polygon/doc/tutorial/minkowski.cpp:38-50 | the inner loop inserts the quadrilaterals of one edge with each edge of the other sequence |
| Minkowski.QuadOfEdges | libs/polygon/doc/tutorial/minkowski.cpp:38-52 | there are as many quadrilaterals as pairs of edges, and each pair has its own at a place that no other pair has |
| Minkowski.EveryPositionUsed | libs/polygon/doc/tutorial/minkowski.cpp:38-52 | each quadrilateral belongs to a pair of edges |
| Minkowski.SumIsWithin | libs/polygon/doc/tutorial/minkowski.cpp:17-28 | the sum of a point on one segment and a point on the other is a convex combination of the corners |
| Minkowski.WithinIsSum | libs/polygon/doc/tutorial/minkowski.cpp:17-28 | every convex combination of the corners is such a sum |
| Minkowski.ConvolutionCovers | libs/polygon/doc/tutorial/minkowski.cpp:30-53 | a sum of points on two edges is in the quadrilateral of these edges |
| Minkowski.ConvolutionIsSum | libs/polygon/doc/tutorial/minkowski.cpp:30-53 | a point is in some quadrilateral if and only if it is the sum of a point on an edge of one sequence and a point on an edge of the other |
| StatCollectors.StatCollector.constructor | libs/log/example/doc/extension_stat_collector_settings.cpp:84-93 | all accumulators are zero, no row is written, and the interval starts now |
| StatCollectors.StatCollector.Consume | libs/log/example/doc/extension_stat_collector_settings.cpp:99-121 | a record in place is one step of the collector, with the row it may complete |
| StatCollectors.StatCollector.WriteData | libs/log/example/doc/extension_stat_collector_settings.cpp:124-131 | writes the row and resets the accumulators, but neither the connections nor the time |
| StatCollectors.StatCollector.ResetAccumulators | libs/log/example/doc/extension_stat_collector_settings.cpp:134-138 | the two sums and the count are zero and nothing else changes |
| StatCollectors.StatCollector.Flush | libs/log/example/doc/extension_stat_collector_settings.cpp:141-151 | a flush in place is one step of the collector, with a row only if records are counted |
| StatCollectors.Conservation | libs/log/example/doc/extension_stat_collector.cpp:90-144 | over any run, any clock, any interval and any width of the counters, the columns and the accumulators add up to everything reported, and the connections to connects minus disconnects, modulo the number of counter values |
| StatCollectors.RowsAccount | libs/log/example/doc/extension_stat_collector_settings.cpp:99-151 | for each row there is a moment at which the columns up to it were everything reported so far and its first field the connections open then |
| StatCollectors.CountIsPending | libs/log/example/doc/extension_stat_collector_settings.cpp:113-113 | the count is the number of records since the last row, modulo the number of counter values |
| StatCollectors.FlushWritesPending | libs/log/example/doc/extension_stat_collector_settings.cpp:144-148 | a flush writes a row exactly if the number of pending records is not a multiple of the number of counter values |
| StatCollectors.NothingPending | libs/log/example/doc/extension_stat_collector_settings.cpp:143-148 | with no records pending the accumulators are empty, so that a flush without a row loses nothing |
| StatCollectors.LastStoreIsLastWrite | libs/log/example/doc/extension_stat_collector_settings.cpp:115-120 | over any run, the time kept is that of the last call that added a row, or of the start |
| StatCollectors.ConsumeWritesIff | libs/log/example/doc/extension_stat_collector_settings.cpp:115-120 | over any run, a record adds a row if and only if at least the interval has passed since the last call that added one, or since the start |
| StatCollectors.FlushWritesIff | libs/log/example/doc/extension_stat_collector_settings.cpp:144-148 | over any run, a flush adds a row if and only if the number of records since the last row is not a multiple of the number of counter values |
| StatCollectors.RowsAreApart | libs/log/example/doc/extension_stat_collector_settings.cpp:115-120 | a row that a record adds comes at least one interval after the row before it |
| StatCollectors.RowsAreRare | libs/log/example/doc/extension_stat_collector_settings.cpp:115-120 | if nothing is flushed, there is room for one interval for each row between the start and the last row |
| Strings.Find | libs/signals2/doc/snippet_extractor.cpp:53-54 | the first occurrence of a mark, if there is one |
| Snippets.Extract | libs/signals2/doc/snippet_extractor.cpp:31-77 | the loop writes, file by file, exactly the snippets that the scan of the lines yields, and fails exactly at a mark without a name |
| Snippets.CutsWhatIsWoven | libs/signals2/doc/snippet_extractor.cpp:38-76 | weaving snippets between lines without opening marks, with bodies without closing marks, and cutting them out again gives the same snippets, whatever follows the last one |
| Snippets.EveryFileIsWoven | libs/signals2/doc/snippet_extractor.cpp:38-76 | every file whatsoever is woven in this way, so the result is known for all inputs |
| Snippets.NameIsWord | libs/signals2/doc/snippet_extractor.cpp:60-62 | wherever the first mark of the line is, the name is the word after it, with blanks before it and anything after a blank ignored |
| Snippets.NamelessIff | libs/signals2/doc/snippet_extractor.cpp:60-66 | a line is refused exactly if its first mark is at its very end |
| Snippets.BlankName | libs/signals2/doc/snippet_extractor.cpp:60-66 | blanks after the mark are taken for a name, because reading a word from blanks leaves the string as it is |
| Snippets.JoinedFirst | libs/signals2/doc/snippet_extractor.cpp:43-43 | the lines of a snippet are written one after another, each with a line end |
| Snippets.OneSnippet | libs/signals2/doc/snippet_extractor.cpp:38-76 | a file with one snippet, in the program's own text: the marks, the name of the file, the header with the names of snippet and source, the lines, and the footer |
| Snippets.ExtractTwoLines | libs/signals2/doc/snippet_extractor.cpp:31-77 | the loop on the smallest such file writes exactly this text |

## Left out

- ExactlyDependencies: one direction only. If a target that is both an image and an include names something that no certainly scanned file names, whether it is missed depends on the order of the directives of all files; `OnlyDependencies` and `SurelyNamedIsFound` hold in every case.
- Find: numbers are exact, where JavaScript rounds those of more than 53 bits.
- Walk: the same holds for `parseInt`, and so for Load.
- OnlyConnectedIffHarmless: two things are not covered. If a clashing net that is not connected to its polygon is connected to other nets, all with internal names, the name that is left depends on the order of the walks, which the model leaves open (`Clear`). Shapes are taken to be on one node each (`OwnShapes`); `HarmlessIsSound` and `ClashJoins` do without.
- ConnectLayoutToLayer: names of internal nets are formed with an unbounded number and a prefix without white space, and the net order of the map is not modelled.
- Add: the flag that hides kids is for the static display.
- AddNode: the node added is the root of a tree of its own, which the program does not check.
- Sync: `escape` is an arbitrary function, and so is `unescape` in Load.
- ProcessEvent: flags, logging, entry and exit actions and the identifiers of states are left out; the queue holds plays only, because nothing else is deferred.
- Extract: the file system is left out: files are listed in the order in which they are opened, and a second snippet of the same name overwrites the first only outside the model. Lines are those that `getline` yields, the last one possibly empty.
- Consume: the formatting and flushing of the CSV file, and attributes of another type than unsigned, are left out.
- Boost.Polygon's engine (boolean operations, connectivity extraction, the union of the inserted quadrilaterals) is replaced by a parameter or by a list.
- Polygons with holes and whole polygon sets in minkowski.cpp: repeated calls of the modelled loops.
- Parsing of layouts and schematics, `extract_devices.hpp` and `extract.cpp`: input and geometry.
- The rest of tree.js: HTML text, DOM effects, browser tests, timers and frames; also the static display.
- The other MSM examples, which repeat this player, and the library behind them.
- Generated navigation and data files, build scripts, and examples that only configure a library.
