/** That the walk is the preorder traversal: every entry is addressed by the indices that lead
    to it, and the walk lists the addressed entries in the order of their addresses. */
module DirectoryOrder {
  import opened Common
  import opened Paths
  import opened DirectoryWalk

  /** The index of an entry in its directory, behind those of the directories around it. */
  type Route = seq<nat>

  /** Reading goes on past an entry whose path fits. */
  predicate Passes(base: string, e: Entry) {
    |base + e.name| <= PATH_MAX
  }

  /** A directory is read when its path leaves room for the separator. */
  predicate HasRoom(path: string) {
    |path| < PATH_MAX
  }

  /** What is to be reported of an entry itself. */
  function Own(tree: Tree, path: string, e: Entry, chain: set<Inode>): Option<Event> {
    match Classify(tree, chain, e, IsCut(path))
    case Skipped => None
    case Unreadable => Some(Error(Shown(path)))
    case AFile => Some(Found(FileKind, Shown(path)))
    case ALink => Some(Found(LinkKind, Shown(path)))
    case ADirectory(_, _) => Some(Found(DirectoryKind, Shown(path)))
  }

  /** What is to be reported of the entry a route leads to. */
  function Reach(tree: Tree, base: string, entries: seq<Entry>, chain: set<Inode>, route: Route): Option<Event>
    decreases |tree.targets.Keys - chain|, entries
  {
    if route == [] || entries == [] || !Passes(base, entries[0]) then None
    else if route[0] > 0 then Reach(tree, base, entries[1..], chain, [route[0] - 1] + route[1..])
    else ReachIn(tree, base + entries[0].name, entries[0], chain, route[1..])
  }

  function ReachIn(tree: Tree, path: string, e: Entry, chain: set<Inode>, route: Route): Option<Event>
    decreases |tree.targets.Keys - chain|, e
  {
    if route == [] then Own(tree, path, e, chain)
    else if !HasRoom(path) then None
    else
      match Classify(tree, chain, e, false)
      case ADirectory(dir, via) =>
        LinksRunOut(tree, chain, e);
        if tree.recursive && dir.opens then Reach(tree, path + "/", dir.entries, Extended(chain, via), route) else None
      case _ => None
  }

  /** Where in the walk that is. */
  function Position(tree: Tree, base: string, entries: seq<Entry>, chain: set<Inode>, route: Route): nat
    requires Reach(tree, base, entries, chain, route).Some?
    decreases |tree.targets.Keys - chain|, entries
  {
    var path := base + entries[0].name;
    if route[0] > 0 then
      |WalkEntry(tree, path, entries[0], chain)|
      + Position(tree, base, entries[1..], chain, [route[0] - 1] + route[1..])
    else PositionIn(tree, path, entries[0], chain, route[1..])
  }

  function PositionIn(tree: Tree, path: string, e: Entry, chain: set<Inode>, route: Route): nat
    requires ReachIn(tree, path, e, chain, route).Some?
    decreases |tree.targets.Keys - chain|, e
  {
    if route == [] then 0
    else
      var c := Classify(tree, chain, e, false);
      LinksRunOut(tree, chain, e);
      1 + Position(tree, path + "/", c.dir.entries, Extended(chain, c.via), route)
  }

  /** A directory comes before what it contains; otherwise the first difference decides. */
  predicate Precedes(a: Route, b: Route) {
    b != [] && (a == [] || a[0] < b[0] || (a[0] == b[0] && Precedes(a[1..], b[1..])))
  }

  /** Of two routes one precedes the other. */
  lemma {:induction false} RoutesAreOrdered(a: Route, b: Route)
    ensures a != b ==> (Precedes(a, b) <==> !Precedes(b, a))
    ensures !Precedes(a, a)
  {
    if a != [] && b != [] {
      assert a == [a[0]] + a[1..] && b == [b[0]] + b[1..];
      RoutesAreOrdered(a[1..], b[1..]);
    } else if a != [] {
      RoutesAreOrdered(a[1..], []);
    }
  }

  lemma FirstIsOwn(tree: Tree, path: string, e: Entry, chain: set<Inode>)
    ensures var reached, walk := ReachIn(tree, path, e, chain, []), WalkEntry(tree, path, e, chain);
            if walk == [] then reached == None
            else reached == Some(walk[0]) && PositionIn(tree, path, e, chain, []) == 0
  {
  }

  /** Routes that go on into an entry go on into a directory that is read. */
  lemma Inside(tree: Tree, path: string, e: Entry, chain: set<Inode>, route: Route)
    requires route != []
    ensures var c := Classify(tree, chain, e, false);
            if HasRoom(path) && c.ADirectory? && tree.recursive && c.dir.opens then
              var base, chain' := path + "/", Extended(chain, c.via);
              var reached := Reach(tree, base, c.dir.entries, chain', route);
              && ReachIn(tree, path, e, chain, route) == reached
              && (reached.Some? ==>
                    PositionIn(tree, path, e, chain, route) == 1 + Position(tree, base, c.dir.entries, chain', route))
              && WalkEntry(tree, path, e, chain)
              == [Found(DirectoryKind, path)] + WalkEntries(tree, base, c.dir.entries, c.dir.readFails, chain')
            else ReachIn(tree, path, e, chain, route) == None
  {
  }

  /** Every entry is in the walk, at its position. */
  lemma {:induction false} PositionReports(tree: Tree, base: string, entries: seq<Entry>, readFails: bool, chain: set<Inode>, route: Route)
    requires Reach(tree, base, entries, chain, route).Some?
    ensures var k, walk := Position(tree, base, entries, chain, route), WalkEntries(tree, base, entries, readFails, chain);
            k < |walk| && walk[k] == Reach(tree, base, entries, chain, route).value
    decreases |tree.targets.Keys - chain|, entries
  {
    if route[0] > 0 {
      PositionReports(tree, base, entries[1..], readFails, chain, [route[0] - 1] + route[1..]);
    } else {
      PositionReportsIn(tree, base + entries[0].name, entries[0], chain, route[1..]);
    }
  }

  lemma {:induction false} PositionReportsIn(tree: Tree, path: string, e: Entry, chain: set<Inode>, route: Route)
    requires ReachIn(tree, path, e, chain, route).Some?
    ensures var k, walk := PositionIn(tree, path, e, chain, route), WalkEntry(tree, path, e, chain);
            k < |walk| && walk[k] == ReachIn(tree, path, e, chain, route).value
    decreases |tree.targets.Keys - chain|, e
  {
    hide *;
    if route == [] {
      FirstIsOwn(tree, path, e, chain);
    } else {
      var c := Classify(tree, chain, e, false);
      Inside(tree, path, e, chain, route);
      LinksRunOut(tree, chain, e);
      PositionReports(tree, path + "/", c.dir.entries, c.dir.readFails, Extended(chain, c.via), route);
    }
  }

  /** The walk keeps the order of the routes. */
  lemma {:induction false} PositionsInOrder(tree: Tree, base: string, entries: seq<Entry>, chain: set<Inode>, a: Route, b: Route)
    requires Reach(tree, base, entries, chain, a).Some? && Reach(tree, base, entries, chain, b).Some? && Precedes(a, b)
    ensures Position(tree, base, entries, chain, a) < Position(tree, base, entries, chain, b)
    decreases |tree.targets.Keys - chain|, entries
  {
    if a[0] > 0 {
      PositionsInOrder(tree, base, entries[1..], chain, [a[0] - 1] + a[1..], [b[0] - 1] + b[1..]);
    } else if b[0] > 0 {
      PositionReportsIn(tree, base + entries[0].name, entries[0], chain, a[1..]);
    } else {
      PositionsInOrderIn(tree, base + entries[0].name, entries[0], chain, a[1..], b[1..]);
    }
  }

  lemma {:induction false} PositionsInOrderIn(tree: Tree, path: string, e: Entry, chain: set<Inode>, a: Route, b: Route)
    requires ReachIn(tree, path, e, chain, a).Some? && ReachIn(tree, path, e, chain, b).Some? && Precedes(a, b)
    ensures PositionIn(tree, path, e, chain, a) < PositionIn(tree, path, e, chain, b)
    decreases |tree.targets.Keys - chain|, e
  {
    if a != [] {
      var c := Classify(tree, chain, e, false);
      Inside(tree, path, e, chain, a);
      Inside(tree, path, e, chain, b);
      LinksRunOut(tree, chain, e);
      hide *;
      PositionsInOrder(tree, path + "/", c.dir.entries, Extended(chain, c.via), a, b);
    }
  }

  /** So the walk reports no entry twice. */
  lemma NothingTwice(tree: Tree, base: string, entries: seq<Entry>, chain: set<Inode>, a: Route, b: Route)
    requires Reach(tree, base, entries, chain, a).Some? && Reach(tree, base, entries, chain, b).Some?
    ensures Position(tree, base, entries, chain, a) == Position(tree, base, entries, chain, b) <==> a == b
    ensures Position(tree, base, entries, chain, a) < Position(tree, base, entries, chain, b) <==> Precedes(a, b)
  {
    hide *;
    RoutesAreOrdered(a, b);
    if Precedes(a, b) {
      PositionsInOrder(tree, base, entries, chain, a, b);
    } else if a != b {
      PositionsInOrder(tree, base, entries, chain, b, a);
    }
  }

  /** Whatever is found was found at some entry. */
  lemma {:induction false} FoundAtRoute(tree: Tree, base: string, entries: seq<Entry>, readFails: bool, chain: set<Inode>, k: nat)
    returns (route: Route)
    requires k < |WalkEntries(tree, base, entries, readFails, chain)|
    requires WalkEntries(tree, base, entries, readFails, chain)[k].Found?
    ensures Reach(tree, base, entries, chain, route).Some? && Position(tree, base, entries, chain, route) == k
    decreases |tree.targets.Keys - chain|, entries
  {
    var path := base + entries[0].name;
    var first := WalkEntry(tree, path, entries[0], chain);
    if k < |first| {
      var inside := FoundAtRouteIn(tree, path, entries[0], chain, k);
      route := [0] + inside;
      assert route[1..] == inside;
    } else {
      var later := FoundAtRoute(tree, base, entries[1..], readFails, chain, k - |first|);
      route := [later[0] + 1] + later[1..];
      assert [route[0] - 1] + route[1..] == later;
    }
  }

  lemma NoEmptyRoute(tree: Tree, base: string, entries: seq<Entry>, chain: set<Inode>, route: Route)
    requires Reach(tree, base, entries, chain, route).Some?
    ensures route != []
  {
  }

  lemma FoundInside(tree: Tree, path: string, e: Entry, chain: set<Inode>, k: nat)
    requires 0 < k < |WalkEntry(tree, path, e, chain)| && WalkEntry(tree, path, e, chain)[k].Found? && |path| <= PATH_MAX
    ensures var c := Classify(tree, chain, e, false);
            && HasRoom(path) && c.ADirectory? && tree.recursive && c.dir.opens
            && var inside := WalkEntries(tree, path + "/", c.dir.entries, c.dir.readFails, Extended(chain, c.via));
               k - 1 < |inside| && inside[k - 1].Found?
  {
    var c := Classify(tree, chain, e, false);
    assert c.ADirectory? && tree.recursive;
    var inside := WalkDir(tree, path, false, c.dir, Extended(chain, c.via));
    assert WalkEntry(tree, path, e, chain) == [Found(DirectoryKind, path)] + inside;
    assert inside[k - 1].Found?;
  }

  lemma {:induction false} FoundAtRouteIn(tree: Tree, path: string, e: Entry, chain: set<Inode>, k: nat) returns (route: Route)
    requires k < |WalkEntry(tree, path, e, chain)| && WalkEntry(tree, path, e, chain)[k].Found? && |path| <= PATH_MAX
    ensures ReachIn(tree, path, e, chain, route).Some? && PositionIn(tree, path, e, chain, route) == k
    decreases |tree.targets.Keys - chain|, e
  {
    hide *;
    if k == 0 {
      route := [];
      FirstIsOwn(tree, path, e, chain);
    } else {
      var c := Classify(tree, chain, e, false);
      FoundInside(tree, path, e, chain, k);
      LinksRunOut(tree, chain, e);
      route := FoundAtRoute(tree, path + "/", c.dir.entries, c.dir.readFails, Extended(chain, c.via), k - 1);
      NoEmptyRoute(tree, path + "/", c.dir.entries, Extended(chain, c.via), route);
      Inside(tree, path, e, chain, route);
    }
  }

  // ---- Paths that are cut short.

  /** The route leads to a directory that is to be entered and opens, but whose path has
      exactly PATH_MAX characters. */
  predicate CutAt(tree: Tree, base: string, entries: seq<Entry>, chain: set<Inode>, route: Route): (cut: bool)
    ensures cut ==> Reach(tree, base, entries, chain, route).Some?
    decreases |tree.targets.Keys - chain|, entries
  {
    route != [] && entries != [] && Passes(base, entries[0]) &&
    if route[0] > 0 then CutAt(tree, base, entries[1..], chain, [route[0] - 1] + route[1..])
    else CutIn(tree, base + entries[0].name, entries[0], chain, route[1..])
  }

  predicate CutIn(tree: Tree, path: string, e: Entry, chain: set<Inode>, route: Route): (cut: bool)
    ensures cut ==> ReachIn(tree, path, e, chain, route).Some?
    decreases |tree.targets.Keys - chain|, e
  {
    tree.recursive &&
    if route == [] then
      IsCut(path) && var c := Classify(tree, chain, e, true); c.ADirectory? && c.dir.opens
    else
      HasRoom(path) &&
      match Classify(tree, chain, e, false)
      case ADirectory(dir, via) =>
        LinksRunOut(tree, chain, e);
        dir.opens && CutAt(tree, path + "/", dir.entries, Extended(chain, via), route)
      case _ => false
  }

  /** Such a directory is found, fails, and leaves the listing undefined. */
  lemma CutHere(tree: Tree, path: string, e: Entry, chain: set<Inode>)
    ensures CutIn(tree, path, e, chain, []) ==>
              && PositionIn(tree, path, e, chain, []) == 0
              && WalkEntry(tree, path, e, chain) == [Found(DirectoryKind, Shown(path)), Error(Shown(path)), Undefined]
  {
    hide WalkDir, WalkEntries;
  }

  lemma CutInside(tree: Tree, path: string, e: Entry, chain: set<Inode>, route: Route)
    requires route != []
    ensures var c := Classify(tree, chain, e, false);
            CutIn(tree, path, e, chain, route) <==>
              && HasRoom(path) && c.ADirectory? && tree.recursive && c.dir.opens
              && CutAt(tree, path + "/", c.dir.entries, Extended(chain, c.via), route)
  {
  }

  lemma {:induction false} CutIsUndefined(tree: Tree, base: string, entries: seq<Entry>, readFails: bool, chain: set<Inode>, route: Route)
    requires CutAt(tree, base, entries, chain, route)
    ensures var k, walk := Position(tree, base, entries, chain, route) + 2, WalkEntries(tree, base, entries, readFails, chain);
            k < |walk| && walk[k] == Undefined
    decreases |tree.targets.Keys - chain|, entries
  {
    if route[0] > 0 {
      CutIsUndefined(tree, base, entries[1..], readFails, chain, [route[0] - 1] + route[1..]);
    } else {
      CutIsUndefinedIn(tree, base + entries[0].name, entries[0], chain, route[1..]);
    }
  }

  lemma {:induction false} CutIsUndefinedIn(tree: Tree, path: string, e: Entry, chain: set<Inode>, route: Route)
    requires CutIn(tree, path, e, chain, route)
    ensures var k, walk := PositionIn(tree, path, e, chain, route) + 2, WalkEntry(tree, path, e, chain);
            k < |walk| && walk[k] == Undefined
    decreases |tree.targets.Keys - chain|, e
  {
    hide *;
    if route == [] {
      CutHere(tree, path, e, chain);
      FirstIsOwn(tree, path, e, chain);
    } else {
      var c := Classify(tree, chain, e, false);
      CutInside(tree, path, e, chain, route);
      Inside(tree, path, e, chain, route);
      LinksRunOut(tree, chain, e);
      CutIsUndefined(tree, path + "/", c.dir.entries, c.dir.readFails, Extended(chain, c.via), route);
    }
  }

  lemma WalkParts(tree: Tree, base: string, entries: seq<Entry>, readFails: bool, chain: set<Inode>)
    ensures var walk := WalkEntries(tree, base, entries, readFails, chain);
            if entries == [] || |base + entries[0].name| > PATH_MAX then Undefined !in walk
            else walk == WalkEntry(tree, base + entries[0].name, entries[0], chain)
                       + WalkEntries(tree, base, entries[1..], readFails, chain)
  {
  }

  lemma RouteToLater(tree: Tree, base: string, entries: seq<Entry>, chain: set<Inode>, later: Route) returns (route: Route)
    requires entries != [] && |base + entries[0].name| <= PATH_MAX && CutAt(tree, base, entries[1..], chain, later)
    ensures CutAt(tree, base, entries, chain, route)
    ensures Position(tree, base, entries, chain, route)
            == |WalkEntry(tree, base + entries[0].name, entries[0], chain)| + Position(tree, base, entries[1..], chain, later)
  {
    route := [later[0] + 1] + later[1..];
    assert [route[0] - 1] + route[1..] == later;
  }

  lemma RouteInto(tree: Tree, base: string, entries: seq<Entry>, chain: set<Inode>, inside: Route) returns (route: Route)
    requires entries != [] && |base + entries[0].name| <= PATH_MAX && CutIn(tree, base + entries[0].name, entries[0], chain, inside)
    ensures CutAt(tree, base, entries, chain, route)
    ensures Position(tree, base, entries, chain, route) == PositionIn(tree, base + entries[0].name, entries[0], chain, inside)
  {
    route := [0] + inside;
    assert route[1..] == inside;
  }

  /** And nothing else does. */
  lemma {:induction false} UndefinedAtRoute(tree: Tree, base: string, entries: seq<Entry>, readFails: bool, chain: set<Inode>, k: nat)
    returns (route: Route)
    requires k < |WalkEntries(tree, base, entries, readFails, chain)|
    requires WalkEntries(tree, base, entries, readFails, chain)[k] == Undefined
    ensures CutAt(tree, base, entries, chain, route) && Position(tree, base, entries, chain, route) + 2 == k
    decreases |tree.targets.Keys - chain|, entries
  {
    hide *;
    WalkParts(tree, base, entries, readFails, chain);
    var path := base + entries[0].name;
    var first := WalkEntry(tree, path, entries[0], chain);
    if k < |first| {
      var inside := UndefinedAtRouteIn(tree, path, entries[0], chain, k);
      route := RouteInto(tree, base, entries, chain, inside);
    } else {
      var later := UndefinedAtRoute(tree, base, entries[1..], readFails, chain, k - |first|);
      route := RouteToLater(tree, base, entries, chain, later);
    }
  }

  lemma UndefinedInside(tree: Tree, path: string, e: Entry, chain: set<Inode>, k: nat)
    requires k < |WalkEntry(tree, path, e, chain)| && WalkEntry(tree, path, e, chain)[k] == Undefined && |path| <= PATH_MAX
    ensures if !HasRoom(path) then CutIn(tree, path, e, chain, []) && k == 2
            else
              var c := Classify(tree, chain, e, false);
              && c.ADirectory? && tree.recursive && c.dir.opens && k > 0
              && WalkEntry(tree, path, e, chain)
                 == [Found(DirectoryKind, path)]
                  + WalkEntries(tree, path + "/", c.dir.entries, c.dir.readFails, Extended(chain, c.via))
  {
    hide WalkEntries;
  }

  lemma {:induction false} UndefinedAtRouteIn(tree: Tree, path: string, e: Entry, chain: set<Inode>, k: nat) returns (route: Route)
    requires k < |WalkEntry(tree, path, e, chain)| && WalkEntry(tree, path, e, chain)[k] == Undefined && |path| <= PATH_MAX
    ensures CutIn(tree, path, e, chain, route) && PositionIn(tree, path, e, chain, route) + 2 == k
    decreases |tree.targets.Keys - chain|, e
  {
    hide *;
    UndefinedInside(tree, path, e, chain, k);
    if !HasRoom(path) {
      route := [];
      CutHere(tree, path, e, chain);
      FirstIsOwn(tree, path, e, chain);
    } else {
      var c := Classify(tree, chain, e, false);
      LinksRunOut(tree, chain, e);
      route := UndefinedAtRoute(tree, path + "/", c.dir.entries, c.dir.readFails, Extended(chain, c.via), k - 1);
      NoEmptyRoute(tree, path + "/", c.dir.entries, Extended(chain, c.via), route);
      CutInside(tree, path, e, chain, route);
      Inside(tree, path, e, chain, route);
    }
  }

  /** A listing becomes undefined exactly when there is a directory at exactly the limit to be
      entered. */
  lemma UndefinedIff(tree: Tree, base: string, entries: seq<Entry>, readFails: bool, chain: set<Inode>)
    ensures Undefined in WalkEntries(tree, base, entries, readFails, chain) <==>
            exists route :: CutAt(tree, base, entries, chain, route)
  {
    hide *;
    var walk := WalkEntries(tree, base, entries, readFails, chain);
    if Undefined in walk {
      var k: nat :| k < |walk| && walk[k] == Undefined;
      var route := UndefinedAtRoute(tree, base, entries, readFails, chain, k);
    }
    forall route | CutAt(tree, base, entries, chain, route) ensures Undefined in walk {
      CutIsUndefined(tree, base, entries, readFails, chain, route);
    }
  }

  /** All directories at the limit are found too late for the first n events to be undefined. */
  ghost predicate NoneCutBefore(tree: Tree, base: string, entries: seq<Entry>, chain: set<Inode>, n: nat) {
    forall route :: CutAt(tree, base, entries, chain, route) ==> n <= Position(tree, base, entries, chain, route) + 2
  }

  /** The first n events of a directory's listing are defined exactly when that is
      so. */
  lemma DefinedIff(tree: Tree, base: string, entries: seq<Entry>, readFails: bool, chain: set<Inode>, n: nat)
    ensures DefinedFor(WalkEntries(tree, base, entries, readFails, chain), n) <==>
            NoneCutBefore(tree, base, entries, chain, n)
  {
    hide CutAt, Reach, Position, WalkEntries;
    var walk := WalkEntries(tree, base, entries, readFails, chain);
    forall route | CutAt(tree, base, entries, chain, route)
      ensures DefinedFor(walk, n) ==> n <= Position(tree, base, entries, chain, route) + 2
    {
      CutIsUndefined(tree, base, entries, readFails, chain, route);
    }
    if !DefinedFor(walk, n) {
      var k: nat :| k < |walk| && k < n && walk[k] == Undefined;
      var route := UndefinedAtRoute(tree, base, entries, readFails, chain, k);
    }
  }

  /** The same for a whole listing. */
  lemma ListingDefinedIff(tree: Tree, dirName: string, root: Directory, n: nat)
    requires |dirName| <= PATH_MAX
    ensures DefinedFor(WalkDir(tree, dirName, true, root, {}) + [Finished], n) <==>
            (root.opens ==> NoneCutBefore(tree, dirName, root.entries, {}, n))
  {
    var walk := WalkDir(tree, dirName, true, root, {});
    assert forall k :: 0 <= k < |walk| ==> (walk + [Finished])[k] == walk[k];
    assert DefinedFor(walk + [Finished], n) <==> DefinedFor(walk, n);
    if root.opens {
      assert walk == WalkEntries(tree, dirName, root.entries, root.readFails, {});
      DefinedIff(tree, dirName, root.entries, root.readFails, {}, n);
    } else {
      assert walk == [Error(Shown(dirName))];
    }
  }

  /** A directory of any name, holding nothing, where without the last character of its name
      there is another. */
  function Neighbours(name: Name): Entry {
    Entry(name, Dir(Directory(true, [], false)), true, false, Some(Dir(Directory(true, [], false))))
  }

  /** In every directory every name that reaches the limit can make a listing undefined. */
  lemma LimitIsUndefined(tree: Tree, dirName: string, name: Name)
    requires tree.recursive && |dirName + name| == PATH_MAX && !IsDots(name)
    ensures var root, text := Directory(true, [Neighbours(name)], false), Shown(dirName + name);
            && CutAt(tree, dirName, root.entries, {}, [0])
            && WalkDir(tree, dirName, true, root, {}) == [Found(DirectoryKind, text), Error(text), Undefined]
  {
    var e, path := Neighbours(name), dirName + name;
    assert [0][1..] == [];
    assert CutIn(tree, path, e, {}, []);
    CutHere(tree, path, e, {});
    WalkParts(tree, dirName, [e], false, {});
    assert WalkEntries(tree, dirName, [e][1..], false, {}) == [];
  }

  // ---- Links.

  /** The links through which a route enters directories. */
  function Followed(tree: Tree, base: string, entries: seq<Entry>, chain: set<Inode>, route: Route): seq<Inode>
    decreases |tree.targets.Keys - chain|, entries
  {
    if route == [] || entries == [] then []
    else if route[0] > 0 then Followed(tree, base, entries[1..], chain, [route[0] - 1] + route[1..])
    else FollowedIn(tree, base + entries[0].name, entries[0], chain, route[1..])
  }

  function FollowedIn(tree: Tree, path: string, e: Entry, chain: set<Inode>, route: Route): seq<Inode>
    decreases |tree.targets.Keys - chain|, e
  {
    match Classify(tree, chain, e, IsCut(path))
    case ADirectory(dir, via) =>
      (if via.Some? then [via.value] else [])
      + if IsCut(path) then []
        else LinksRunOut(tree, chain, e); Followed(tree, path + "/", dir.entries, Extended(chain, via), route)
    case _ => []
  }

  ghost predicate AllNew(links: seq<Inode>, chain: set<Inode>) {
    && (forall i :: 0 <= i < |links| ==> links[i] !in chain)
    && (forall i, j :: 0 <= i < j < |links| ==> links[i] != links[j])
  }

  lemma OneMoreLink(chain: set<Inode>, via: Option<Inode>, links: seq<Inode>)
    requires AllNew(links, Extended(chain, via)) && (via.Some? ==> via.value !in chain)
    ensures AllNew((if via.Some? then [via.value] else []) + links, chain)
  {
    if via.None? {
      assert [] + links == links;
    }
  }

  /** No route follows the same link twice, nor one that led to where it starts. */
  lemma {:induction false} NoLinkTwice(tree: Tree, base: string, entries: seq<Entry>, chain: set<Inode>, route: Route)
    ensures AllNew(Followed(tree, base, entries, chain, route), chain)
    decreases |tree.targets.Keys - chain|, entries
  {
    if route != [] && entries != [] {
      if route[0] > 0 {
        NoLinkTwice(tree, base, entries[1..], chain, [route[0] - 1] + route[1..]);
      } else {
        NoLinkTwiceIn(tree, base + entries[0].name, entries[0], chain, route[1..]);
      }
    }
  }

  /** The links followed into an entry, and on from it. */
  lemma FollowedOn(tree: Tree, path: string, e: Entry, chain: set<Inode>, route: Route)
    ensures var c, links := Classify(tree, chain, e, IsCut(path)), FollowedIn(tree, path, e, chain, route);
            if c.ADirectory? then
              && (c.via.Some? ==> c.via.value !in chain)
              && links == (if c.via.Some? then [c.via.value] else [])
                        + if IsCut(path) then [] else Followed(tree, path + "/", c.dir.entries, Extended(chain, c.via), route)
            else links == []
    ensures !IsCut(path) ==> Classify(tree, chain, e, IsCut(path)) == Classify(tree, chain, e, false)
  {
    hide Followed, Extended;
  }

  lemma {:induction false} NoLinkTwiceIn(tree: Tree, path: string, e: Entry, chain: set<Inode>, route: Route)
    ensures AllNew(FollowedIn(tree, path, e, chain, route), chain)
    decreases |tree.targets.Keys - chain|, e
  {
    hide *;
    var c := Classify(tree, chain, e, IsCut(path));
    FollowedOn(tree, path, e, chain, route);
    if !c.ADirectory? {
      NoneNew(chain);
    } else if IsCut(path) {
      NoneNew(Extended(chain, c.via));
      OneMoreLink(chain, c.via, []);
    } else {
      LinksRunOut(tree, chain, e);
      NoLinkTwice(tree, path + "/", c.dir.entries, Extended(chain, c.via), route);
      OneMoreLink(chain, c.via, Followed(tree, path + "/", c.dir.entries, Extended(chain, c.via), route));
    }
  }

  lemma NoneNew(chain: set<Inode>)
    ensures AllNew([], chain)
  {
  }
}
