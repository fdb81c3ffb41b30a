/** Recursive directory listing, specified: the preorder walk over a file system snapshot
    that the explicit stack of runtime/bin/directory_linux.cc and directory.cc has to produce. */
module DirectoryWalk {
  import opened Common
  import opened Paths

  /** The device and inode number of a symbolic link. */
  type Inode = nat

  /** A directory as reading it shows it. `entries` includes "." and "..";
      `readFails` says that reading stops with an error behind the last entry. */
  datatype Directory = Directory(opens: bool, entries: seq<Entry>, readFails: bool)

  /** `typeKnown` says that reading the directory gives the entry's type, `statFails` that
      asking for its status fails. `short` is what the entry's path denotes without its last
      character, as far as asking for its status tells; it counts when the path is cut short. */
  datatype Entry = Entry(name: Name, node: Node, typeKnown: bool, statFails: bool, short: Option<Node>)

  /** Every kind of entry that is no directory and no symbolic link counts as a file. */
  datatype Node = File | Dir(dir: Directory) | Link(inode: Inode)

  datatype Target = Broken | ToFile | ToDirectory(dir: Directory)

  /** What is listed, and how. Link targets are looked up by the link's identity, so links
      may form cycles. */
  datatype Tree = Tree(targets: map<Inode, Target>, recursive: bool, follow: bool)

  datatype Kind = FileKind | DirectoryKind | LinkKind

  /** What the listing reports. After `Undefined` nothing is said about it: it cuts its path
      back to a length that was never stored. */
  datatype Event = Found(kind: Kind, path: string) | Error(path: string) | Finished | Undefined

  /** What an entry turns out to be; a directory reached through a link comes with the link. */
  datatype Class = Skipped | Unreadable | AFile | ALink | ADirectory(dir: Directory, via: Option<Inode>)

  function TargetOf(tree: Tree, inode: Inode): Target {
    if inode in tree.targets then tree.targets[inode] else Broken
  }

  // ---- What an entry is taken for. `cut` says that its path is cut short.

  function Status(e: Entry, cut: bool): Option<Node> {
    if cut then e.short else if e.statFails then None else Some(e.node)
  }

  /** The directory that is opened for an entry known to be one. Opening looks through links. */
  function Opened(tree: Tree, e: Entry, cut: bool): Directory
    requires e.node.Dir?
  {
    if !cut then e.node.dir
    else if e.short.Some? && e.short.value.Dir? then e.short.value.dir
    else if e.short.Some? && e.short.value.Link? && TargetOf(tree, e.short.value.inode).ToDirectory? then
      TargetOf(tree, e.short.value.inode).dir
    else Directory(false, [], false)
  }

  /** What an entry is taken for: what reading its directory said, or what its path, as shown,
      denotes. A followed link to a directory counts as that directory, unless the link has
      been followed on the way here already. */
  function Classify(tree: Tree, chain: set<Inode>, e: Entry, cut: bool): Class {
    if e.typeKnown && !(e.node.Link? && tree.follow) then
      match e.node
      case File => AFile
      case Dir(_) => if IsDots(e.name) then Skipped else ADirectory(Opened(tree, e, cut), None)
      case Link(_) => ALink
    else
      match Status(e, cut)
      case None => Unreadable
      case Some(File) => AFile
      case Some(Dir(dir)) => if IsDots(e.name) then Skipped else ADirectory(dir, None)
      case Some(Link(inode)) =>
        if !tree.follow || inode in chain then ALink
        else
          match TargetOf(tree, inode)
          case Broken => ALink
          case ToFile => AFile
          case ToDirectory(dir) => if IsDots(e.name) then Skipped else ADirectory(dir, Some(inode))
  }

  /** The links followed on the way into a directory. */
  function Extended(chain: set<Inode>, via: Option<Inode>): set<Inode> {
    if via.None? then chain else chain + {via.value}
  }

  /** A directory's path, ready for a name to follow. Only the root is used as it is given. */
  function Base(path: string, root: bool): string {
    if root then path else path + "/"
  }

  /** What a directory reports whose path leaves no room for the separator. */
  function WalkNothing(path: string, dir: Directory): seq<Event> {
    if dir.opens then [Error(Shown(path)), Undefined] else [Error(Shown(path))]
  }

  /** What listing a directory reports. The recursion ends because each step goes down into
      the snapshot or follows a link that was not yet followed. */
  function WalkDir(tree: Tree, path: string, root: bool, dir: Directory, chain: set<Inode>): seq<Event>
    decreases |tree.targets.Keys - chain|, dir
  {
    if !dir.opens || |Base(path, root)| > PATH_MAX then WalkNothing(path, dir)
    else WalkEntries(tree, Base(path, root), dir.entries, dir.readFails, chain)
  }

  function WalkEntries(tree: Tree, base: string, entries: seq<Entry>, readFails: bool, chain: set<Inode>): seq<Event>
    decreases |tree.targets.Keys - chain|, entries
  {
    if entries == [] then
      if readFails then [Error(Shown(base))] else []
    else
      var e := entries[0];
      var path := base + e.name;
      if |path| > PATH_MAX then [Error(Shown(path))]
      else WalkEntry(tree, path, e, chain) + WalkEntries(tree, base, entries[1..], readFails, chain)
  }

  function WalkEntry(tree: Tree, path: string, e: Entry, chain: set<Inode>): seq<Event>
    decreases |tree.targets.Keys - chain|, e
  {
    var text := Shown(path);
    match Classify(tree, chain, e, IsCut(path))
    case Skipped => []
    case Unreadable => [Error(text)]
    case AFile => [Found(FileKind, text)]
    case ALink => [Found(LinkKind, text)]
    case ADirectory(dir, via) =>
      [Found(DirectoryKind, text)]
      + if !tree.recursive then []
        else if IsCut(path) then WalkNothing(path, dir)
        else
          LinksRunOut(tree, chain, e);
          WalkDir(tree, path, false, dir, Extended(chain, via))
  }

  /** Entering a directory through a link uses up one more link. */
  lemma LinksRunOut(tree: Tree, chain: set<Inode>, e: Entry)
    ensures var c := Classify(tree, chain, e, false);
            c.ADirectory? ==>
              if c.via.Some? then |tree.targets.Keys - Extended(chain, c.via)| < |tree.targets.Keys - chain|
              else e.node == Dir(c.dir) && Extended(chain, c.via) == chain
  {
    var c := Classify(tree, chain, e, false);
    if c.ADirectory? && c.via.Some? {
      var left := tree.targets.Keys - chain;
      assert c.via.value in left;
      assert tree.targets.Keys - Extended(chain, c.via) == left - {c.via.value};
    }
  }

  /** The next event is not undefined. */
  ghost predicate Defined(events: seq<Event>) {
    events == [] || events[0] != Undefined
  }

  /** None of the next n events is. */
  ghost predicate DefinedFor(events: seq<Event>, n: nat) {
    forall k :: 0 <= k < |events| && k < n ==> events[k] != Undefined
  }
}
