/** The resumable listing of runtime/bin/directory.h, directory_linux.cc and directory.cc:
    a stack of directories being read, one path buffer shared by all of them, and the
    chains of followed links, whose nodes are allocated and deleted by hand. */
module DirectoryListing {
  import opened Common
  import opened Paths
  import opened DirectoryWalk
  import opened DirectoryOrder

  type Ptr = nat

  /** A node in a chain of followed links. */
  datatype LinkNode = LinkNode(inode: Inode, next: Option<Ptr>)

  /** A directory on the stack. `dir` is what its path denotes, `rest` what is left to read.
      The length of its path is not stored before the directory is opened, nor then if its
      path has no room for a separator. */
  datatype Frame = Frame(
    dir: Directory, reading: bool, done: bool, rest: seq<Entry>, pathLength: Option<nat>, link: Option<Ptr>)

  /** What a frame stands for: the path it has to restore, and how many links, and which,
      were followed to get into it. */
  datatype Level = Level(base: string, level: nat, seen: set<Inode>)

  datatype ListType = IsFile | IsLink | IsDirectory(dir: Directory) | IsError | IsDone

  // ---- Stacks, as sequences with the top at the end.

  function Top<T>(s: seq<T>): T
    requires s != []
  {
    s[|s| - 1]
  }

  function Below<T>(s: seq<T>): (r: seq<T>)
    requires s != []
    ensures |r| == |s| - 1
  {
    s[..|s| - 1]
  }

  function WithTop<T>(s: seq<T>, x: T): (r: seq<T>)
    requires s != []
    ensures |r| == |s| && Top(r) == x && Below(r) == Below(s)
  {
    s[|s| - 1 := x]
  }

  // ---- Chains. All live chains are prefixes of one spine, stored with its end first.

  /** The pointer to the chain of the first `k` nodes of the spine. */
  function At(spine: seq<Ptr>, k: nat): Option<Ptr>
    requires k <= |spine|
  {
    if k == 0 then None else Some(spine[k - 1])
  }

  /** The live nodes are exactly the spine's, in order, and no link is on it twice. */
  ghost predicate ChainOk(nodes: map<Ptr, LinkNode>, spine: seq<Ptr>, inodes: seq<Inode>) {
    && |inodes| == |spine| && Distinct(spine) && Distinct(inodes)
    && nodes.Keys == Elements(spine)
    && (forall k {:trigger nodes[spine[k]]} :: 0 <= k < |spine| ==>
          spine[k] in nodes && nodes[spine[k]] == LinkNode(inodes[k], At(spine, k)))
  }

  /** Every node ever allocated is either live or deleted, never both. */
  ghost predicate AllocationOk(nodes: map<Ptr, LinkNode>, freed: set<Ptr>, nextPtr: Ptr) {
    && nodes.Keys !! freed
    && (forall p: Ptr :: p < nextPtr <==> p in nodes || p in freed)
  }

  lemma NewNode(nodes: map<Ptr, LinkNode>, freed: set<Ptr>, p: Ptr, node: LinkNode)
    requires AllocationOk(nodes, freed, p)
    ensures p !in nodes && AllocationOk(nodes[p := node], freed, p + 1)
  {
  }

  lemma ElementsOfLonger(s: seq<nat>, x: nat)
    ensures Elements(s + [x]) == Elements(s) + {x}
  {
    assert forall y :: y in s + [x] <==> y in s || y == x;
  }

  /** A frame's own chain: its parent's, or that and one node more. A frame not yet read
      from may still hold no chain. */
  ghost predicate TopLinkOk(f: Frame, level: nat, spine: seq<Ptr>) {
    && level <= |spine| <= level + 1
    && (f.link == At(spine, |spine|) || (f.link == None && |spine| == level))
  }

  ghost predicate LevelsOk(stack: seq<Frame>, plan: seq<Level>, spine: seq<Ptr>, inodes: seq<Inode>) {
    && |plan| == |stack| && |inodes| == |spine|
    && (forall i :: 0 <= i < |plan| ==> plan[i].level <= |spine| && plan[i].seen == Elements(inodes[..plan[i].level]))
    && (forall i, j :: 0 <= i < j < |plan| && j == i + 1 ==>
          && plan[i].level <= plan[j].level <= plan[i].level + 1
          && stack[i].link == At(spine, plan[j].level))
    && if stack == [] then spine == []
       else plan[0].level == 0 && TopLinkOk(Top(stack), Top(plan).level, spine)
  }

  /** A frame holds a node of its own exactly when the spine is longer than what it inherited. */
  lemma OwnedLink(stack: seq<Frame>, plan: seq<Level>, spine: seq<Ptr>, inodes: seq<Inode>)
    requires LevelsOk(stack, plan, spine, inodes) && Distinct(spine) && stack != []
    ensures |inodes| == |spine|
    ensures var n, link := |stack| - 1, Top(stack).link;
            var k := Top(plan).level;
            && k <= |spine| <= k + 1
            && (link.Some? && (n == 0 || stack[n - 1].link != link) <==> |spine| == k + 1)
            && (|spine| == k + 1 ==> link == Some(spine[k]))
            && (if n > 0 then stack[n - 1].link == At(spine, k) else k == 0)
  {
  }

  lemma TakeOrBelow(s: seq<nat>, k: nat)
    requires k <= |s| <= k + 1
    ensures |s| == k ==> s[..k] == s
    ensures |s| == k + 1 ==> s[..k] == Below(s) && s[k] == Top(s)
  {
  }

  lemma ElementsOfShorter(s: seq<nat>)
    requires s != [] && Distinct(s)
    ensures Elements(Below(s)) == Elements(s) - {Top(s)} && Top(s) !in Below(s)
  {
    ElementsOfLonger(Below(s), Top(s));
    assert Below(s) + [Top(s)] == s;
  }

  lemma DropChain(nodes: map<Ptr, LinkNode>, spine: seq<Ptr>, inodes: seq<Inode>)
    requires ChainOk(nodes, spine, inodes) && spine != []
    ensures Top(spine) in nodes && ChainOk(nodes - {Top(spine)}, Below(spine), Below(inodes))
  {
    ElementsOfShorter(spine);
    assert Top(spine) in Elements(spine);
    hide Elements;
    var nodes', spine', inodes' := nodes - {Top(spine)}, Below(spine), Below(inodes);
    forall i {:trigger nodes'[spine'[i]]} | 0 <= i < |spine'|
      ensures spine'[i] in nodes' && nodes'[spine'[i]] == LinkNode(inodes'[i], At(spine', i))
    {
      assert nodes[spine[i]] == LinkNode(inodes[i], At(spine, i));
    }
  }

  /** A new node goes on the end of the spine. */
  lemma ExtendChain(nodes: map<Ptr, LinkNode>, spine: seq<Ptr>, inodes: seq<Inode>, p: Ptr, inode: Inode)
    requires ChainOk(nodes, spine, inodes) && p !in nodes && inode !in inodes
    ensures ChainOk(nodes[p := LinkNode(inode, At(spine, |spine|))], spine + [p], inodes + [inode])
  {
    var nodes', spine', inodes' := nodes[p := LinkNode(inode, At(spine, |spine|))], spine + [p], inodes + [inode];
    ElementsOfLonger(spine, p);
    assert p !in spine by {
      assert p !in Elements(spine);
    }
    forall i {:trigger nodes'[spine'[i]]} | 0 <= i < |spine'|
      ensures spine'[i] in nodes' && nodes'[spine'[i]] == LinkNode(inodes'[i], At(spine', i))
    {
      if i < |spine| {
        assert spine[i] in spine && spine'[i] == spine[i];
        assert nodes[spine[i]] == LinkNode(inodes[i], At(spine, i));
      }
    }
  }

  lemma ExtendLevels(stack: seq<Frame>, plan: seq<Level>, spine: seq<Ptr>, inodes: seq<Inode>, p: Ptr, inode: Inode)
    requires LevelsOk(stack, plan, spine, inodes) && stack != [] && |spine| == Top(plan).level
    ensures LevelsOk(WithLink(stack, Some(p)), plan, spine + [p], inodes + [inode])
  {
    forall i | 0 <= i < |plan| ensures (inodes + [inode])[..plan[i].level] == inodes[..plan[i].level] {
    }
    LevelsRise(stack, plan, spine, inodes, |plan| - 1);
  }

  /** The frame's chain carries over to a directory entered from it. */
  lemma PushLevels(stack: seq<Frame>, plan: seq<Level>, spine: seq<Ptr>, inodes: seq<Inode>, f: Frame, base: string)
    requires LevelsOk(stack, plan, spine, inodes) && stack != [] && f.link == None
    requires Top(stack).link == At(spine, |spine|)
    ensures LevelsOk(stack + [f], plan + [Level(base, |spine|, Elements(inodes))], spine, inodes)
  {
    assert inodes[..|spine|] == inodes;
  }

  lemma PopLevels(stack: seq<Frame>, plan: seq<Level>, spine: seq<Ptr>, inodes: seq<Inode>)
    requires LevelsOk(stack, plan, spine, inodes) && stack != [] && |spine| == Top(plan).level
    ensures LevelsOk(Below(stack), Below(plan), spine, inodes)
  {
  }

  /** Nothing but the frame's link counts for the chains. */
  lemma SameLevels(stack: seq<Frame>, plan: seq<Level>, spine: seq<Ptr>, inodes: seq<Inode>, f: Frame)
    requires LevelsOk(stack, plan, spine, inodes) && stack != [] && f.link == Top(stack).link
    ensures LevelsOk(WithTop(stack, f), plan, spine, inodes)
  {
  }

  function WithLink(stack: seq<Frame>, link: Option<Ptr>): seq<Frame>
    requires stack != []
  {
    WithTop(stack, Top(stack).(link := link))
  }

  /** Giving up its own node leaves a frame with what it inherited. */
  lemma InheritedLevels(stack: seq<Frame>, plan: seq<Level>, spine: seq<Ptr>, inodes: seq<Inode>)
    requires LevelsOk(stack, plan, spine, inodes) && stack != []
    ensures var k := Top(plan).level;
            k <= |spine| && LevelsOk(WithLink(stack, At(spine[..k], k)), plan, spine[..k], inodes[..k])
  {
    var n := |plan| - 1;
    var k := plan[n].level;
    LevelsRise(stack, plan, spine, inodes, n);
    forall i | 0 <= i < |plan| ensures inodes[..k][..plan[i].level] == inodes[..plan[i].level] {
    }
  }

  lemma SeenByTop(stack: seq<Frame>, plan: seq<Level>, spine: seq<Ptr>, inodes: seq<Inode>)
    requires LevelsOk(stack, plan, spine, inodes) && stack != []
    ensures var l := Top(plan); l.level <= |inodes| && l.seen == Elements(inodes[..l.level])
  {
  }

  /** Nor do the levels depend on the paths. */
  lemma BaseLevels(stack: seq<Frame>, plan: seq<Level>, spine: seq<Ptr>, inodes: seq<Inode>, f: Frame, base: string)
    requires LevelsOk(stack, plan, spine, inodes) && stack != [] && f.link == Top(stack).link
    ensures var n := |stack| - 1; LevelsOk(WithTop(stack, f), WithTop(plan, Top(plan).(base := base)), spine, inodes)
  {
    var n := |stack| - 1;
    var stack', plan' := WithTop(stack, f), WithTop(plan, Top(plan).(base := base));
    assert forall i :: 0 <= i < |plan| ==> plan'[i].level == plan[i].level && plan'[i].seen == plan[i].seen;
  }

  lemma LevelsRise(stack: seq<Frame>, plan: seq<Level>, spine: seq<Ptr>, inodes: seq<Inode>, n: nat)
    requires LevelsOk(stack, plan, spine, inodes) && n < |plan|
    ensures forall i :: 0 <= i <= n ==> plan[i].level <= plan[n].level
  {
    if n > 0 {
      LevelsRise(stack, plan, spine, inodes, n - 1);
    }
  }

  // ---- Paths.

  ghost predicate FrameOk(f: Frame, base: string) {
    |base| <= PATH_MAX && (f.pathLength.Some? ==> f.reading && f.pathLength.value == |base|)
  }

  ghost predicate PathsOk(stack: seq<Frame>, plan: seq<Level>, path: Buffer) {
    && |plan| == |stack| && |path.text| < PATH_MAX
    && (forall i :: 0 <= i < |plan| ==> FrameOk(stack[i], plan[i].base))
    && (forall i, j :: 0 <= i < j < |plan| ==> plan[i].base <= plan[j].base && stack[i].reading)
    && (stack != [] ==>
          var top, base := Top(stack), Top(plan).base;
          Under(base, path.text) && (!top.reading && !top.done ==> path == Showing(base)))
  }

  lemma TopPaths(stack: seq<Frame>, plan: seq<Level>, path: Buffer, f: Frame, path': Buffer)
    requires PathsOk(stack, plan, path) && stack != [] && |path'.text| < PATH_MAX
    requires f.reading && f.pathLength == Some(|Top(plan).base|) && Under(Top(plan).base, path'.text)
    ensures PathsOk(WithTop(stack, f), plan, path')
  {
  }

  lemma StartPaths(stack: seq<Frame>, plan: seq<Level>, path: Buffer, f: Frame, base: string)
    requires PathsOk(stack, plan, path) && stack != [] && f.reading && |base| <= PATH_MAX
    requires Top(plan).base <= base && (f.pathLength.Some? ==> f.pathLength.value == |base|)
    ensures var n := |stack| - 1; PathsOk(WithTop(stack, f), WithTop(plan, Top(plan).(base := base)), Showing(base))
  {
    assert |base| < PATH_MAX ==> Shown(base) == base;
    assert Under(base, Showing(base).text);
  }

  lemma UnopenedFrame(stack: seq<Frame>, plan: seq<Level>, path: Buffer)
    requires PathsOk(stack, plan, path) && stack != [] && !Top(stack).reading && !Top(stack).done
    ensures path == Showing(Top(plan).base) && |Top(plan).base| <= PATH_MAX && Top(stack).pathLength == None
  {
  }

  /** A frame that is done needs its path no more. */
  lemma DonePaths(stack: seq<Frame>, plan: seq<Level>, path: Buffer, f: Frame)
    requires PathsOk(stack, plan, path) && stack != [] && f == Top(stack).(done := true)
    ensures PathsOk(WithTop(stack, f), plan, path)
  {
  }

  lemma OpenFrame(stack: seq<Frame>, plan: seq<Level>, path: Buffer)
    requires PathsOk(stack, plan, path) && stack != [] && Top(stack).reading && Top(stack).pathLength.Some?
    ensures var top, base := Top(stack), Top(plan).base;
            top.pathLength == Some(|base|) && Under(base, path.text) && |path.text| < PATH_MAX
  {
  }

  /** Nor do the paths depend on the links. */
  lemma LinkPaths(stack: seq<Frame>, plan: seq<Level>, path: Buffer)
    requires PathsOk(stack, plan, path) && stack != []
    ensures forall link :: PathsOk(WithLink(stack, link), plan, path)
    ensures Top(stack).reading ==>
              forall link :: PathsOk(WithLink(stack, link), plan, Showing(Top(plan).base))
  {
    var base := Top(plan).base;
    assert |base| < PATH_MAX ==> Shown(base) == base;
    assert Under(base, Showing(base).text);
  }

  lemma CutIsFull(base: string, name: string)
    ensures IsCut(base + name) <==> |base + name| == PATH_MAX
    ensures |base| <= PATH_MAX && |base + name| <= PATH_MAX ==> AddTo(Showing(base), name) == (Showing(base + name), true)
  {
    if |base| <= PATH_MAX {
      AddShows(base, name);
    }
  }

  lemma PushPaths(stack: seq<Frame>, plan: seq<Level>, path: Buffer, f: Frame, l: Level)
    requires PathsOk(stack, plan, path) && stack != [] && Top(stack).reading
    requires path == Showing(l.base) && |l.base| <= PATH_MAX && !f.reading && f.pathLength == None && Top(plan).base <= l.base
    ensures PathsOk(stack + [f], plan + [l], path)
  {
    assert Under(l.base, Showing(l.base).text);
    assert forall i :: 0 <= i < |plan| - 1 ==> plan[i].base <= Top(plan).base;
  }

  lemma PopPaths(stack: seq<Frame>, plan: seq<Level>, path: Buffer)
    requires PathsOk(stack, plan, path) && stack != []
    ensures PathsOk(Below(stack), Below(plan), path)
  {
    var n := |stack| - 1;
    if n > 0 {
      assert plan[n - 1].base <= plan[n].base;
    }
  }

  // ---- What is still to be reported.

  ghost function FramePending(tree: Tree, f: Frame, l: Level, root: bool): seq<Event> {
    if f.done then []
    else if f.reading && f.pathLength.None? then [Undefined]
    else if f.reading then WalkEntries(tree, l.base, f.rest, f.dir.readFails, l.seen)
    else WalkDir(tree, l.base, root, f.dir, l.seen)
  }

  ghost function StackPending(tree: Tree, stack: seq<Frame>, plan: seq<Level>): seq<Event>
    requires |plan| == |stack|
  {
    if stack == [] then []
    else
      FramePending(tree, Top(stack), Top(plan), |stack| == 1) + StackPending(tree, Below(stack), Below(plan))
  }

  /** What one step of a frame reports, with the path it has built, given what the frame and
      its new children have still to report. */
  ghost predicate Yields(tree: Tree, found: ListType, full: string, chain: set<Inode>,
                         before: seq<Event>, after: seq<Event>)
  {
    match found
    case IsFile => before == [Found(FileKind, Shown(full))] + after
    case IsLink => before == [Found(LinkKind, Shown(full))] + after
    case IsError => before == [Error(Shown(full))] + after
    case IsDone => before == after == []
    case IsDirectory(dir) =>
      before == [Found(DirectoryKind, Shown(full))]
                + (if tree.recursive then WalkDir(tree, full, false, dir, chain) else []) + after
  }

  /** The entry has been told what it is, with the chain to take into it if it is a directory. */
  ghost predicate Identified(tree: Tree, seen: set<Inode>, e: Entry, cut: bool, found: Option<ListType>, chain: set<Inode>) {
    match Classify(tree, seen, e, cut)
    case Skipped => found == None
    case Unreadable => found == Some(IsError)
    case AFile => found == Some(IsFile)
    case ALink => found == Some(IsLink)
    case ADirectory(dir, via) => found == Some(IsDirectory(dir)) && chain == Extended(seen, via)
  }

  /** Reading on past an entry reports what the entry is, or nothing when it is skipped. */
  lemma EntryYields(tree: Tree, l: Level, f: Frame, found: Option<ListType>, chain: set<Inode>)
    requires f.reading && f.pathLength.Some? && !f.done && f.rest != [] && |l.base + f.rest[0].name| <= PATH_MAX
    requires Identified(tree, l.seen, f.rest[0], IsCut(l.base + f.rest[0].name), found, chain)
    ensures var before, after := FramePending(tree, f, l, false), FramePending(tree, f.(rest := f.rest[1..]), l, false);
            match found
            case None => before == after
            case Some(t) => !t.IsDone? && Yields(tree, t, l.base + f.rest[0].name, chain, before, after)
  {
    var e := f.rest[0];
    var path := l.base + e.name;
    var after := WalkEntries(tree, l.base, f.rest[1..], f.dir.readFails, l.seen);
    assert FramePending(tree, f, l, false) == WalkEntry(tree, path, e, l.seen) + after;
    hide WalkEntries;
    EntryWalk(tree, path, e, l.seen);
  }

  /** A directory's part of the walk is the same however long its path. */
  lemma EntryWalk(tree: Tree, path: string, e: Entry, chain: set<Inode>)
    requires |path| <= PATH_MAX
    ensures match Classify(tree, chain, e, IsCut(path))
            case Skipped => WalkEntry(tree, path, e, chain) == []
            case Unreadable => WalkEntry(tree, path, e, chain) == [Error(Shown(path))]
            case AFile => WalkEntry(tree, path, e, chain) == [Found(FileKind, Shown(path))]
            case ALink => WalkEntry(tree, path, e, chain) == [Found(LinkKind, Shown(path))]
            case ADirectory(dir, via) =>
              WalkEntry(tree, path, e, chain)
              == [Found(DirectoryKind, Shown(path))]
               + if tree.recursive then WalkDir(tree, path, false, dir, Extended(chain, via)) else []
  {
    hide WalkEntries;
  }

  /** A name that does not fit ends the directory with an error. */
  lemma TooLongYields(tree: Tree, l: Level, f: Frame, chain: set<Inode>)
    requires f.reading && f.pathLength.Some? && !f.done && f.rest != [] && |l.base + f.rest[0].name| > PATH_MAX
    ensures Yields(tree, IsError, l.base + f.rest[0].name, chain, FramePending(tree, f, l, false), [])
  {
  }

  lemma EndYields(tree: Tree, l: Level, f: Frame, chain: set<Inode>)
    requires f.reading && f.pathLength.Some? && !f.done && f.rest == []
    ensures Yields(tree, if f.dir.readFails then IsError else IsDone, l.base, chain, FramePending(tree, f, l, false), [])
  {
  }

  /** Starting to read turns what a directory has to report into what its entries have to. */
  lemma StartYields(tree: Tree, l: Level, f: Frame, root: bool, k: nat)
    requires !f.reading && !f.done && f.dir.opens && |Base(l.base, root)| <= PATH_MAX
    ensures FramePending(tree, f.(reading := true, rest := f.dir.entries, pathLength := Some(k)),
                         l.(base := Base(l.base, root)), root) == FramePending(tree, f, l, root)
  {
  }

  /** Without room for the separator that fails, and what follows is undefined. */
  lemma NoRoomYields(tree: Tree, l: Level, f: Frame, chain: set<Inode>)
    requires !f.reading && !f.done && f.dir.opens && f.pathLength.None? && |Base(l.base, false)| > PATH_MAX
    ensures Yields(tree, IsError, l.base, chain, FramePending(tree, f, l, false),
                   FramePending(tree, f.(reading := true, rest := f.dir.entries), l, false))
  {
  }

  lemma PushPending(tree: Tree, stack: seq<Frame>, plan: seq<Level>, f: Frame, l: Level)
    requires |plan| == |stack| > 0 && !f.reading && !f.done
    ensures Below(stack + [f]) == stack
    ensures StackPending(tree, stack + [f], plan + [l]) + [Finished]
         == WalkDir(tree, l.base, false, f.dir, l.seen) + (StackPending(tree, stack, plan) + [Finished])
  {
    assert Below(stack + [f]) == stack && Below(plan + [l]) == plan;
    assert StackPending(tree, stack + [f], plan + [l])
        == WalkDir(tree, l.base, false, f.dir, l.seen) + StackPending(tree, stack, plan);
  }

  function Reported(event: Option<Event>): seq<Event> {
    if event.None? then [] else [event.value]
  }

  lemma FlattenReported(event: Option<Event>)
    ensures Reported(event) == if event.None? then [] else [event.value]
    ensures Flatten(Reported(event)) == if event.None? then [] else Pair(event.value)
  {
    assert event.Some? ==> Pair(event.value) + Flatten([]) == Pair(event.value);
  }

  /** Adding a reported event to those reported before. */
  lemma Accumulate(events: seq<Event>, event: Option<Event>, pending: seq<Event>)
    ensures |Reported(event)| == if event.None? then 0 else 1
    ensures events + (Reported(event) + pending) == events + Reported(event) + pending
    ensures Flatten(events + Reported(event)) == Flatten(events) + Flatten(Reported(event))
  {
    FlattenAppend(events, Reported(event));
  }

  /** What comes next is what the top frame has to report. */
  lemma TopDefined(tree: Tree, stack: seq<Frame>, plan: seq<Level>)
    requires |plan| == |stack| > 0 && Defined(StackPending(tree, stack, plan) + [Finished])
    ensures Defined(FramePending(tree, Top(stack), Top(plan), |stack| == 1))
  {
  }

  /** What a step of the top frame means for the whole stack. */
  lemma StepPending(tree: Tree, stack0: seq<Frame>, plan0: seq<Level>, stack: seq<Frame>, plan: seq<Level>,
                    found: ListType, full: string, chain: set<Inode>)
    requires |plan| == |stack| == |plan0| == |stack0| > 0 && Below(stack) == Below(stack0) && Below(plan) == Below(plan0)
    requires Yields(tree, found, full, chain, FramePending(tree, Top(stack0), Top(plan0), |stack| == 1),
                    FramePending(tree, Top(stack), Top(plan), |stack| == 1))
    ensures var before, after := StackPending(tree, stack0, plan0), StackPending(tree, stack, plan);
            match found
            case IsFile => before == [Found(FileKind, Shown(full))] + after
            case IsLink => before == [Found(LinkKind, Shown(full))] + after
            case IsError => before == [Error(Shown(full))] + after
            case IsDone => before == StackPending(tree, Below(stack), Below(plan))
            case IsDirectory(dir) =>
              before == [Found(DirectoryKind, Shown(full))]
                        + ((if tree.recursive then WalkDir(tree, full, false, dir, chain) else []) + after)
  {
    hide FramePending, WalkDir, Top, Below;
    var below := StackPending(tree, Below(stack), Below(plan));
    var top := FramePending(tree, Top(stack), Top(plan), |stack| == 1);
    match found
    case IsDone =>
    case IsDirectory(dir) =>
      var inside := if tree.recursive then WalkDir(tree, full, false, dir, chain) else [];
      assert [Found(DirectoryKind, Shown(full))] + inside + top + below == [Found(DirectoryKind, Shown(full))] + (inside + (top + below));
    case IsFile => assert [Found(FileKind, Shown(full))] + top + below == [Found(FileKind, Shown(full))] + (top + below);
    case IsLink => assert [Found(LinkKind, Shown(full))] + top + below == [Found(LinkKind, Shown(full))] + (top + below);
    case IsError => assert [Error(Shown(full))] + top + below == [Error(Shown(full))] + (top + below);
  }

  function Total(capacities: seq<nat>): nat {
    if capacities == [] then 0 else capacities[0] + Total(capacities[1..])
  }

  lemma TotalNext(capacities: seq<nat>, i: nat)
    requires i < |capacities|
    ensures Total(capacities[..i + 1]) == Total(capacities[..i]) + capacities[i]
  {
    if i == 0 {
      assert capacities[..1] == [capacities[0]];
    } else {
      TotalNext(capacities[1..], i - 1);
      assert capacities[..i + 1][1..] == capacities[1..][..i] && capacities[..i][1..] == capacities[1..][..i - 1];
    }
  }

  lemma {:induction false} TotalGrows(capacities: seq<nat>, i: nat)
    requires i <= |capacities|
    ensures Total(capacities[..i]) <= Total(capacities)
    decreases |capacities| - i
  {
    if i == |capacities| {
      assert capacities[..i] == capacities;
    } else {
      TotalNext(capacities, i);
      TotalGrows(capacities, i + 1);
    }
  }

  predicate Even(n: nat) {
    n % 2 == 0
  }

  /** With an even length, no pair is ever cut in two. */
  lemma RoomForPair(n: nat, length: nat)
    requires Even(length) && 2 * n < length
    ensures 2 * n + 2 <= length
  {
  }

  /** How many of `n` events fit. */
  function Fitting(n: nat, capacity: nat): (count: nat)
    ensures count <= n
  {
    if capacity / 2 <= n then capacity / 2 else n
  }

  lemma FittingAdds(n: nat, a: nat, b: nat)
    requires Even(a) && Even(b)
    ensures Fitting(n, a) + Fitting(n - Fitting(n, a), b) == Fitting(n, a + b) && Even(a + b)
  {
    assert (a + b) / 2 == a / 2 + b / 2;
  }

  lemma NothingFits(events: seq<Event>, capacities: seq<nat>)
    ensures Total(capacities[..0]) == 0 && Even(0) && Fitting(|events|, 0) == 0 && Flatten(events[..0]) == []
  {
  }

  lemma DropDefined(events: seq<Event>, done: nat, n: nat, m: nat)
    requires DefinedFor(events, n) && done <= |events| && done + m <= n
    ensures DefinedFor(events[done..], m)
  {
  }

  /** What is left of defined events after a first batch is defined as far as the next goes. */
  lemma StillDefined(events: seq<Event>, before: nat, capacity: nat, total: nat)
    requires DefinedFor(events, total / 2) && before + capacity <= total && Even(before)
    ensures DefinedFor(events[Fitting(|events|, before)..], capacity / 2)
  {
    DropDefined(events, Fitting(|events|, before), total / 2, capacity / 2);
  }

  /** As long as there is room, the next event is defined. */
  lemma NextDefined(reported: seq<Event>, pending: seq<Event>, n: nat)
    requires DefinedFor(reported + pending, n) && |reported| < n
    ensures Defined(pending)
  {
    if pending != [] {
      assert (reported + pending)[|reported|] == pending[0];
    }
  }

  /** A batch that fills the array, or leaves nothing, holds as many events as fit. */
  lemma FullBatch(events: seq<Event>, pending: seq<Event>, capacity: nat)
    requires 2 * |events| <= capacity && (pending == [] || 2 * |events| == capacity)
    ensures Fitting(|events + pending|, capacity) == |events|
    ensures (events + pending)[..|events|] == events && (events + pending)[|events|..] == pending
  {
  }

  lemma FlattenBatch(events: seq<Event>, done: nat, count: nat)
    requires done + count <= |events|
    ensures Flatten(events[..done]) + Flatten(events[done..][..count]) == Flatten(events[..done + count])
    ensures events[done..][count..] == events[done + count..]
  {
    assert events[..done + count] == events[..done] + events[done..][..count];
    FlattenAppend(events[..done], events[done..][..count]);
  }

  lemma UnopenableYields(tree: Tree, l: Level, f: Frame, root: bool, chain: set<Inode>)
    requires !f.reading && !f.done && !f.dir.opens
    ensures Yields(tree, IsError, Shown(l.base), chain, FramePending(tree, f, l, root),
                   FramePending(tree, f.(done := true), l, root))
  {
  }

  // ---- Responses.

  /** A slot of the response array. */
  datatype Slot = Unset | Type(code: nat) | Path(text: string) | Failure(text: string) | Nothing

  /** What is written for an event: its type, and what goes with it. */
  function Pair(e: Event): (s: seq<Slot>)
    ensures |s| == 2
  {
    match e
    case Found(FileKind, p) => [Type(0), Path(p)]
    case Found(DirectoryKind, p) => [Type(1), Path(p)]
    case Found(LinkKind, p) => [Type(2), Path(p)]
    case Error(p) => [Type(3), Failure(p)]
    case Finished => [Type(4), Nothing]
    case Undefined => [Unset, Unset]
  }

  function Flatten(events: seq<Event>): (s: seq<Slot>)
    ensures |s| == 2 * |events|
  {
    if events == [] then [] else Pair(events[0]) + Flatten(events[1..])
  }

  lemma FlattenAppend(a: seq<Event>, b: seq<Event>)
    ensures Flatten(a + b) == Flatten(a) + Flatten(b)
  {
    if a == [] {
      assert a + b == b;
    } else {
      assert (a + b)[1..] == a[1..] + b;
      FlattenAppend(a[1..], b);
    }
  }

  lemma FlattenTwo(a: Event, b: Event)
    ensures Flatten([a, b]) == Pair(a) + Pair(b)
  {
    assert [a, b][1..] == [b] && [b][1..] == [];
  }

  /** How a response is read: pairs of a type and what goes with it. */
  function ReadPair(tag: Slot, value: Slot): Option<Event> {
    match (tag, value)
    case (Type(0), Path(p)) => Some(Found(FileKind, p))
    case (Type(1), Path(p)) => Some(Found(DirectoryKind, p))
    case (Type(2), Path(p)) => Some(Found(LinkKind, p))
    case (Type(3), Failure(p)) => Some(Error(p))
    case (Type(4), Nothing) => Some(Finished)
    case _ => None
  }

  function ReadResponse(slots: seq<Slot>): Option<seq<Event>> {
    if slots == [] then Some([])
    else if |slots| == 1 || ReadPair(slots[0], slots[1]).None? || ReadResponse(slots[2..]).None? then None
    else Some([ReadPair(slots[0], slots[1]).value] + ReadResponse(slots[2..]).value)
  }

  lemma PairReadsBack(e: Event)
    requires e != Undefined
    ensures ReadPair(Pair(e)[0], Pair(e)[1]) == Some(e)
  {
  }

  /** The reader of a batch recovers exactly the events written. */
  lemma {:induction false} ResponseReadsBack(events: seq<Event>)
    requires Undefined !in events
    ensures ReadResponse(Flatten(events)) == Some(events)
  {
    if events != [] {
      var slots := Flatten(events);
      assert slots[0] == Pair(events[0])[0] && slots[1] == Pair(events[0])[1] && slots[2..] == Flatten(events[1..]);
      assert [events[0]] + events[1..] == events;
      PairReadsBack(events[0]);
      ResponseReadsBack(events[1..]);
    }
  }

  class Lister {
    const tree: Tree
    const error: bool
    var stack: seq<Frame>
    const buffer: PathBuffer
    var nodes: map<Ptr, LinkNode>
    var nextPtr: Ptr
    ghost var freed: set<Ptr>
    ghost var plan: seq<Level>
    ghost var spine: seq<Ptr>
    ghost var inodes: seq<Inode>
    var response: array<Slot>
    var index: nat

    ghost predicate LinksOk()
      reads this`nodes, this`nextPtr, this`freed, this`stack, this`plan, this`spine, this`inodes
    {
      ChainOk(nodes, spine, inodes) && LevelsOk(stack, plan, spine, inodes) && AllocationOk(nodes, freed, nextPtr)
    }

    /** What the path buffer shows. */
    ghost function Path(): Buffer
      reads buffer
    {
      buffer.View()
    }

    ghost predicate Valid()
      reads this`nodes, this`nextPtr, this`freed, this`stack, this`plan, this`spine, this`inodes, buffer, buffer.data
    {
      |plan| == |stack| && LinksOk() && buffer.Valid() && PathsOk(stack, plan, Path())
    }

    /** What the listing has still to report. */
    ghost function Pending(): (events: seq<Event>)
      requires Valid()
      reads this`nodes, this`nextPtr, this`freed, this`stack, this`plan, this`spine, this`inodes, buffer, buffer.data
      ensures stack == [] ==> events == []
    {
      if stack == [] then [] else StackPending(tree, stack, plan) + [Finished]
    }

    ghost function TopPending(): seq<Event>
      requires |plan| == |stack| > 0
      reads this`stack, this`plan
    {
      FramePending(tree, Top(stack), Top(plan), |stack| == 1)
    }

    /** The chain of the top frame is the whole spine. */
    ghost predicate OnSpine()
      requires stack != []
      reads this`stack, this`spine
    {
      Top(stack).link == At(spine, |spine|)
    }

    /** A listing of the directory that `dirName`, as the path buffer shows it, denotes. The
        name is refused when it does not fit the buffer. */
    constructor (tree: Tree, root: Directory, dirName: Name)
      ensures this.tree == tree && error == (|dirName| > PATH_MAX) && fresh(response) && fresh(buffer) && fresh(buffer.data) && stack != []
      ensures !error ==> Valid() && Pending() == WalkDir(tree, dirName, true, root, {}) + [Finished]
    {
      AddShows("", dirName);
      var path := new PathBuffer();
      var ok := path.Add(dirName);
      this.tree, buffer, error := tree, path, !ok;
      stack := [Frame(root, false, false, [], None, None)];
      nodes, nextPtr := map[], 0;
      response, index := new Slot[0], 0;
      freed, plan, spine, inodes := {}, [Level(dirName, 0, {})], [], [];
      new;
      assert "" + dirName == dirName;
      assert inodes[..0] == [] && Elements(inodes) == {};
      assert ChainOk(nodes, spine, inodes);
      assert LevelsOk(stack, plan, spine, inodes);
      assert AllocationOk(nodes, freed, nextPtr);
      assert Below(stack) == [] && Below(plan) == [];
      assert StackPending(tree, stack, plan) == TopPending() + [];
    }

    // ---- Links.

    /** Deletes a node: it has to be live. */
    method Delete(p: Ptr)
      requires p in nodes && AllocationOk(nodes, freed, nextPtr)
      modifies this`nodes, this`freed
      ensures nodes == old(nodes) - {p} && freed == old(freed) + {p} && AllocationOk(nodes, freed, nextPtr)
    {
      nodes := nodes - {p};
      freed := freed + {p};
    }

    /** Deletes the last node of the spine. */
    method DropLast(p: Ptr)
      requires ChainOk(nodes, spine, inodes) && AllocationOk(nodes, freed, nextPtr) && spine != [] && p == Top(spine)
      modifies this`nodes, this`freed, this`spine, this`inodes
      ensures ChainOk(nodes, spine, inodes) && AllocationOk(nodes, freed, nextPtr)
      ensures spine == Below(old(spine)) && inodes == Below(old(inodes))
    {
      DropChain(nodes, spine, inodes);
      hide ChainOk, AllocationOk;
      Delete(p);
      spine, inodes := Below(spine), Below(inodes);
    }

    method ResetLink()
      requires LinksOk() && stack != []
      modifies this`stack, this`nodes, this`freed, this`spine, this`inodes
      ensures LinksOk()
      ensures var k := Top(plan).level;
              && |spine| == k && spine == old(spine)[..k] && inodes == old(inodes)[..k]
              && stack == WithLink(old(stack), At(spine, k))
    {
      OwnedLink(stack, plan, spine, inodes);
      InheritedLevels(stack, plan, spine, inodes);
      TakeOrBelow(spine, Top(plan).level);
      TakeOrBelow(inodes, Top(plan).level);
      hide LevelsOk, ChainOk, AllocationOk, Distinct, Below, Top, WithTop;
      var n := |stack| - 1;
      var link := Top(stack).link;
      if link.Some? && (n == 0 || stack[n - 1].link != link) {
        DropLast(link.value);
        link := None;
      }
      if n > 0 {
        link := stack[n - 1].link;
      }
      stack := WithTop(stack, Top(stack).(link := link));
    }

    /** Whether the link is on the current chain. */
    method OnChain(inode: Inode) returns (found: bool)
      requires LinksOk() && stack != [] && OnSpine()
      ensures found <==> inode in inodes
    {
      hide LevelsOk;
      var previous := Top(stack).link;
      ghost var k: nat := |spine|;
      while previous.Some?
        invariant k <= |spine| && previous == At(spine, k)
        invariant forall i :: k <= i < |spine| ==> inodes[i] != inode
        decreases k
      {
        assert spine[k - 1] in Elements(spine);
        assert nodes[spine[k - 1]] == LinkNode(inodes[k - 1], At(spine, k - 1));
        if nodes[previous.value].inode == inode {
          return true;
        }
        previous, k := nodes[previous.value].next, k - 1;
      }
      return false;
    }

    /** Puts a node for the link on the current chain. */
    method Follow(inode: Inode)
      requires LinksOk() && stack != [] && |spine| == Top(plan).level && OnSpine() && inode !in inodes
      modifies this`stack, this`nodes, this`nextPtr, this`spine, this`inodes
      ensures LinksOk() && inodes == old(inodes) + [inode]
      ensures stack == WithLink(old(stack), At(spine, |spine|))
    {
      var p := nextPtr;
      NewNode(nodes, freed, p, LinkNode(inode, At(spine, |spine|)));
      ExtendChain(nodes, spine, inodes, p, inode);
      ExtendLevels(stack, plan, spine, inodes, p, inode);
      hide LevelsOk, ChainOk, AllocationOk;
      nodes := nodes[p := LinkNode(inode, Top(stack).link)];
      nextPtr := nextPtr + 1;
      stack := WithLink(stack, Some(p));
      spine, inodes := spine + [p], inodes + [inode];
    }

    // ---- Entries.

    /** Looks through a link, unless that would close a loop. */
    method Resolve(name: string, inode: Inode) returns (found: Option<ListType>)
      requires LinksOk() && stack != [] && |spine| == Top(plan).level && OnSpine()
      modifies this`stack, this`nodes, this`nextPtr, this`spine, this`inodes
      ensures LinksOk() && stack == WithLink(old(stack), At(spine, |spine|))
      ensures if inode in old(inodes) || TargetOf(tree, inode).Broken? then found == Some(IsLink)
              else if TargetOf(tree, inode).ToFile? then found == Some(IsFile)
              else if IsDots(name) then found == None
              else found == Some(IsDirectory(TargetOf(tree, inode).dir)) && Elements(inodes) == Elements(old(inodes)) + {inode}
    {
      hide LevelsOk, ChainOk;
      assert stack == WithLink(stack, At(spine, |spine|));
      var loops := OnChain(inode);
      if loops {
        return Some(IsLink);
      }
      match TargetOf(tree, inode)
      case Broken => return Some(IsLink);
      case ToFile => return Some(IsFile);
      case ToDirectory(dir) =>
        ElementsOfLonger(inodes, inode);
        Follow(inode);
        return if IsDots(name) then None else Some(IsDirectory(dir));
    }

    /** Finds out what an entry is, by the type the directory gave or by asking for the status
        of what the path buffer shows. */
    method Identify(e: Entry) returns (found: Option<ListType>)
      requires LinksOk() && stack != [] && |spine| == Top(plan).level && OnSpine()
      modifies this`stack, this`nodes, this`nextPtr, this`spine, this`inodes
      ensures LinksOk() && stack == WithLink(old(stack), At(spine, |spine|))
      ensures Identified(tree, Elements(old(inodes)), e, buffer.length == PATH_MAX, found, Elements(inodes))
    {
      hide LevelsOk, ChainOk;
      assert stack == WithLink(stack, At(spine, |spine|));
      var cut := buffer.length == PATH_MAX;
      if e.typeKnown && e.node.Dir? {
        return if IsDots(e.name) then None else Some(IsDirectory(Opened(tree, e, cut)));
      } else if e.typeKnown && e.node.File? {
        return Some(IsFile);
      } else if e.typeKnown && !tree.follow {
        return Some(IsLink);
      }
      var status := Status(e, cut);
      if status.None? {
        return Some(IsError);
      }
      if tree.follow && status.value.Link? {
        found := Resolve(e.name, status.value.inode);
        return;
      }
      match status.value
      case Dir(dir) => return if IsDots(e.name) then None else Some(IsDirectory(dir));
      case Link(_) => return Some(IsLink);
      case File => return Some(IsFile);
    }

    // ---- The top frame.

    /** Replaces the top frame and what it stands for, for which the path buffer is ready. */
    method Install(f: Frame, ghost l: Level)
      requires |plan| == |stack| && LinksOk() && buffer.Valid() && stack != []
      requires LevelsOk(WithTop(stack, f), WithTop(plan, l), spine, inodes)
      requires PathsOk(WithTop(stack, f), WithTop(plan, l), Path())
      modifies this`stack, this`plan
      ensures Valid() && stack == WithTop(old(stack), f) && plan == WithTop(old(plan), l)
    {
      hide LevelsOk, ChainOk, PathsOk, AllocationOk, WithTop;
      stack, plan := WithTop(stack, f), WithTop(plan, l);
    }

    /** Replaces the top frame, all but its link. */
    method Move(f: Frame)
      requires |plan| == |stack| && LinksOk() && buffer.Valid() && stack != [] && f.link == Top(stack).link
      requires PathsOk(WithTop(stack, f), plan, Path())
      modifies this`stack
      ensures Valid() && stack == WithTop(old(stack), f)
    {
      SameLevels(stack, plan, spine, inodes, f);
      hide *;
      stack := WithTop(stack, f);
    }

    /** Goes back to the top directory's own path and chain. */
    method Rewind()
      requires Valid() && stack != [] && Top(stack).reading && Top(stack).pathLength.Some?
      modifies this`stack, buffer, buffer.data, this`nodes, this`freed, this`spine, this`inodes
      ensures Valid()
      ensures var l := Top(plan);
              && |spine| == l.level && Elements(inodes) == l.seen
              && stack == WithLink(old(stack), At(spine, |spine|))
              && Path() == Showing(l.base) && Top(stack).pathLength == Some(|l.base|)
              && Under(l.base, Path().text) && |Path().text| < PATH_MAX
    {
      var top := Top(stack);
      OpenFrame(stack, plan, Path());
      SeenByTop(stack, plan, spine, inodes);
      NamePath(Path(), Top(plan).base, "");
      LinkPaths(stack, plan, Path());
      assert Top(plan).base + "" == Top(plan).base;
      hide *;
      buffer.Reset(top.pathLength.value);
      ResetLink();
    }

    /** What the next entry of an open directory is, with the path buffer showing it. */
    method IdentifyNext(e: Entry) returns (found: Option<ListType>)
      requires Valid() && stack != [] && |spine| == Top(plan).level && OnSpine()
      modifies this`stack, this`nodes, this`nextPtr, this`spine, this`inodes
      ensures Valid() && stack == WithLink(old(stack), At(spine, |spine|))
      ensures Identified(tree, Elements(old(inodes)), e, buffer.length == PATH_MAX, found, Elements(inodes))
    {
      LinkPaths(stack, plan, Path());
      hide *;
      found := Identify(e);
    }

    /** One entry of an open directory. Without a result the entry was skipped. */
    method ReadOne() returns (found: Option<ListType>, ghost full: string)
      requires Valid() && stack != []
      requires Top(stack).reading && Top(stack).pathLength.Some? && !Top(stack).done
      modifies this`stack, buffer, buffer.data, this`nodes, this`nextPtr, this`freed, this`spine, this`inodes
      ensures Valid() && |stack| == old(|stack|) && Below(stack) == old(Below(stack)) && Top(stack).reading
      ensures Path().text == Shown(full)
      ensures found == Some(IsDone) ==> Top(stack).done
      ensures found.Some? && found.value.IsDirectory? ==>
                Path() == Showing(full) && |full| <= PATH_MAX && Top(plan).base <= full && OnSpine()
      ensures match found
              case Some(t) => Yields(tree, t, full, Elements(inodes), old(TopPending()), TopPending())
              case None =>
                && !Top(stack).done && Top(stack).pathLength.Some? && |Top(stack).rest| < old(|Top(stack).rest|)
                && TopPending() == old(TopPending())
    {
      hide LevelsOk, ChainOk, PathsOk, AllocationOk, Under, WalkEntries, WalkDir, AddTo, Elements, At, Yields,
           Identified, Top, Below, WithTop, IsCut;
      Rewind();
      var top := Top(stack);
      if top.rest == [] {
        EndYields(tree, Top(plan), top, Elements(inodes));
        full := Top(plan).base;
        TopPaths(stack, plan, Path(), top.(done := true), Path());
        Move(top.(done := true));
        return Some(if top.dir.readFails then IsError else IsDone), full;
      }
      var e := top.rest[0];
      full := Top(plan).base + e.name;
      NamePath(Path(), Top(plan).base, e.name);
      CutIsFull(Top(plan).base, e.name);
      ghost var (p, fits) := AddTo(Path(), e.name);
      ghost var next := top.(rest := top.rest[1..], done := !fits);
      TopPaths(stack, plan, Path(), next, p);
      var ok := buffer.Add(e.name);
      Move(top.(rest := top.rest[1..], done := !ok));
      if !ok {
        TooLongYields(tree, Top(plan), top, Elements(inodes));
        return Some(IsError), full;
      }
      found := IdentifyNext(e);
      EntryYields(tree, Top(plan), top, found, Elements(inodes));
    }

    /** The next entry of an open directory that is not skipped. */
    method ReadNext() returns (found: ListType, ghost full: string)
      requires Valid() && stack != []
      requires Top(stack).reading && Top(stack).pathLength.Some? && !Top(stack).done
      modifies this`stack, buffer, buffer.data, this`nodes, this`nextPtr, this`freed, this`spine, this`inodes
      ensures Valid() && |stack| == old(|stack|) && Below(stack) == old(Below(stack)) && Top(stack).reading
      ensures Path().text == Shown(full)
      ensures found.IsDone? ==> Top(stack).done
      ensures found.IsDirectory? ==> Path() == Showing(full) && |full| <= PATH_MAX && Top(plan).base <= full && OnSpine()
      ensures Yields(tree, found, full, Elements(inodes), old(TopPending()), TopPending())
      decreases |Top(stack).rest|
    {
      hide *;
      var one;
      one, full := ReadOne();
      match one
      case Some(t) => return t, full;
      case None =>
        found, full := ReadNext();
    }

    /** Opens the top directory and appends the separator to its path, if there is room. */
    method Start() returns (ok: bool)
      requires Valid() && stack != []
      requires !Top(stack).reading && !Top(stack).done && Top(stack).dir.opens
      modifies this`stack, buffer, buffer.data, this`plan
      ensures Valid() && |stack| == old(|stack|)
      ensures Below(stack) == old(Below(stack)) && Below(plan) == old(Below(plan))
      ensures Path().text == Shown(Top(old(plan)).base) || ok
      ensures ok ==> Top(stack).reading && Top(stack).pathLength.Some? && !Top(stack).done
      ensures ok ==> TopPending() == old(TopPending())
      ensures !ok ==> Yields(tree, IsError, Top(old(plan)).base, Elements(inodes), old(TopPending()), TopPending())
    {
      hide LevelsOk, ChainOk, PathsOk, AllocationOk, FramePending, WalkEntries, WalkDir, AddTo, Yields, Elements,
           Top, Below, WithTop;
      var n := |stack| - 1;
      var f := Top(stack).(reading := true, rest := Top(stack).dir.entries);
      ghost var l, was, path := Top(plan), Top(stack), Path();
      UnopenedFrame(stack, plan, path);
      SeparatorShows(l.base);
      ok := true;
      if n > 0 {
        assert NoNul("/");
        ok := buffer.Add("/");
      }
      if ok {
        f := f.(pathLength := Some(buffer.length));
        l := l.(base := Base(l.base, n == 0));
        StartYields(tree, Top(plan), was, n == 0, buffer.length);
      } else {
        NoRoomYields(tree, l, was, Elements(inodes));
      }
      BaseLevels(stack, plan, spine, inodes, f, l.base);
      StartPaths(stack, plan, path, f, l.base);
      Install(f, l);
    }

    method Unopenable() returns (found: ListType)
      requires Valid() && stack != []
      requires !Top(stack).reading && !Top(stack).done && !Top(stack).dir.opens
      modifies this`stack, this`plan
      ensures Valid() && |stack| == old(|stack|) && found == IsError
      ensures Below(stack) == old(Below(stack)) && plan == old(plan) && Path().text == Shown(Top(plan).base)
      ensures Yields(tree, IsError, Top(plan).base, Elements(inodes), old(TopPending()), TopPending())
    {
      var f := Top(stack).(done := true);
      UnopenedFrame(stack, plan, Path());
      SameLevels(stack, plan, spine, inodes, f);
      DonePaths(stack, plan, Path(), f);
      UnopenableYields(tree, Top(plan), Top(stack), |stack| == 1, Elements(inodes));
      assert WithTop(plan, Top(plan)) == plan;
      assert Path().text == Shown(Top(plan).base);
      hide *;
      Install(f, Top(plan));
      return IsError;
    }

    /** The next thing the top directory has to report. */
    method Next() returns (found: ListType, ghost full: string)
      requires Valid() && stack != [] && Defined(TopPending())
      modifies this`stack, buffer, buffer.data, this`plan, this`nodes, this`nextPtr, this`freed, this`spine, this`inodes
      ensures Valid() && |stack| == old(|stack|)
      ensures Below(stack) == old(Below(stack)) && Below(plan) == old(Below(plan))
      ensures found.IsDone? ==> Top(stack).done
      ensures !found.IsDone? ==> Path().text == Shown(full)
      ensures found.IsDirectory? ==>
                Path() == Showing(full) && |full| <= PATH_MAX && Top(plan).base <= full && Top(stack).reading && OnSpine()
      ensures Yields(tree, found, full, Elements(inodes), old(TopPending()), TopPending())
    {
      full := Top(plan).base;
      if Top(stack).done {
        return IsDone, full;
      }
      assert Top(stack).reading ==> Top(stack).pathLength.Some?;
      hide *;
      if !Top(stack).reading {
        if !Top(stack).dir.opens {
          found := Unopenable();
          return;
        }
        var ok := Start();
        if !ok {
          return IsError, full;
        }
      }
      found, full := ReadNext();
    }

    // ---- The stack.

    /** Goes into the directory the path buffer shows. */
    method Push(dir: Directory, ghost full: string)
      requires Valid() && stack != [] && OnSpine()
      requires Path() == Showing(full) && |full| <= PATH_MAX && Top(plan).base <= full && Top(stack).reading
      modifies this`stack, this`plan
      ensures Valid() && stack != [] && Below(stack) == old(stack)
      ensures Pending() == WalkDir(tree, full, false, dir, Elements(inodes)) + old(Pending())
    {
      hide LevelsOk, ChainOk, PathsOk, AllocationOk, StackPending, WalkDir, Elements, Below, Top, Showing, Shown, At;
      var f := Frame(dir, false, false, [], None, None);
      ghost var l := Level(full, |spine|, Elements(inodes));
      PushLevels(stack, plan, spine, inodes, f, full);
      PushPaths(stack, plan, Path(), f, l);
      PushPending(tree, stack, plan, f, l);
      stack, plan := stack + [f], plan + [l];
    }

    /** Leaves the top directory, which gives up its own node. */
    method Pop()
      requires Valid() && stack != []
      modifies this`stack, this`plan, this`nodes, this`freed, this`spine, this`inodes
      ensures Valid() && stack == old(Below(stack)) && plan == old(Below(plan))
    {
      hide LevelsOk, ChainOk, PathsOk, AllocationOk, Top, WithTop;
      LinkPaths(stack, plan, Path());
      ResetLink();
      PopLevels(stack, plan, spine, inodes);
      PopPaths(stack, plan, Path());
      stack, plan := Below(stack), Below(plan);
    }

    /** Leaves everything. Every node ever allocated is now deleted. */
    method PopAll()
      requires Valid()
      modifies this`stack, this`plan, this`nodes, this`freed, this`spine, this`inodes
      ensures Valid() && stack == [] && Pending() == [] && nodes == map[]
      ensures forall p: Ptr :: p < nextPtr <==> p in freed
    {
      while stack != []
        invariant Valid()
        decreases |stack|
      {
        hide *;
        Pop();
      }
      assert nodes.Keys == {};
    }

    // ---- Reporting.

    /** Writes one event; the result says whether the array has room left. */
    method Emit(e: Event) returns (more: bool)
      requires index + 2 <= response.Length
      modifies this`index, response
      ensures index == old(index) + 2 && response[..index] == old(response[..index]) + Pair(e)
      ensures more <==> index < response.Length
    {
      var pair := Pair(e);
      response[index], response[index + 1] := pair[0], pair[1];
      index := index + 2;
      return index < response.Length;
    }

    /** One step of the listing: it brings up at most one event, and never skips or repeats one. */
    method Advance() returns (event: Option<Event>)
      requires Valid() && stack != [] && Defined(Pending())
      modifies this`stack, buffer, buffer.data, this`plan, this`nodes, this`nextPtr, this`freed, this`spine, this`inodes
      ensures Valid() && old(Pending()) == Reported(event) + Pending()
      ensures event == None ==> stack != [] && |stack| < old(|stack|)
      ensures event.Some? ==> (stack == [] <==> event.value == Finished)
    {
      hide LevelsOk, ChainOk, PathsOk, AllocationOk, FramePending, WalkDir, Yields, Elements, Under, Top, Below, WithTop,
           At, Shown;
      TopDefined(tree, stack, plan);
      ghost var stack0, plan0 := stack, plan;
      ghost var full;
      var found;
      found, full := Next();
      StepPending(tree, stack0, plan0, stack, plan, found, full, Elements(inodes));
      hide StackPending;
      var text := buffer.AsString();
      match found
      case IsFile => return Some(Found(FileKind, text));
      case IsLink => return Some(Found(LinkKind, text));
      case IsError => return Some(Error(text));
      case IsDirectory(dir) =>
        if tree.recursive {
          Push(dir, full);
        }
        return Some(Found(DirectoryKind, text));
      case IsDone =>
        Pop();
        return if stack == [] then Some(Finished) else None;
    }

    method ListNext() returns (more: bool, ghost event: Option<Event>)
      requires Valid() && stack != [] && Defined(Pending()) && index + 2 <= response.Length
      modifies this`stack, buffer, buffer.data, this`plan, this`nodes, this`nextPtr, this`freed, this`spine, this`inodes,
               this`index, response
      ensures Valid() && old(Pending()) == Reported(event) + Pending()
      ensures event == None ==> |stack| < old(|stack|)
      ensures index == old(index) + 2 * |Reported(event)|
      ensures response[..index] == old(response[..index]) + Flatten(Reported(event))
      ensures more <==> stack != [] && index < response.Length
    {
      hide *;
      var found := Advance();
      event := found;
      more := true;
      FlattenReported(event);
      if found.Some? {
        var room := Emit(found.value);
        more := room && found.value != Finished;
      }
    }

    /** Lists until the array is full or everything has been reported. */
    method ListWhileRoom() returns (ghost events: seq<Event>)
      requires Valid() && stack != [] && DefinedFor(Pending(), response.Length / 2)
      requires index == 0 && response.Length > 0 && Even(response.Length)
      modifies this`stack, buffer, buffer.data, this`plan, this`nodes, this`nextPtr, this`freed, this`spine, this`inodes,
               this`index, response
      ensures Valid() && old(Pending()) == events + Pending()
      ensures index <= response.Length && response[..index] == Flatten(events)
      ensures Pending() == [] || index == response.Length
    {
      hide *;
      events := [];
      assert Flatten(events) == [] by {
        FlattenReported(None);
      }
      var more := true;
      while more
        invariant Valid() && old(Pending()) == events + Pending()
        invariant index == 2 * |events| <= response.Length && response[..index] == Flatten(events)
        invariant more <==> stack != [] && index < response.Length
        decreases |Pending()|, |stack|
      {
        RoomForPair(|events|, response.Length);
        NextDefined(events, Pending(), response.Length / 2);
        ghost var event := None;
        more, event := ListNext();
        Accumulate(events, event, Pending());
        events := events + Reported(event);
      }
    }

    /** Reports that the name was refused, or lists until the array is full or everything has
        been reported. */
    method List() returns (ghost events: seq<Event>)
      requires !error ==> Valid() && stack != [] && DefinedFor(Pending(), response.Length / 2)
      requires index == 0 && response.Length >= (if error then 4 else 2) && Even(response.Length)
      modifies this`stack, buffer, buffer.data, this`plan, this`nodes, this`nextPtr, this`freed, this`spine, this`inodes,
               this`index, response
      ensures index <= response.Length && response[..index] == Flatten(events)
      ensures error ==> events == [Error("Invalid path"), Finished] && stack == old(stack)
      ensures !error ==> Valid() && old(Pending()) == events + Pending()
      ensures !error ==> Pending() == [] || index == response.Length
    {
      if error {
        events := [Error("Invalid path"), Finished];
        var room := Emit(Error("Invalid path"));
        room := Emit(Finished);
        FlattenTwo(Error("Invalid path"), Finished);
      } else {
        hide *;
        events := ListWhileRoom();
      }
    }

    /** A request for the next batch, of at most `capacity` slots. Only a listing whose name
        was not refused is ever asked. */
    method ListNextRequest(capacity: nat) returns (batch: seq<Slot>)
      requires !error && Valid() && DefinedFor(Pending(), capacity / 2) && capacity > 0 && Even(capacity)
      modifies this, buffer, buffer.data
      ensures Valid()
      ensures var count := Fitting(|old(Pending())|, capacity);
              && batch == Flatten(old(Pending())[..count])
              && Pending() == old(Pending())[count..]
    {
      if stack == [] {
        FullBatch([], [], capacity);
        return [];
      }
      assert capacity >= 2;
      hide *;
      response, index := new Slot[capacity](i => Unset), 0;
      ghost var events := List();
      batch := response[..index];
      FullBatch(events, Pending(), capacity);
    }

    /** Pausing is invisible: however the requests cut the listing up, together they return
        the beginning of one unbroken listing, and all of it once their capacities suffice. */
    method ListInBatches(capacities: seq<nat>) returns (all: seq<Slot>)
      requires !error && Valid() && DefinedFor(Pending(), Total(capacities) / 2)
      requires forall i :: 0 <= i < |capacities| ==> capacities[i] > 0 && Even(capacities[i])
      modifies this, buffer, buffer.data
      ensures Valid()
      ensures var count := Fitting(|old(Pending())|, Total(capacities));
              && all == Flatten(old(Pending())[..count])
              && Pending() == old(Pending())[count..]
    {
      hide *;
      ghost var events := Pending();
      ghost var done: nat := 0;
      NothingFits(events, capacities);
      all := [];
      for i := 0 to |capacities|
        invariant Valid() && done <= |events| && Pending() == events[done..]
        invariant done == Fitting(|events|, Total(capacities[..i])) && Even(Total(capacities[..i]))
        invariant all == Flatten(events[..done])
      {
        TotalNext(capacities, i);
        TotalGrows(capacities, i + 1);
        FittingAdds(|events|, Total(capacities[..i]), capacities[i]);
        StillDefined(events, Total(capacities[..i]), capacities[i], Total(capacities));
        var batch := ListNextRequest(capacities[i]);
        ghost var count := Fitting(|events| - done, capacities[i]);
        FlattenBatch(events, done, count);
        all := all + batch;
        done := done + count;
      }
      assert capacities[..|capacities|] == capacities;
    }
  }

  /** Starts a listing, unless the name does not fit the path buffer. */
  method ListStartRequest(tree: Tree, root: Directory, dirName: Name) returns (listing: Option<Lister>)
    ensures listing.None? <==> |dirName| > PATH_MAX
    ensures listing.Some? ==>
              && fresh(listing.value) && fresh(listing.value.buffer) && fresh(listing.value.buffer.data)
              && !listing.value.error && listing.value.Valid()
              && listing.value.Pending() == WalkDir(tree, dirName, true, root, {}) + [Finished]
  {
    hide WalkDir;
    var lister := new Lister(tree, root, dirName);
    return if lister.error then None else Some(lister);
  }

  /** The events that requests of these capacities return. */
  ghost function Listed(tree: Tree, root: Directory, dirName: Name, capacities: seq<nat>): seq<Event> {
    var events := WalkDir(tree, dirName, true, root, {}) + [Finished];
    events[..Fitting(|events|, Total(capacities))]
  }

  lemma ListedReadsBack(tree: Tree, root: Directory, dirName: Name, capacities: seq<nat>)
    requires DefinedFor(WalkDir(tree, dirName, true, root, {}) + [Finished], Total(capacities) / 2)
    ensures ReadResponse(Flatten(Listed(tree, root, dirName, capacities))) == Some(Listed(tree, root, dirName, capacities))
  {
    hide WalkDir, Total;
    var events := Listed(tree, root, dirName, capacities);
    assert forall k :: 0 <= k < |events| ==> events[k] != Undefined;
    ResponseReadsBack(events);
  }

  /** A whole listing: whoever reads the responses, however many requests they came in, has the
      beginning of the walk over the directory, and all of it once the capacities suffice. The
      condition is on the directory: those at exactly the limit come late enough, if at all. */
  method ListDirectory(tree: Tree, root: Directory, dirName: Name, capacities: seq<nat>) returns (all: Option<seq<Slot>>)
    requires forall i :: 0 <= i < |capacities| ==> capacities[i] > 0 && Even(capacities[i])
    requires root.opens ==> NoneCutBefore(tree, dirName, root.entries, {}, Total(capacities) / 2)
    ensures all.None? <==> |dirName| > PATH_MAX
    ensures all.Some? ==> ReadResponse(all.value) == Some(Listed(tree, root, dirName, capacities))
  {
    var listing := ListStartRequest(tree, root, dirName);
    if listing.None? {
      return None;
    }
    ListingDefinedIff(tree, dirName, root, Total(capacities) / 2);
    ListedReadsBack(tree, root, dirName, capacities);
    hide WalkDir, NoneCutBefore, Total, Even, Fitting, Flatten, ReadResponse, DefinedFor;
    var batches := listing.value.ListInBatches(capacities);
    return Some(batches);
  }
}
