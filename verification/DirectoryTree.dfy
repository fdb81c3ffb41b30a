/** A file system tree as recursive deletion sees it: entries by location, and the paths the
    path buffer builds for them. */
module DirectoryTree {
  import opened Common
  import opened Paths
  import opened CleanPath

  /** The names on the way from the root. */
  type Loc = seq<string>

  /** Every kind of entry that is no directory and no symbolic link counts as a file. */
  datatype Kind = AFile | ADir | ALink

  type Disk = map<Loc, Kind>

  /** Everything has a name and lies in directories. */
  ghost predicate WellFormed(disk: Disk) {
    && (forall l, k :: l in disk && 0 <= k < |l| ==> l[..k] in disk && disk[l[..k]] == ADir)
    && (forall l, k :: l in disk && 0 <= k < |l| ==> IsName(l[k]) && NoNul(l[k]))
  }

  // ---- Taking things away.

  /** The disk without what lies at and under a location. */
  function Without(disk: Disk, loc: Loc): Disk {
    map l | l in disk && !(loc <= l) :: disk[l]
  }

  /** Nothing was added or changed, and nothing taken away but at and under the location. */
  ghost predicate OnlyWithin(loc: Loc, before: Disk, after: Disk) {
    && (forall l :: l in after ==> l in before && after[l] == before[l])
    && (forall l :: l in before && !(loc <= l) ==> l in after)
  }

  predicate Childless(disk: Disk, loc: Loc) {
    forall l :: l in disk && loc <= l ==> l == loc || |l| != |loc| + 1
  }

  lemma WithinTrans(loc: Loc, a: Disk, b: Disk, c: Disk)
    requires OnlyWithin(loc, a, b) && OnlyWithin(loc, b, c)
    ensures OnlyWithin(loc, a, c)
  {
  }

  lemma ChildIsWithin(loc: Loc, name: string, a: Disk, b: Disk)
    requires OnlyWithin(loc + [name], a, b)
    ensures OnlyWithin(loc, a, b)
  {
  }

  /** What has nothing in it has nothing under it either. */
  lemma NothingUnder(disk: Disk, loc: Loc, l: Loc)
    requires WellFormed(disk) && loc in disk && (disk[loc] != ADir || Childless(disk, loc))
    requires l in disk && loc <= l
    ensures l == loc
  {
    if loc != l {
      assert l[..|loc|] == loc && loc <= l[..|loc| + 1];
    }
  }

  /** Taking away an entry with nothing in it takes away all that is at and under it. */
  lemma RemoveLeaf(disk: Disk, loc: Loc)
    requires WellFormed(disk) && loc in disk && (disk[loc] != ADir || Childless(disk, loc))
    ensures disk - {loc} == Without(disk, loc) && OnlyWithin(loc, disk, disk - {loc})
  {
    forall l | l in disk && loc <= l ensures l == loc {
      NothingUnder(disk, loc, l);
    }
  }

  lemma WithoutWellFormed(disk: Disk, loc: Loc)
    requires WellFormed(disk)
    ensures WellFormed(Without(disk, loc)) && OnlyWithin(loc, disk, Without(disk, loc))
  {
    var rest := Without(disk, loc);
    forall l, k | l in rest && 0 <= k < |l| ensures l[..k] in rest && rest[l[..k]] == ADir {
      assert l[..k] in disk && disk[l[..k]] == ADir;
      assert loc <= l[..k] ==> loc <= l;
    }
  }

  // ---- Paths.

  /** What follows the top directory's own path. */
  function Suffix(rel: Loc): string {
    if rel == [] then "" else "/" + Join(rel)
  }

  function PathTo(top: string, rel: Loc): string {
    top + Suffix(rel)
  }

  lemma SuffixOfChild(rel: Loc, name: string)
    ensures Suffix(rel + [name]) == Suffix(rel) + "/" + name
  {
    assert (rel + [name])[..|rel|] == rel;
    if rel == [] {
      assert Join(rel + [name]) == name;
    } else {
      assert Join(rel + [name]) == Join(rel) + "/" + name;
    }
  }

  lemma PathToChild(top: string, rel: Loc, name: string)
    ensures PathTo(top, rel + [name]) == PathTo(top, rel) + "/" + name
  {
    SuffixOfChild(rel, name);
    hide Suffix;
    assert top + (Suffix(rel) + "/" + name) == top + Suffix(rel) + "/" + name;
  }

  function Parent(loc: Loc): Loc {
    if loc == [] then [] else loc[..|loc| - 1]
  }

  /** Where the components of a path lead. Only directories are walked through; a link
      further along would be followed, which nothing here relies on. */
  function Lookup(disk: Disk, at: Loc, names: seq<string>): Option<Loc>
    decreases |names|
  {
    if names == [] then Some(at)
    else if at !in disk || disk[at] != ADir then None
    else
      var next := if names[0] == "." then at else if names[0] == ".." then Parent(at) else at + [names[0]];
      Lookup(disk, next, names[1..])
  }

  /** What a path denotes, given that `top` denotes the location `at`. */
  function Resolve(disk: Disk, top: string, at: Loc, text: string): Option<Loc> {
    if top <= text && (|text| == |top| || text[|top|] == '/') then Lookup(disk, at, Components(text[|top|..]))
    else None
  }

  lemma {:induction false} LookupDown(disk: Disk, at: Loc, rel: Loc, more: seq<string>)
    requires WellFormed(disk) && at + rel in disk
    ensures Lookup(disk, at, rel + more) == Lookup(disk, at + rel, more)
    decreases |rel|
  {
    if rel == [] {
      assert rel + more == more && at + rel == at;
    } else {
      assert (at + rel)[..|at|] == at && (at + rel)[|at|] == rel[0];
      assert (rel + more)[1..] == rel[1..] + more && at + [rel[0]] + rel[1..] == at + rel;
      LookupDown(disk, at + [rel[0]], rel[1..], more);
    }
  }

  lemma ComponentsOfSuffix(rel: Loc, rest: string)
    requires (forall i :: 0 <= i < |rel| ==> IsComponent(rel[i])) && (rest == "" || rest[0] == '/')
    ensures Components(Suffix(rel) + rest) == rel + Components(rest)
  {
    ComponentsOfJoin(rel, rest);
    if rel == [] {
      assert Suffix(rel) + rest == rest;
    } else {
      assert Suffix(rel) + rest == "/" + (Join(rel) + rest);
      assert ("/" + (Join(rel) + rest))[1..] == Join(rel) + rest;
    }
  }

  lemma NamesOfEntry(disk: Disk, at: Loc, rel: Loc)
    requires WellFormed(disk) && at + rel in disk
    ensures forall i :: 0 <= i < |rel| ==> IsComponent(rel[i])
  {
    forall i | 0 <= i < |rel| ensures IsComponent(rel[i]) {
      assert (at + rel)[|at| + i] == rel[i];
    }
  }

  lemma ResolveBehind(disk: Disk, top: string, at: Loc, tail: string)
    requires tail == "" || tail[0] == '/'
    ensures Resolve(disk, top, at, top + tail) == Lookup(disk, at, Components(tail))
  {
    hide Components, Lookup;
    assert (top + tail)[|top|..] == tail;
  }

  /** A built path with something behind it denotes what that leads to from the entry. */
  lemma ResolveBuilt(disk: Disk, top: string, at: Loc, rel: Loc, rest: string)
    requires WellFormed(disk) && at + rel in disk && (rest == "" || rest[0] == '/')
    ensures Resolve(disk, top, at, PathTo(top, rel) + rest) == Lookup(disk, at + rel, Components(rest))
  {
    hide WellFormed, Components, Lookup, Join, Resolve;
    NamesOfEntry(disk, at, rel);
    ComponentsOfSuffix(rel, rest);
    LookupDown(disk, at, rel, Components(rest));
    assert PathTo(top, rel) + rest == top + (Suffix(rel) + rest);
    ResolveBehind(disk, top, at, Suffix(rel) + rest);
  }

  /** Where one more name leads from a directory. */
  function Onward(loc: Loc, name: string): Loc {
    if name == "" || name == "." then loc else if name == ".." then Parent(loc) else loc + [name]
  }

  lemma LookupOne(disk: Disk, loc: Loc, name: string)
    requires loc in disk && disk[loc] == ADir && '/' !in name
    ensures Lookup(disk, loc, Components("/" + name)) == Some(Onward(loc, name))
  {
    if name == "" {
      assert "/" + name == "/";
    } else {
      ComponentsCons(name, "");
      assert "/" + name + "" == "/" + name;
      hide Components;
      assert [name][1..] == [] && [name] + [] == [name];
    }
  }

  /** A directory's path with one more name behind it denotes what the name leads to. */
  lemma ResolveStep(disk: Disk, top: string, at: Loc, rel: Loc, name: string)
    requires WellFormed(disk) && at + rel in disk && disk[at + rel] == ADir && '/' !in name
    ensures Resolve(disk, top, at, PathTo(top, rel) + "/" + name) == Some(Onward(at + rel, name))
  {
    hide WellFormed, Resolve, Lookup, PathTo, Components;
    ResolveBuilt(disk, top, at, rel, "/" + name);
    LookupOne(disk, at + rel, name);
    assert PathTo(top, rel) + ("/" + name) == PathTo(top, rel) + "/" + name;
  }

  lemma ResolveTop(disk: Disk, top: string, at: Loc)
    ensures Resolve(disk, top, at, top) == Some(at)
  {
    ResolveBehind(disk, top, at, "");
    assert top + "" == top;
  }

  /** With a separator behind it, or as much of one as fits, a directory's path denotes it. */
  lemma ResolveDirectory(disk: Disk, top: string, at: Loc, rel: Loc)
    requires WellFormed(disk) && at + rel in disk && disk[at + rel] == ADir && |PathTo(top, rel)| < PATH_MAX
    ensures Resolve(disk, top, at, Shown(PathTo(top, rel) + "/")) == Some(at + rel)
  {
    hide WellFormed, Resolve, PathTo;
    ResolveStep(disk, top, at, rel, "");
    ResolveBuilt(disk, top, at, rel, "");
    assert PathTo(top, rel) + "/" + "" == PathTo(top, rel) + "/" && PathTo(top, rel) + "" == PathTo(top, rel);
    assert (PathTo(top, rel) + "/")[..|PathTo(top, rel)|] == PathTo(top, rel);
  }

  // ---- Names that are cut short.

  /** What the path buffer shows of a name behind its directory's path: all of it, or all but
      the last character when the path has exactly PATH_MAX characters. */
  function NameShown(dir: string, name: string): string {
    if NameIsCut(dir, name) then name[..|name| - 1] else name
  }

  predicate NameIsCut(dir: string, name: string) {
    IsCut(dir + "/" + name) && name != ""
  }

  lemma PathShown(dir: string, name: string)
    requires name != "" && |dir + "/" + name| <= PATH_MAX
    ensures Shown(dir + "/" + name) == dir + "/" + NameShown(dir, name)
  {
    if NameIsCut(dir, name) {
      assert (dir + "/" + name)[..PATH_MAX - 1] == dir + "/" + name[..|name| - 1];
    }
  }

  /** What is under an existing directory, by name. */
  ghost predicate HasParent(disk: Disk, at: Loc, rel: Loc) {
    rel == [] ||
    var n := |rel| - 1; at + rel[..n] in disk && disk[at + rel[..n]] == ADir && IsComponent(rel[n])
  }

  /** What the buffer denotes when a location's path has been built up in it, given what its
      top directory's path denotes there: the location, unless its path is cut short. */
  function Aim(top: string, at: Loc, rel: Loc): Loc {
    if rel == [] then at
    else var n := |rel| - 1; Onward(at + rel[..n], NameShown(PathTo(top, rel[..n]), rel[n]))
  }

  lemma AimOfChild(top: string, at: Loc, rel: Loc, name: string)
    ensures Aim(top, at, rel + [name]) == Onward(at + rel, NameShown(PathTo(top, rel), name))
  {
    assert (rel + [name])[..|rel|] == rel;
  }

  lemma ResolveChild(disk: Disk, top: string, at: Loc, rel: Loc, name: string)
    requires WellFormed(disk) && at + rel in disk && disk[at + rel] == ADir && IsComponent(name)
    requires |PathTo(top, rel) + "/" + name| <= PATH_MAX
    ensures Resolve(disk, Shown(top), at, Shown(PathTo(top, rel) + "/" + name))
            == Some(Onward(at + rel, NameShown(PathTo(top, rel), name)))
  {
    assert top <= PathTo(top, rel);
    hide WellFormed, Resolve, PathTo, Onward;
    PathShown(PathTo(top, rel), name);
    ResolveStep(disk, top, at, rel, NameShown(PathTo(top, rel), name));
  }

  /** What the path built for an entry denotes, whether it is cut short or not. */
  lemma ResolveEntry(disk: Disk, top: string, at: Loc, rel: Loc)
    requires WellFormed(disk) && HasParent(disk, at, rel) && |PathTo(top, rel)| <= PATH_MAX
    ensures Resolve(disk, Shown(top), at, Shown(PathTo(top, rel))) == Some(Aim(top, at, rel))
    ensures |PathTo(top, rel)| < PATH_MAX && (rel == [] || !IsDots(rel[|rel| - 1])) ==> Aim(top, at, rel) == at + rel
  {
    if rel == [] {
      assert PathTo(top, rel) == top && at + rel == at;
      ResolveTop(disk, Shown(top), at);
    } else {
      var n := |rel| - 1;
      assert rel == rel[..n] + [rel[n]] && at + rel == at + rel[..n] + [rel[n]];
      PathToChild(top, rel[..n], rel[n]);
      hide WellFormed, Resolve, PathTo;
      ResolveChild(disk, top, at, rel[..n], rel[n]);
    }
  }
}
