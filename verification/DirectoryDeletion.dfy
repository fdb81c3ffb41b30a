/** Recursive deletion, DeleteRecursively and its helpers of runtime/bin/directory_linux.cc,
    with one path buffer for the whole recursion. */
module DirectoryDeletion {
  import opened Common
  import opened Paths
  import opened DirectoryTree
  import opened CleanPath

  datatype DirEnt = DirEnt(name: Name, kind: Kind, typeKnown: bool)

  /** An entry tells the truth about what it names. */
  ghost predicate Truthful(disk: Disk, loc: Loc, e: DirEnt) {
    if IsDots(e.name) then e.kind == ADir else loc + [e.name] in disk && disk[loc + [e.name]] == e.kind
  }

  /** What reading a directory shows: everything in it, once, in any order. */
  ghost predicate Lists(disk: Disk, loc: Loc, entries: seq<DirEnt>) {
    && (forall i :: 0 <= i < |entries| ==> Truthful(disk, loc, entries[i]))
    && (forall i, j :: 0 <= i < j < |entries| ==> entries[i].name != entries[j].name)
    && (forall name :: loc + [name] in disk ==> HasName(entries, name))
  }

  predicate HasName(entries: seq<DirEnt>, name: string) {
    exists i :: 0 <= i < |entries| && entries[i].name == name
  }

  /** An entry told the truth when it was read; what it names may be gone since. */
  ghost predicate Honest(disk: Disk, loc: Loc, e: DirEnt) {
    if IsDots(e.name) then e.kind == ADir
    else IsName(e.name) && (loc + [e.name] in disk ==> disk[loc + [e.name]] == e.kind)
  }

  lemma StillHonest(before: Disk, after: Disk, loc: Loc, e: DirEnt)
    requires WellFormed(before) && Truthful(before, loc, e) && OnlyWithin(loc, before, after)
    ensures Honest(after, loc, e)
  {
    if !IsDots(e.name) {
      var l := loc + [e.name];
      assert l[|loc|] == e.name;
    }
  }

  /** The disk when an entry of a directory has been handled with success: what its name as
      the buffer shows it denotes is gone. */
  ghost function EntryGone(disk: Disk, loc: Loc, dir: string, name: string): Disk {
    if IsDots(name) then disk else Without(disk, loc + [NameShown(dir, name)])
  }

  /** The disk when the first n entries of a directory have been. */
  ghost function Emptied(disk: Disk, loc: Loc, dir: string, entries: seq<DirEnt>, n: nat): Disk
    requires n <= |entries|
  {
    if n == 0 then disk
    else EntryGone(Emptied(disk, loc, dir, entries, n - 1), loc, dir, entries[n - 1].name)
  }

  lemma EntryGoneWithin(disk: Disk, loc: Loc, dir: string, name: string)
    requires WellFormed(disk)
    ensures var after := EntryGone(disk, loc, dir, name);
            WellFormed(after) && OnlyWithin(loc, disk, after) && (loc in disk ==> loc in after && after[loc] == disk[loc])
  {
    WithoutWellFormed(disk, loc + [NameShown(dir, name)]);
    ChildIsWithin(loc, NameShown(dir, name), disk, Without(disk, loc + [NameShown(dir, name)]));
  }

  lemma {:induction false} EmptiedWithin(disk: Disk, loc: Loc, dir: string, entries: seq<DirEnt>, n: nat)
    requires WellFormed(disk) && n <= |entries|
    ensures var after := Emptied(disk, loc, dir, entries, n);
            WellFormed(after) && OnlyWithin(loc, disk, after) && (loc in disk ==> loc in after && after[loc] == disk[loc])
  {
    if n > 0 {
      EmptiedWithin(disk, loc, dir, entries, n - 1);
      var before := Emptied(disk, loc, dir, entries, n - 1);
      EntryGoneWithin(before, loc, dir, entries[n - 1].name);
      WithinTrans(loc, disk, before, Emptied(disk, loc, dir, entries, n));
    }
  }

  /** None of the first n entries has a path that is cut short. */
  ghost predicate NoneCut(dir: string, entries: seq<DirEnt>, n: nat)
    requires n <= |entries|
  {
    forall i :: 0 <= i < n ==> IsDots(entries[i].name) || !NameIsCut(dir, entries[i].name)
  }

  lemma ChildOfLoc(loc: Loc, a: string, b: string, l: Loc)
    requires loc + [a] <= l && loc + [b] <= l
    ensures a == b
  {
    assert (loc + [a])[|loc|] == l[|loc|] == (loc + [b])[|loc|];
  }

  /** What the entries still to come hold is still there. */
  lemma {:induction false} LaterEntriesStay(disk: Disk, loc: Loc, dir: string, entries: seq<DirEnt>, n: nat, k: nat, l: Loc)
    requires n <= k < |entries| && Lists(disk, loc, entries) && NoneCut(dir, entries, n)
    requires l in disk && loc + [entries[k].name] <= l
    ensures l in Emptied(disk, loc, dir, entries, n)
  {
    if n > 0 {
      LaterEntriesStay(disk, loc, dir, entries, n - 1, k, l);
      if loc + [entries[n - 1].name] <= l {
        ChildOfLoc(loc, entries[n - 1].name, entries[k].name, l);
      }
    }
  }

  /** An entry whose path is cut short is never deleted. */
  lemma {:induction false} CutEntryStays(disk: Disk, loc: Loc, dir: string, entries: seq<DirEnt>, n: nat, k: nat)
    requires n <= |entries| && k < |entries| && Lists(disk, loc, entries)
    requires !IsDots(entries[k].name) && NameIsCut(dir, entries[k].name)
    ensures loc + [entries[k].name] in Emptied(disk, loc, dir, entries, n)
  {
    if n > 0 {
      CutEntryStays(disk, loc, dir, entries, n - 1, k);
      var gone := NameShown(dir, entries[n - 1].name);
      assert gone != entries[k].name;
      if loc + [gone] <= loc + [entries[k].name] {
        ChildOfLoc(loc, gone, entries[k].name, loc + [entries[k].name]);
      }
    }
  }

  /** The entries deleted are gone. */
  lemma {:induction false} EarlierEntriesGone(disk: Disk, loc: Loc, dir: string, entries: seq<DirEnt>, n: nat, k: nat, l: Loc)
    requires k < n <= |entries| && !IsDots(entries[k].name) && loc + [entries[k].name] <= l
    requires !NameIsCut(dir, entries[k].name)
    ensures l !in Emptied(disk, loc, dir, entries, n)
  {
    if k < n - 1 {
      EarlierEntriesGone(disk, loc, dir, entries, n - 1, k, l);
    }
  }

  lemma ListedName(disk: Disk, loc: Loc, entries: seq<DirEnt>, l: Loc) returns (k: nat)
    requires WellFormed(disk) && Lists(disk, loc, entries) && l in disk && loc <= l && l != loc
    ensures k < |entries| && !IsDots(entries[k].name) && loc + [entries[k].name] <= l
  {
    var name := l[|loc|];
    assert l[..|loc| + 1] == loc + [name] && (|l| == |loc| + 1 ==> l[..|loc| + 1] == l);
    assert IsName(name) && loc + [name] in disk;
    assert HasName(entries, name);
    k :| 0 <= k < |entries| && entries[k].name == name;
  }

  /** When all entries have been handled, the directory is empty exactly when no path was cut
      short, and removing it then removes the rest. */
  lemma AllEntriesGone(disk: Disk, loc: Loc, dir: string, entries: seq<DirEnt>)
    requires WellFormed(disk) && Lists(disk, loc, entries) && loc in disk
    ensures var left := Emptied(disk, loc, dir, entries, |entries|);
            && WellFormed(left) && loc in left && OnlyWithin(loc, disk, left)
            && (Childless(left, loc) <==> NoneCut(dir, entries, |entries|))
            && (Childless(left, loc) ==> left - {loc} == Without(disk, loc))
  {
    var left := Emptied(disk, loc, dir, entries, |entries|);
    EmptiedWithin(disk, loc, dir, entries, |entries|);
    if NoneCut(dir, entries, |entries|) {
      forall l | l in disk && loc <= l && l != loc ensures l !in left {
        var k := ListedName(disk, loc, entries, l);
        EarlierEntriesGone(disk, loc, dir, entries, |entries|, k, l);
      }
    } else {
      var k :| 0 <= k < |entries| && !IsDots(entries[k].name) && NameIsCut(dir, entries[k].name);
      CutEntryStays(disk, loc, dir, entries, |entries|, k);
    }
  }

  // ---- Lengths.

  /** Every path is shorter than PATH_MAX, so that the buffer shows it whole. */
  ghost predicate AllWhole(disk: Disk, top: string, at: Loc, loc: Loc) {
    forall l :: l in disk && at <= loc <= l ==> |PathTo(top, l[|at|..])| < PATH_MAX
  }

  /** Every path that deletion builds fits, those of "." and ".." in a directory included. */
  ghost predicate Roomy(disk: Disk, top: string, at: Loc, loc: Loc) {
    forall l :: l in disk && at <= loc <= l ==>
                  |PathTo(top, l[|at|..])| + (if disk[l] == ADir then 3 else 1) <= PATH_MAX
  }

  predicate Removable(disk: Disk, loc: Loc, directory: bool) {
    loc in disk && (disk[loc] == ADir <==> directory) && (directory ==> Childless(disk, loc))
  }

  class Deleter {
    const top: Name
    /** What the top directory's path denotes, as the buffer shows it. */
    const at: Loc
    var disk: Disk
    var buffer: PathBuffer
    /** Whether a system call failed for reasons that the disk does not show. */
    ghost var faulted: bool

    constructor (disk: Disk, top: Name, at: Loc)
      ensures this.disk == disk && this.top == top && this.at == at && !faulted
    {
      this.disk, this.top, this.at, faulted := disk, top, at, false;
      buffer := new PathBuffer();
    }

    // ---- System calls, on what the path buffer's text denotes.

    ghost function Path(): Buffer
      reads this`buffer, buffer
    {
      buffer.View()
    }

    ghost function Denoted(): Option<Loc>
      reads this`disk, this`buffer, buffer
    {
      Resolve(disk, Shown(top), at, Path().text)
    }

    /** What a system call finds at the path it is given. */
    method Find(ghost loc: Loc) returns (l: Loc)
      requires buffer.Valid() && Denoted() == Some(loc)
      ensures l == loc
    {
      hide Resolve;
      var text := buffer.AsString();
      l := Resolve(disk, Shown(top), at, text).value;
    }

    method Lstat(ghost loc: Loc) returns (kind: Option<Kind>)
      requires buffer.Valid() && Denoted() == Some(loc)
      modifies this`faulted
      ensures kind.Some? ==> loc in disk && kind.value == disk[loc]
      ensures kind.None? ==> faulted || loc !in disk
      ensures old(faulted) ==> faulted
    {
      if * {
        faulted := true;
        return None;
      }
      var l := Find(loc);
      return if l in disk then Some(disk[l]) else None;
    }

    /** Removes an empty directory, or something that is no directory. */
    method Unlink(ghost loc: Loc, directory: bool) returns (ok: bool)
      requires buffer.Valid() && Denoted() == Some(loc)
      modifies this`disk, this`faulted
      ensures ok ==> Removable(old(disk), loc, directory) && disk == old(disk) - {loc}
      ensures !ok ==> disk == old(disk) && (faulted || !Removable(disk, loc, directory))
      ensures old(faulted) ==> faulted
    {
      if * {
        faulted := true;
        return false;
      }
      var l := Find(loc);
      if !Removable(disk, l, directory) {
        return false;
      }
      disk := disk - {l};
      return true;
    }

    /** Opens a directory, whose entries are then read one after the other. */
    method Open(ghost loc: Loc) returns (entries: Option<seq<DirEnt>>)
      requires WellFormed(disk) && buffer.Valid() && Denoted() == Some(loc)
      modifies this`faulted
      ensures entries.Some? ==> Lists(disk, loc, entries.value)
      ensures entries.None? ==> faulted
      ensures old(faulted) ==> faulted
    {
      if * {
        faulted := true;
        return None;
      }
      var l := Find(loc);
      var found := ReadDirectory(disk, l);
      return Some(found);
    }

    /** Whether the next entry is left out: what has been removed since the directory was
        opened may still be read, or not. */
    method Skips(ghost loc: Loc, name: string) returns (skipped: bool)
      requires buffer.Valid() && Denoted() == Some(loc)
      ensures skipped ==> loc + [name] !in disk
    {
      var l := Find(loc);
      skipped := *;
      if l + [name] in disk {
        skipped := false;
      }
    }

    // ---- Deleting.

    /** The buffer shows the path of a directory, ready for a name to follow. */
    ghost predicate InDirectory(rel: Loc)
      reads this`disk, this`buffer, buffer, buffer.data
    {
      && WellFormed(disk) && |PathTo(top, rel)| < PATH_MAX
      && at + rel in disk && disk[at + rel] == ADir
      && buffer.Valid() && Path() == Showing(PathTo(top, rel) + "/")
    }

    /** The buffer shows an entry's path, or what fits of it. */
    ghost predicate AtEntry(rel: Loc)
      reads this`disk, this`buffer, buffer, buffer.data
    {
      && WellFormed(disk) && |PathTo(top, rel)| <= PATH_MAX
      && HasParent(disk, at, rel) && (rel == [] || IsName(rel[|rel| - 1]))
      && buffer.Valid() && Path() == Showing(PathTo(top, rel))
    }

    /** What an attempt to delete an entry may have done. */
    twostate predicate Attempted(rel: Loc, ok: bool)
      reads this, buffer, buffer.data
    {
      var loc := at + rel;
      && WellFormed(disk) && OnlyWithin(loc, old(disk), disk)
      && (ok ==> loc in old(disk) && disk == Without(old(disk), loc) && AllWhole(old(disk), top, at, loc))
      && (!ok ==> faulted || loc !in old(disk) || !Roomy(old(disk), top, at, loc))
      && (old(faulted) ==> faulted)
      && buffer.Valid() && |Path().text| < PATH_MAX && PathTo(top, rel) <= Path().text
    }

    /** What it may have done when the path is cut short: removed what the rest of the path
        denotes, if that is no directory. */
    twostate predicate CutAttempted(rel: Loc, ok: bool)
      reads this, buffer, buffer.data
    {
      var aim := Aim(top, at, rel);
      && WellFormed(disk)
      && (ok ==> aim in old(disk) && old(disk)[aim] != ADir && disk == Without(old(disk), aim))
      && (!ok ==> disk == old(disk))
      && (old(faulted) ==> faulted)
      && buffer.Valid() && Path().text == Shown(PathTo(top, rel))
    }

    method UnlinkEntry(ghost rel: Loc) returns (ok: bool)
      requires AtEntry(rel)
      requires |PathTo(top, rel)| < PATH_MAX && at + rel in disk ==> disk[at + rel] != ADir
      modifies this`disk, this`faulted
      ensures |PathTo(top, rel)| < PATH_MAX ==> Attempted(rel, ok)
      ensures |PathTo(top, rel)| == PATH_MAX ==> CutAttempted(rel, ok)
      ensures Path() == old(Path())
    {
      hide WellFormed, OnlyWithin, Roomy, AllWhole, Without, Resolve, PathTo, HasParent, Aim;
      ghost var aim, was := Aim(top, at, rel), disk;
      ResolveEntry(disk, top, at, rel);
      OnlyWithinRefl(at + rel, disk);
      ok := Unlink(aim, false);
      if ok {
        LeafGone(top, at, rel, aim, was);
      }
    }

    /** What an attempt to delete an entry of a directory may have done. */
    twostate predicate EntryAttempted(rel: Loc, name: string, ok: bool)
      reads this, buffer, buffer.data
    {
      var loc := at + rel;
      var dir := PathTo(top, rel);
      && WellFormed(disk) && OnlyWithin(loc, old(disk), disk)
      && (ok ==> disk == EntryGone(old(disk), loc, dir, name))
      && (ok && !IsDots(name) && !NameIsCut(dir, name) ==> AllWhole(old(disk), top, at, loc + [name]))
      && (!ok ==> faulted || !Roomy(old(disk), top, at, loc) || (!IsDots(name) && loc + [name] !in old(disk)))
      && (old(faulted) ==> faulted)
      && buffer.Valid() && |Path().text| < PATH_MAX && Under(dir + "/", Path().text)
    }

    method DeleteFile(ghost rel: Loc, name: Name) returns (ok: bool)
      requires InDirectory(rel) && IsName(name)
      requires !NameIsCut(PathTo(top, rel), name) && at + rel + [name] in disk ==> disk[at + rel + [name]] != ADir
      modifies this`disk, this`faulted, buffer, buffer.data
      ensures EntryAttempted(rel, name, ok)
    {
      hide WellFormed, OnlyWithin, Roomy, AllWhole, PathTo, Without, AddTo, Under, Showing, Shown, HasParent, Aim, EntryGone, NameIsCut;
      ChildPath(disk, top, at, rel, name);
      OnlyWithinRefl(at + rel, disk);
      var added := buffer.Add(name);
      if !added {
        return false;
      }
      ok := UnlinkEntry(rel + [name]);
      if NameIsCut(PathTo(top, rel), name) {
        CutResult(top, at, rel, name, old(disk), disk, Path().text, ok);
      } else {
        ChildResult(top, at, rel, name, old(disk), disk, Path().text);
      }
    }

    method DeleteDir(ghost rel: Loc, name: Name) returns (ok: bool)
      requires InDirectory(rel) && (IsDots(name) || IsName(name))
      modifies this`disk, this`faulted, buffer, buffer.data
      ensures EntryAttempted(rel, name, ok)
      decreases PATH_MAX - |PathTo(top, rel)|, 0
    {
      hide WellFormed, OnlyWithin, Roomy, AllWhole, PathTo, Without, AddTo, Under, Showing, Shown, HasParent, Aim, NameIsCut;
      OnlyWithinRefl(at + rel, disk);
      if IsDots(name) {
        ShowingUnder(PathTo(top, rel) + "/");
        return true;
      }
      ChildPath(disk, top, at, rel, name);
      var added := buffer.Add(name);
      if !added {
        return false;
      }
      ok := DeleteRecursively(rel + [name]);
      if NameIsCut(PathTo(top, rel), name) {
        CutResult(top, at, rel, name, old(disk), disk, Path().text, ok);
      } else {
        ChildResult(top, at, rel, name, old(disk), disk, Path().text);
      }
    }

    /** One entry of a directory that is being emptied. */
    method DeleteEntry(ghost rel: Loc, e: DirEnt) returns (ok: bool)
      requires InDirectory(rel) && Honest(disk, at + rel, e)
      modifies this`disk, this`faulted, buffer, buffer.data
      ensures EntryAttempted(rel, e.name, ok)
      decreases PATH_MAX - |PathTo(top, rel)|, 1
    {
      var kind := e.kind;
      if !e.typeKnown {
        var found := Identify(rel, e);
        if found.None? {
          return false;
        }
        kind := found.value;
      }
      if kind == ADir {
        ok := DeleteDir(rel, e.name);
      } else {
        ok := DeleteFile(rel, e.name);
      }
    }

    /** Asks for the status of an entry whose type the directory did not give. */
    method Identify(ghost rel: Loc, e: DirEnt) returns (kind: Option<Kind>)
      requires InDirectory(rel) && Honest(disk, at + rel, e)
      modifies this`faulted, buffer, buffer.data
      ensures old(faulted) ==> faulted
      ensures kind.Some? ==> buffer.Valid() && Path() == old(Path()) && (IsDots(e.name) ==> kind.value == ADir)
      ensures kind.Some? && !IsDots(e.name) && !NameIsCut(PathTo(top, rel), e.name) ==>
                at + rel + [e.name] in disk && kind.value == e.kind
      ensures kind.None? ==> EntryAttempted(rel, e.name, false)
    {
      hide WellFormed, OnlyWithin, Roomy, PathTo, Under, Resolve, Showing, Shown, Onward, NameShown;
      var base := buffer.length;
      OnlyWithinRefl(at + rel, disk);
      IdentifyPath(disk, top, at, rel, e);
      var added := buffer.Add(e.name);
      if !added {
        return None;
      }
      kind := Lstat(Onward(at + rel, NameShown(PathTo(top, rel), e.name)));
      if kind.Some? {
        buffer.Reset(base);
      }
    }

    /** The next entry of a directory, of which those before it have been handled. */
    method DeleteNext(ghost rel: Loc, ghost was: Disk, entries: seq<DirEnt>, i: nat, length: nat) returns (ok: bool)
      requires InDirectory(rel) && length == Path().length && i < |entries|
      requires WellFormed(was) && at + rel in was && Lists(was, at + rel, entries)
      requires disk == Emptied(was, at + rel, PathTo(top, rel), entries, i)
      requires NoneCut(PathTo(top, rel), entries, i) ==> EntriesWhole(was, top, at, at + rel, entries, i)
      modifies this`disk, this`faulted, buffer, buffer.data
      ensures ok ==> InDirectory(rel) && Path() == old(Path())
      ensures ok ==> disk == Emptied(was, at + rel, PathTo(top, rel), entries, i + 1)
      ensures ok && NoneCut(PathTo(top, rel), entries, i + 1) ==> EntriesWhole(was, top, at, at + rel, entries, i + 1)
      ensures !ok ==> && buffer.Valid() && |Path().text| < PATH_MAX && PathTo(top, rel) <= Path().text
                      && WellFormed(disk) && OnlyWithin(at + rel, was, disk) && (faulted || !Roomy(was, top, at, at + rel))
      ensures old(faulted) ==> faulted
      decreases PATH_MAX - |PathTo(top, rel)|, 2
    {
      hide WellFormed, OnlyWithin, Roomy, AllWhole, PathTo, Without, Under, Resolve, Showing, Lists, Emptied,
           EntryGone, Truthful, Honest, NoneCut, EntriesWhole, NameIsCut;
      ghost var loc, dir := at + rel, PathTo(top, rel);
      EmptiedWithin(was, loc, dir, entries, i);
      EmptiedWithin(was, loc, dir, entries, i + 1);
      DirectoryPath(disk, top, at, rel);
      if * {
        faulted := true;
        return false;
      }
      NextEntry(was, top, at, rel, entries, i);
      var skipped := Skips(loc, entries[i].name);
      if skipped {
        return true;
      }
      ok := DeleteEntry(rel, entries[i]);
      WithinTrans(loc, was, Emptied(was, loc, dir, entries, i), disk);
      UnderDirectory(dir, Path().text);
      if ok {
        NamePath(Path(), dir + "/", "");
        buffer.Reset(length);
      }
    }

    /** Empties a directory and removes it. */
    method DeleteContents(ghost rel: Loc) returns (ok: bool)
      requires InDirectory(rel)
      modifies this`disk, this`faulted, buffer, buffer.data
      ensures Attempted(rel, ok)
      decreases PATH_MAX - |PathTo(top, rel)|, 3
    {
      hide WellFormed, OnlyWithin, Roomy, AllWhole, PathTo, Without, Resolve, Showing, Lists, Emptied, Childless, NoneCut,
           EntriesWhole;
      ghost var loc, dir, was := at + rel, PathTo(top, rel), disk;
      var length := buffer.length;
      OnlyWithinRefl(loc, disk);
      DirectoryPath(disk, top, at, rel);
      var read := Open(loc);
      if read.None? {
        return false;
      }
      var entries := read.value;
      NoneGone(was, top, at, loc, dir, entries);
      for i := 0 to |entries|
        invariant InDirectory(rel) && Path() == old(Path()) && (old(faulted) ==> faulted)
        invariant disk == Emptied(was, loc, dir, entries, i)
        invariant NoneCut(dir, entries, i) ==> EntriesWhole(was, top, at, loc, entries, i)
      {
        ok := DeleteNext(rel, was, entries, i, length);
        if !ok {
          return false;
        }
      }
      AllEntriesGone(was, loc, dir, entries);
      AllEntriesWhole(was, top, at, rel, entries);
      DirectoryPath(disk, top, at, rel);
      if * {
        faulted := true;
        return false;
      }
      WithoutWellFormed(was, loc);
      ok := Unlink(loc, true);
    }

    /** Deletes what the path buffer shows: a directory with everything in it, or, without
        following it, a link, or a file. */
    method DeleteRecursively(ghost rel: Loc) returns (ok: bool)
      requires AtEntry(rel)
      modifies this`disk, this`faulted, buffer, buffer.data
      ensures |PathTo(top, rel)| < PATH_MAX ==> Attempted(rel, ok)
      ensures |PathTo(top, rel)| == PATH_MAX ==> CutAttempted(rel, ok)
      decreases PATH_MAX - |PathTo(top, rel)|, 4
    {
      hide WellFormed, OnlyWithin, Roomy, AllWhole, PathTo, Without, AddTo, Under, Resolve, HasParent, Aim;
      OnlyWithinRefl(at + rel, disk);
      ResolveEntry(disk, top, at, rel);
      SeparatorShows(PathTo(top, rel));
      var kind := Lstat(Aim(top, at, rel));
      if kind.None? {
        return false;
      } else if kind.value != ADir {
        ok := UnlinkEntry(rel);
        return;
      }
      assert NoNul("/");
      var added := buffer.Add("/");
      if !added {
        return false;
      }
      ok := DeleteContents(rel);
    }

    /** Deletes the named entry with everything in it. Success means that exactly what the
        buffer shows of the name denotes is gone, and that every path was shown whole but
        perhaps the top one, which is then no directory. In every case nothing else is
        touched. Without faults, and when all paths fit, it succeeds. */
    method Delete() returns (ok: bool)
      requires WellFormed(disk)
      modifies this
      ensures OnlyWithin(at, old(disk), disk)
      ensures ok ==> at in old(disk) && disk == Without(old(disk), at)
      ensures ok ==> AllWhole(old(disk), top, at, at) || (|top| == PATH_MAX && old(disk)[at] != ADir)
      ensures !ok && |top| >= PATH_MAX ==> disk == old(disk)
      ensures at in old(disk) && Roomy(old(disk), top, at, at) && !faulted ==> ok
    {
      TopPath(disk, top, at);
      OnlyWithinRefl(at, disk);
      hide WellFormed, OnlyWithin, Roomy, AllWhole, PathTo, Without, AddTo;
      buffer := new PathBuffer();
      var added := buffer.Add(top);
      if !added {
        return false;
      }
      ok := DeleteRecursively([]);
      WithoutWithin(at, old(disk));
    }
  }

  lemma TopPath(disk: Disk, top: string, at: Loc)
    ensures var (p, added) := AddTo(Showing(""), top);
            && at + [] == at && PathTo(top, []) == top && Aim(top, at, []) == at
            && (added <==> |top| <= PATH_MAX) && (added ==> p == Showing(top))
            && (|top| >= PATH_MAX && at in disk ==> !Roomy(disk, top, at, at))
  {
    AddShows("", top);
    assert "" + top == top && PathTo(top, []) == top && at[|at|..] == [];
  }

  lemma WithoutWithin(loc: Loc, disk: Disk)
    ensures OnlyWithin(loc, disk, Without(disk, loc))
  {
  }

  /** A path of exactly PATH_MAX characters is accepted, but the buffer then shows, and the
      system calls then act on, the entry whose name is one character shorter. */
  lemma TruncatedPathDenotesAnother(disk: Disk, top: string, at: Loc, rel: Loc, short: string, last: char)
    requires WellFormed(disk) && at + (rel + [short]) in disk && last != '/'
    requires |PathTo(top, rel + [short + [last]])| == PATH_MAX
    ensures AddTo(Showing(PathTo(top, rel) + "/"), short + [last]).1
    ensures var text := Showing(PathTo(top, rel + [short + [last]])).text;
            Resolve(disk, Shown(top), at, text) == Some(at + (rel + [short]))
  {
    var l := at + (rel + [short]);
    PathToChild(top, rel, short + [last]);
    AddShows(PathTo(top, rel) + "/", short + [last]);
    assert l[..|at + rel|] == at + rel && l[|at + rel|] == short && l == at + rel + [short];
    ResolveChild(disk, top, at, rel, short + [last]);
    hide Resolve, PathTo;
  }

  /** Removing something that is no directory. */
  lemma LeafGone(top: string, at: Loc, rel: Loc, aim: Loc, disk: Disk)
    requires WellFormed(disk) && aim in disk && disk[aim] != ADir
    ensures disk - {aim} == Without(disk, aim) && WellFormed(disk - {aim}) && OnlyWithin(aim, disk, disk - {aim})
    ensures |PathTo(top, rel)| < PATH_MAX && aim == at + rel ==> AllWhole(disk, top, at, aim)
  {
    hide PathTo;
    RemoveLeaf(disk, aim);
    WithoutWellFormed(disk, aim);
    if |PathTo(top, rel)| < PATH_MAX && aim == at + rel {
      forall l | l in disk && aim <= l ensures |PathTo(top, l[|at|..])| < PATH_MAX {
        NothingUnder(disk, aim, l);
        assert l[|at|..] == rel;
      }
    }
  }

  /** All that the first n entries hold has paths that are shown whole. */
  ghost predicate EntriesWhole(disk: Disk, top: string, at: Loc, loc: Loc, entries: seq<DirEnt>, n: nat)
    requires n <= |entries|
  {
    forall k :: 0 <= k < n && !IsDots(entries[k].name) ==> AllWhole(disk, top, at, loc + [entries[k].name])
  }

  lemma NoneGone(disk: Disk, top: string, at: Loc, loc: Loc, dir: string, entries: seq<DirEnt>)
    ensures Emptied(disk, loc, dir, entries, 0) == disk && EntriesWhole(disk, top, at, loc, entries, 0)
  {
  }

  lemma CutIsNotRoomy(disk: Disk, top: string, at: Loc, rel: Loc, entries: seq<DirEnt>, n: nat)
    requires Lists(disk, at + rel, entries) && n <= |entries| && !NoneCut(PathTo(top, rel), entries, n)
    ensures !Roomy(disk, top, at, at + rel)
  {
    hide PathTo, Roomy;
    var k :| 0 <= k < n && !IsDots(entries[k].name) && NameIsCut(PathTo(top, rel), entries[k].name);
    assert Truthful(disk, at + rel, entries[k]);
    ChildFacts(disk, top, at, rel, entries[k].name);
  }

  lemma StillRoomy(before: Disk, after: Disk, top: string, at: Loc, loc: Loc)
    requires OnlyWithin(loc, before, after) && Roomy(before, top, at, loc)
    ensures Roomy(after, top, at, loc)
  {
  }

  lemma WayIsThere(disk: Disk, loc: Loc, l: Loc)
    requires WellFormed(disk) && l in disk
    ensures loc <= l ==> loc in disk
  {
    if loc <= l {
      assert l[..|loc|] == loc && (|l| == |loc| ==> l == loc);
    }
  }

  /** Where there is nothing there is nothing under it. */
  lemma WithoutNothing(disk: Disk, loc: Loc)
    requires WellFormed(disk) && loc !in disk
    ensures Without(disk, loc) == disk
  {
    forall l | l in disk ensures !(loc <= l) {
      WayIsThere(disk, loc, l);
    }
  }

  /** Only a path that was cut short takes away an entry that is still to come. */
  lemma MissingEntry(was: Disk, loc: Loc, dir: string, entries: seq<DirEnt>, i: nat)
    requires WellFormed(was) && Lists(was, loc, entries) && i < |entries|
    requires loc + [entries[i].name] !in Emptied(was, loc, dir, entries, i)
    ensures Emptied(was, loc, dir, entries, i + 1) == Emptied(was, loc, dir, entries, i)
    ensures IsDots(entries[i].name) || !NoneCut(dir, entries, i)
  {
    hide Emptied, WellFormed, Without;
    var name, disk := entries[i].name, Emptied(was, loc, dir, entries, i);
    OneMoreGone(was, loc, dir, entries, i);
    if !IsDots(name) {
      assert Truthful(was, loc, entries[i]);
      EmptiedWithin(was, loc, dir, entries, i);
      WithoutNothing(disk, loc + [name]);
      if NameIsCut(dir, name) {
        CutEntryStays(was, loc, dir, entries, i, i);
      }
      if NoneCut(dir, entries, i) {
        LaterEntriesStay(was, loc, dir, entries, i, i, loc + [name]);
      }
    }
  }

  lemma OneMoreGone(was: Disk, loc: Loc, dir: string, entries: seq<DirEnt>, i: nat)
    requires i < |entries|
    ensures Emptied(was, loc, dir, entries, i + 1)
            == EntryGone(Emptied(was, loc, dir, entries, i), loc, dir, entries[i].name)
  {
  }

  lemma OneMoreWhole(was: Disk, top: string, at: Loc, loc: Loc, dir: string, entries: seq<DirEnt>, i: nat)
    requires WellFormed(was) && Lists(was, loc, entries) && i < |entries|
    requires NoneCut(dir, entries, i) && EntriesWhole(was, top, at, loc, entries, i)
    requires IsDots(entries[i].name) || AllWhole(Emptied(was, loc, dir, entries, i), top, at, loc + [entries[i].name])
    ensures EntriesWhole(was, top, at, loc, entries, i + 1)
  {
    hide PathTo, Emptied, Lists, WellFormed;
    var name := entries[i].name;
    if !IsDots(name) {
      forall l | l in was && at <= loc + [name] <= l ensures |PathTo(top, l[|at|..])| < PATH_MAX {
        LaterEntriesStay(was, loc, dir, entries, i, i, l);
      }
    }
  }

  /** What holds of the next entry of a directory, and what follows when it is handled. */
  lemma NextEntry(was: Disk, top: string, at: Loc, rel: Loc, entries: seq<DirEnt>, i: nat)
    requires WellFormed(was) && Lists(was, at + rel, entries) && i < |entries|
    requires NoneCut(PathTo(top, rel), entries, i) ==> EntriesWhole(was, top, at, at + rel, entries, i)
    ensures var loc, dir, e := at + rel, PathTo(top, rel), entries[i];
            var disk := Emptied(was, loc, dir, entries, i);
            && Honest(disk, loc, e)
            && Emptied(was, loc, dir, entries, i + 1) == EntryGone(disk, loc, dir, e.name)
            && (Roomy(was, top, at, loc) ==> Roomy(disk, top, at, loc) && (IsDots(e.name) || loc + [e.name] in disk))
            && (loc + [e.name] !in disk ==> Emptied(was, loc, dir, entries, i + 1) == disk)
            && (NoneCut(dir, entries, i + 1) ==>
                  && (loc + [e.name] !in disk ==> EntriesWhole(was, top, at, loc, entries, i + 1))
                  && (NameIsCut(dir, e.name) ==> IsDots(e.name))
                  && (IsDots(e.name) || AllWhole(disk, top, at, loc + [e.name]) ==>
                        EntriesWhole(was, top, at, loc, entries, i + 1)))
  {
    var loc, dir, e := at + rel, PathTo(top, rel), entries[i];
    var disk := Emptied(was, loc, dir, entries, i);
    EmptiedWithin(was, loc, dir, entries, i);
    assert Truthful(was, loc, e);
    StillHonest(was, disk, loc, e);
    OneMoreGone(was, loc, dir, entries, i);
    assert NoneCut(dir, entries, i + 1) ==> NoneCut(dir, entries, i) && (NameIsCut(dir, e.name) ==> IsDots(e.name));
    hide *;
    if loc + [e.name] !in disk {
      MissingEntry(was, loc, dir, entries, i);
    }
    if NoneCut(dir, entries, i) && (IsDots(e.name) || AllWhole(disk, top, at, loc + [e.name])) {
      OneMoreWhole(was, top, at, loc, dir, entries, i);
    }
    if Roomy(was, top, at, loc) {
      StillRoomy(was, disk, top, at, loc);
      if !NoneCut(dir, entries, i) {
        CutIsNotRoomy(was, top, at, rel, entries, i);
      }
    }
  }

  lemma AllEntriesWhole(disk: Disk, top: string, at: Loc, rel: Loc, entries: seq<DirEnt>)
    requires WellFormed(disk) && Lists(disk, at + rel, entries) && |PathTo(top, rel)| < PATH_MAX
    ensures EntriesWhole(disk, top, at, at + rel, entries, |entries|) ==> AllWhole(disk, top, at, at + rel)
    ensures !NoneCut(PathTo(top, rel), entries, |entries|) ==> !Roomy(disk, top, at, at + rel)
  {
    hide PathTo, Roomy, NoneCut;
    var loc := at + rel;
    if !NoneCut(PathTo(top, rel), entries, |entries|) {
      CutIsNotRoomy(disk, top, at, rel, entries, |entries|);
    }
    if EntriesWhole(disk, top, at, loc, entries, |entries|) {
      forall l | l in disk && loc <= l ensures |PathTo(top, l[|at|..])| < PATH_MAX {
        if l == loc {
          assert l[|at|..] == rel;
        } else {
          var k := ListedName(disk, loc, entries, l);
          assert AllWhole(disk, top, at, loc + [entries[k].name]);
          assert at <= loc + [entries[k].name];
        }
      }
    }
  }

  lemma UnderDirectory(path: string, text: string)
    requires |path| < PATH_MAX && Under(path + "/", text)
    ensures path <= text
  {
    if |path + "/"| == PATH_MAX {
      assert Shown(path + "/") == path;
    } else {
      assert path <= path + "/";
    }
  }

  /** A directory's path with the separator denotes it. */
  lemma DirectoryPath(disk: Disk, top: string, at: Loc, rel: Loc)
    requires WellFormed(disk) && at + rel in disk && disk[at + rel] == ADir && |PathTo(top, rel)| < PATH_MAX
    ensures var p := Showing(PathTo(top, rel) + "/");
            && Resolve(disk, Shown(top), at, p.text) == Some(at + rel)
            && p.length == |PathTo(top, rel) + "/"| && |p.text| < PATH_MAX && PathTo(top, rel) <= p.text
  {
    ResolveDirectory(disk, top, at, rel);
    ShowingUnder(PathTo(top, rel) + "/");
    UnderDirectory(PathTo(top, rel), Showing(PathTo(top, rel) + "/").text);
    assert top <= PathTo(top, rel);
  }

  /** What the path of an entry whose status is asked for denotes. */
  lemma IdentifyPath(disk: Disk, top: string, at: Loc, rel: Loc, e: DirEnt)
    requires WellFormed(disk) && |PathTo(top, rel)| < PATH_MAX
    requires at + rel in disk && disk[at + rel] == ADir && Honest(disk, at + rel, e)
    ensures var dir := PathTo(top, rel);
            var base := dir + "/";
            && (Showing(base).length <= |Showing(base).text| || Showing(base).length == PATH_MAX)
            && var (p, added) := AddTo(Showing(base), e.name);
            && |p.text| < PATH_MAX && Under(base, p.text) && Showing(base).length == |base|
            && (|base| <= |p.text| || |base| == PATH_MAX) && ResetTo(p, |base|) == Showing(base)
            && (!added || NameIsCut(dir, e.name) ==>
                  if IsDots(e.name) then !added ==> !Roomy(disk, top, at, at + rel)
                  else at + rel + [e.name] in disk ==> !Roomy(disk, top, at, at + rel))
            && (added ==>
                  var aim := Onward(at + rel, NameShown(dir, e.name));
                  && Resolve(disk, Shown(top), at, p.text) == Some(aim)
                  && (IsDots(e.name) ==> aim in disk && disk[aim] == ADir)
                  && (!IsDots(e.name) && !NameIsCut(dir, e.name) ==> aim == at + rel + [e.name]))
  {
    var base := PathTo(top, rel) + "/";
    var (p, added) := AddTo(Showing(base), e.name);
    ShowingUnder(base);
    NamePath(Showing(base), base, e.name);
    NamePath(p, base, "");
    if added {
      ResolveChild(disk, top, at, rel, e.name);
    }
    if IsDots(e.name) {
      assert (at + rel)[|at|..] == rel;
    } else if at + rel + [e.name] in disk {
      ChildFacts(disk, top, at, rel, e.name);
    }
  }

  lemma OnlyWithinRefl(loc: Loc, disk: Disk)
    ensures OnlyWithin(loc, disk, disk)
  {
  }

  lemma ChildFacts(disk: Disk, top: string, at: Loc, rel: Loc, name: string)
    ensures at + (rel + [name]) == at + rel + [name]
    ensures PathTo(top, rel + [name]) == PathTo(top, rel) + "/" + name
    ensures at + rel + [name] in disk && |PathTo(top, rel + [name])| >= PATH_MAX ==> !Roomy(disk, top, at, at + rel)
  {
    var l := at + rel + [name];
    PathToChild(top, rel, name);
    hide PathTo;
    assert l[|at|..] == rel + [name];
  }

  lemma ShowingUnder(base: string)
    requires |base| <= PATH_MAX
    ensures Under(base, Showing(base).text) && |Showing(base).text| < PATH_MAX
  {
  }

  /** Appending an entry's name to its directory's path. */
  lemma ChildPath(disk: Disk, top: string, at: Loc, rel: Loc, name: string)
    requires WellFormed(disk) && at + rel in disk && disk[at + rel] == ADir && |PathTo(top, rel)| < PATH_MAX
    requires IsName(name)
    ensures var base, child := PathTo(top, rel) + "/", PathTo(top, rel + [name]);
            && (Showing(base).length <= |Showing(base).text| || Showing(base).length == PATH_MAX)
            && var (p, added) := AddTo(Showing(base), name);
            && child == base + name && |p.text| < PATH_MAX && Under(base, p.text)
            && (added ==> p == Showing(child) && |base| < |child| <= PATH_MAX)
            && (added && |child| == PATH_MAX <==> NameIsCut(PathTo(top, rel), name))
            && (!added && at + rel + [name] in disk ==> !Roomy(disk, top, at, at + rel))
            && HasParent(disk, at, rel + [name]) && at + (rel + [name]) == at + rel + [name]
            && (rel + [name])[|rel + [name]| - 1] == name
  {
    var base := PathTo(top, rel) + "/";
    ChildFacts(disk, top, at, rel, name);
    ShowingUnder(base);
    AddShows(base, name);
    NamePath(Showing(base), base, name);
    assert (rel + [name])[..|rel|] == rel;
    hide WellFormed, Roomy, PathTo, Under;
  }

  /** What deleting an entry means for its directory. */
  lemma ChildResult(top: string, at: Loc, rel: Loc, name: string, before: Disk, after: Disk, text: string)
    requires IsName(name) && |PathTo(top, rel + [name])| < PATH_MAX && PathTo(top, rel + [name]) <= text
    requires OnlyWithin(at + (rel + [name]), before, after)
    ensures OnlyWithin(at + rel, before, after)
    ensures !Roomy(before, top, at, at + (rel + [name])) ==> !Roomy(before, top, at, at + rel)
    ensures EntryGone(before, at + rel, PathTo(top, rel), name) == Without(before, at + rel + [name])
    ensures Under(PathTo(top, rel) + "/", text)
  {
    ChildFacts(before, top, at, rel, name);
    ChildIsWithin(at + rel, name, before, after);
    hide PathTo, Without, OnlyWithin;
    forall l | l in before && at + rel + [name] <= l ensures at + rel <= l {
    }
  }

  /** What it means when the entry's path is cut short. */
  lemma CutResult(top: string, at: Loc, rel: Loc, name: string, before: Disk, after: Disk, text: string, ok: bool)
    requires WellFormed(before) && at + rel in before && before[at + rel] == ADir
    requires IsName(name) && |PathTo(top, rel + [name])| == PATH_MAX && text == Shown(PathTo(top, rel + [name]))
    requires var aim := Aim(top, at, rel + [name]);
             ok ==> aim in before && before[aim] != ADir && after == Without(before, aim)
    requires !ok ==> after == before
    ensures OnlyWithin(at + rel, before, after) && NameIsCut(PathTo(top, rel), name)
    ensures at + rel + [name] in before ==> !Roomy(before, top, at, at + rel)
    ensures ok ==> after == EntryGone(before, at + rel, PathTo(top, rel), name)
    ensures Under(PathTo(top, rel) + "/", text)
  {
    ChildFacts(before, top, at, rel, name);
    AimOfChild(top, at, rel, name);
    PathShown(PathTo(top, rel), name);
    hide PathTo, Without, Roomy, Aim;
    var loc, shown := at + rel, NameShown(PathTo(top, rel), name);
    EntryGoneWithin(before, loc, PathTo(top, rel), name);
    if ok {
      assert loc != [] ==> Parent(loc) == loc[..|loc| - 1];
      assert Onward(loc, shown) == loc + [shown];
    }
  }

  /** The names in a directory. */
  function Names(disk: Disk, loc: Loc): set<string> {
    set l | l in disk && |l| == |loc| + 1 && loc <= l :: l[|loc|]
  }

  lemma NamesAre(disk: Disk, loc: Loc, name: string)
    ensures name in Names(disk, loc) <==> loc + [name] in disk
  {
    var child := loc + [name];
    assert child[|loc|] == name && |child| == |loc| + 1 && loc <= child;
    if name in Names(disk, loc) {
      var l :| l in disk && |l| == |loc| + 1 && loc <= l && l[|loc|] == name;
      assert l == child;
    }
  }

  /** Reads a directory in no particular order, with or without the entries' types. */
  method ReadDirectory(disk: Disk, loc: Loc) returns (entries: seq<DirEnt>)
    requires WellFormed(disk)
    ensures Lists(disk, loc, entries)
  {
    entries := [];
    var left := Names(disk, loc) + {".", ".."};
    while left != {}
      invariant forall i :: 0 <= i < |entries| ==> Truthful(disk, loc, entries[i]) && entries[i].name !in left
      invariant forall i, j :: 0 <= i < j < |entries| ==> entries[i].name != entries[j].name
      invariant left <= Names(disk, loc) + {".", ".."}
      invariant forall name :: name in Names(disk, loc) ==> name in left || HasName(entries, name)
      decreases |left|
    {
      var name :| name in left;
      var typeKnown: bool := *;
      NamesAre(disk, loc, name);
      var e := DirEnt(name, if IsDots(name) then ADir else disk[loc + [name]], typeKnown);
      ghost var before := entries;
      entries, left := entries + [e], left - {name};
      forall other | other in Names(disk, loc) ensures other in left || HasName(entries, other) {
        MoreNames(before, e, other);
      }
    }
    forall name | loc + [name] in disk ensures HasName(entries, name) {
      NamesAre(disk, loc, name);
    }
  }

  lemma MoreNames(entries: seq<DirEnt>, e: DirEnt, name: string)
    ensures HasName(entries + [e], name) <==> HasName(entries, name) || e.name == name
  {
    assert (entries + [e])[|entries|] == e;
    assert forall i :: 0 <= i < |entries| ==> (entries + [e])[i] == entries[i];
  }
}
